/** `DateUtil`: the Gregorian calendar arithmetic the dates are built on. */
module DateUtil {

  import opened JavaInt
  import opened Months

  /** The Gregorian rule: divisible by 4, and not by 100 unless by 400. (A zero test on `%`
      means the same with Java's and Dafny's remainder.) */
  predicate IsLeapYear(year: int) {
    var fourth := year % 4 == 0;
    var hundredth := year % 100 == 0;
    var fourthHundredth := year % 400 == 0;
    fourth && (!hundredth || fourthHundredth)
  }

  /** The last day of `month` in `year`: the common-year length, one more for February of a
      leap year. */
  function LastDayOfMonth(month: Month, year: int): (r: int)
    ensures 28 <= r <= 31
    ensures r == 29 <==> month == FEBRUARY && IsLeapYear(year)
    ensures month != FEBRUARY ==> r == month.LastDay()
    ensures month == FEBRUARY ==> r == if IsLeapYear(year) then 29 else 28
  {
    if month == FEBRUARY && IsLeapYear(year) then month.LastDay() + 1 else month.LastDay()
  }

  /** `leapYearCount`: the number of leap years from 1900 up to `yyyy` inclusive, in closed
      form, with Java's truncating division. */
  function LeapYearCount(yyyy: int): int {
    var leap4 := Div(yyyy - 1896, 4);
    var leap100 := Div(yyyy - 1800, 100);
    var leap400 := Div(yyyy - 1600, 400);
    leap4 - leap100 + leap400
  }

  /** The leap years among 1900..y, counted directly. */
  ghost function LeapYearsThrough(y: int): set<int> {
    set z | 1900 <= z <= y && IsLeapYear(z)
  }

  /** From one year to the next the closed form grows by one exactly at a leap year. */
  lemma LeapYearCountStep(y: int)
    requires y >= 1897
    ensures LeapYearCount(y) - LeapYearCount(y - 1) == if IsLeapYear(y) then 1 else 0
  {
    QuotientStep4(y);
    QuotientStep100(y);
    QuotientStep400(y);
    DivisibilityChain(y);
  }

  // Each quotient of the closed form grows by one exactly when the year is a multiple of
  // its divisor (the offsets 1896, 1800 and 1600 are multiples of 4, 100 and 400).

  lemma QuotientStep4(y: int)
    requires y >= 1897
    ensures Div(y - 1896, 4) - Div(y - 1897, 4) == if y % 4 == 0 then 1 else 0
  {
    var q, r := y / 4, y % 4;
    assert y - 1896 == (q - 474) * 4 + r;
    assert Div(y - 1896, 4) == q - 474;
    if r == 0 {
      assert y - 1897 == (q - 475) * 4 + 3;
    } else {
      assert y - 1897 == (q - 474) * 4 + (r - 1);
    }
  }

  lemma QuotientStep100(y: int)
    requires y >= 1897
    ensures Div(y - 1800, 100) - Div(y - 1801, 100) == if y % 100 == 0 then 1 else 0
  {
    var q, r := y / 100, y % 100;
    assert y - 1800 == (q - 18) * 100 + r;
    assert Div(y - 1800, 100) == q - 18;
    if r == 0 {
      assert y - 1801 == (q - 19) * 100 + 99;
    } else {
      assert y - 1801 == (q - 18) * 100 + (r - 1);
    }
  }

  lemma QuotientStep400(y: int)
    requires y >= 1897
    ensures Div(y - 1600, 400) - Div(y - 1601, 400) == if y % 400 == 0 then 1 else 0
  {
    var q, r := y / 400, y % 400;
    assert y - 1600 == (q - 4) * 400 + r;
    assert Div(y - 1600, 400) == q - 4;
    if r == 0 {
      assert y - 1601 == (q - 5) * 400 + 399;
    } else {
      assert y - 1601 == (q - 4) * 400 + (r - 1);
    }
  }

  /** A multiple of 400 is a multiple of 100, and a multiple of 100 a multiple of 4. */
  lemma DivisibilityChain(y: int)
    ensures y % 400 == 0 ==> y % 100 == 0
    ensures y % 100 == 0 ==> y % 4 == 0
  {
    if y % 400 == 0 {
      MultipleOf100(y, y / 400 * 4);
    }
    if y % 100 == 0 {
      MultipleOf4(y, y / 100 * 25);
    }
  }

  lemma MultipleOf100(y: int, k: int)
    requires y == k * 100
    ensures y % 100 == 0
  {
  }

  lemma MultipleOf4(y: int, k: int)
    requires y == k * 4
    ensures y % 4 == 0
  {
  }

  /** The closed form is the number of leap years in 1900..y, for every y from 1899 on. */
  lemma {:induction false} LeapYearCountIsCount(y: int)
    requires y >= 1899
    ensures LeapYearCount(y) == |LeapYearsThrough(y)|
    decreases y
  {
    if y == 1899 {
      assert LeapYearsThrough(1899) == {};
    } else {
      LeapYearCountIsCount(y - 1);
      LeapYearCountStep(y);
      if IsLeapYear(y) {
        assert LeapYearsThrough(y) == LeapYearsThrough(y - 1) + {y};
      } else {
        assert LeapYearsThrough(y) == LeapYearsThrough(y - 1);
      }
    }
  }

  /** Between two years from 1896 on, the count grows by at most the number of years, and
      never shrinks. */
  lemma {:induction false} LeapYearCountMonotone(a: int, b: int)
    requires 1896 <= a <= b
    ensures LeapYearCount(a) <= LeapYearCount(b) <= LeapYearCount(a) + (b - a)
    decreases b - a
  {
    if a < b {
      LeapYearCountMonotone(a, b - 1);
      LeapYearCountStep(b);
    }
  }

  /** From 1899 on the count is between 0 and the number of years after 1900. */
  lemma LeapYearCountBounds(y: int)
    requires y >= 1899
    ensures 0 <= LeapYearCount(y)
    ensures y >= 1900 ==> LeapYearCount(y) <= y - 1900
  {
    LeapYearCountMonotone(1899, y);
    if y >= 1900 {
      LeapYearCountMonotone(1900, y);
    }
  }
}

/** The pieces of java.lang.String and java.lang.Integer that Month.parse and Day.parse rely
    on: `trim`, `equalsIgnoreCase` and `Integer.parseInt`, plus the locale name table that
    the enums read their names from, here injected as a value. */
module JavaText {

  import opened Errors

  const MIN_INT := -0x8000_0000
  const MAX_INT := 0x7FFF_FFFF

  /** A character that `String.trim` removes: any code point up to and including the space. */
  predicate IsTrimmed(c: char) {
    c <= ' '
  }

  /** The index of the first character at or after `i` that `trim` keeps (or |s|). */
  function SkipLeading(s: string, i: nat): (k: nat)
    requires i <= |s|
    ensures i <= k <= |s|
    ensures forall j :: i <= j < k ==> IsTrimmed(s[j])
    ensures k < |s| ==> !IsTrimmed(s[k])
    decreases |s| - i
  {
    if i < |s| && IsTrimmed(s[i]) then SkipLeading(s, i + 1) else i
  }

  /** The end of `s[st..len]` once trailing trimmed characters are dropped. */
  function SkipTrailing(s: string, st: nat, len: nat): (k: nat)
    requires st <= len <= |s|
    ensures st <= k <= len
    ensures forall j :: k <= j < len ==> IsTrimmed(s[j])
    ensures st < k ==> !IsTrimmed(s[k - 1])
    decreases len
  {
    if st < len && IsTrimmed(s[len - 1]) then SkipTrailing(s, st, len - 1) else len
  }

  /** `String.trim`: `s` without its leading and trailing characters up to the space. */
  function Trim(s: string): (r: string)
    ensures |r| <= |s|
    ensures r == [] || (!IsTrimmed(r[0]) && !IsTrimmed(r[|r| - 1]))
    ensures exists i, j :: (0 <= i <= j <= |s| && r == s[i..j]
                            && (forall k :: 0 <= k < i ==> IsTrimmed(s[k]))
                            && (forall k :: j <= k < |s| ==> IsTrimmed(s[k])))
  {
    var st := SkipLeading(s, 0);
    var len := SkipTrailing(s, st, |s|);
    assert forall k :: len <= k < |s| ==> IsTrimmed(s[k]) by {
      if st == |s| {
        assert len == |s|;
      }
    }
    s[st..len]
  }

  /** A string with nothing to trim at either end is its own trim. */
  lemma TrimUntrimmed(s: string)
    requires s == [] || (!IsTrimmed(s[0]) && !IsTrimmed(s[|s| - 1]))
    ensures Trim(s) == s
  {
    if s != [] {
      assert SkipLeading(s, 0) == 0;
      assert SkipTrailing(s, 0, |s|) == |s|;
    }
  }

  /** `String.equalsIgnoreCase`, with the JDK's per-character case mapping abstracted as
      `fold`: equal lengths, and at each position the characters are equal or fold equally. */
  predicate EqualsIgnoreCase(a: string, b: string, fold: char -> char) {
    |a| == |b| && forall i :: 0 <= i < |a| ==> a[i] == b[i] || fold(a[i]) == fold(b[i])
  }

  /** The names a locale gives the variants of an enum, with the case mapping used to
      compare them; this replaces the JDK's DateFormatSymbols. */
  datatype NameTable<!K> = NameTable(longName: K -> string, shortName: K -> string, fold: char -> char)

  predicate IsDigit(c: char) {
    '0' <= c <= '9'
  }

  predicate AllDigits(s: string) {
    forall i :: 0 <= i < |s| ==> IsDigit(s[i])
  }

  /** The value of a string of decimal digits, most significant first. */
  function DigitsValue(s: string): (v: nat)
    requires AllDigits(s)
  {
    if s == [] then 0 else DigitsValue(s[..|s| - 1]) * 10 + (s[|s| - 1] - '0') as int
  }

  /** `Integer.parseInt(s)` in radix 10; `None` stands for NumberFormatException. An optional
      sign is followed by at least one digit, and the value must fit in an `int`. */
  function ParseInt(s: string): (r: Option<int>)
    ensures r.Some? ==> MIN_INT <= r.value <= MAX_INT
    ensures r.Some? ==> |s| > 0 && (IsDigit(s[0]) || s[0] == '-' || s[0] == '+')
    ensures r.Some? ==> var t := if s[0] == '-' || s[0] == '+' then s[1..] else s;
      |t| > 0 && AllDigits(t) && (r.value < 0 ==> s[0] == '-')
  {
    if |s| == 0 then None
    else
      var signed := s[0] == '-' || s[0] == '+';
      var digits := if signed then s[1..] else s;
      if |digits| == 0 || !AllDigits(digits) then None
      else
        var magnitude: int := DigitsValue(digits);
        var v := if s[0] == '-' then -magnitude else magnitude;
        if MIN_INT <= v <= MAX_INT then Some(v) else None
  }

  /** The decimal rendering of a natural number, without sign or leading zeros. */
  function DecimalString(n: nat): (s: string)
    ensures |s| > 0 && AllDigits(s)
  {
    if n < 10 then ['0' + n as char] else DecimalString(n / 10) + ['0' + (n % 10) as char]
  }

  lemma {:induction false} DigitsValueOfDecimal(n: nat)
    ensures DigitsValue(DecimalString(n)) == n
  {
    if n >= 10 {
      var s := DecimalString(n);
      assert s[..|s| - 1] == DecimalString(n / 10);
      DigitsValueOfDecimal(n / 10);
    }
  }

  /** `parseInt` reads back every non-negative `int` written in decimal, and rejects a
      decimal beyond the largest `int`. */
  lemma ParseIntOfDecimal(n: nat)
    ensures ParseInt(DecimalString(n)) == if n <= MAX_INT then Some(n) else None
  {
    DigitsValueOfDecimal(n);
  }

  /** A leading zero does not change the value of a string of digits. */
  lemma {:induction false} DigitsValueLeadingZero(t: string)
    requires AllDigits(t)
    ensures AllDigits("0" + t) && DigitsValue("0" + t) == DigitsValue(t)
    decreases |t|
  {
    if t != [] {
      assert ("0" + t)[..|"0" + t| - 1] == "0" + t[..|t| - 1];
      DigitsValueLeadingZero(t[..|t| - 1]);
    }
  }

  /** A sign in front of a decimal: `-` negates it down to the smallest `int`, `+` keeps it,
      and leading zeros are ignored. */
  lemma ParseIntOfSignedDecimal(n: nat)
    ensures ParseInt("-" + DecimalString(n)) == if n <= MAX_INT + 1 then Some(-(n as int)) else None
    ensures ParseInt("+" + DecimalString(n)) == if n <= MAX_INT then Some(n) else None
    ensures ParseInt("0" + DecimalString(n)) == if n <= MAX_INT then Some(n) else None
  {
    DigitsValueOfDecimal(n);
    DigitsValueLeadingZero(DecimalString(n));
    assert ("-" + DecimalString(n))[1..] == DecimalString(n);
    assert ("+" + DecimalString(n))[1..] == DecimalString(n);
  }
}

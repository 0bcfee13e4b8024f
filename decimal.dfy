/**
  Base-10 text for integers, as Go's `fmt` prints it (`%d`) and as
  `strconv.ParseInt(s, 10, 32)` reads it back.
 */
module Decimal {
  import opened Wrappers

  const MinInt32: int := -0x8000_0000
  const MaxInt32: int := 0x7fff_ffff
  const MinInt64: int := -0x8000_0000_0000_0000
  const MaxInt64: int := 0x7fff_ffff_ffff_ffff

  predicate IsDigit(c: char) { '0' <= c <= '9' }

  predicate AllDigits(s: string) { forall i :: 0 <= i < |s| ==> IsDigit(s[i]) }

  function DigitValue(c: char): (d: nat)
    requires IsDigit(c)
    ensures d < 10
  {
    c as int - '0' as int
  }

  function DigitChar(d: nat): (c: char)
    requires d < 10
    ensures IsDigit(c) && DigitValue(c) == d
  {
    ('0' as int + d) as char
  }

  /** The shortest digit string of `n`: no leading zero unless `n` is zero. */
  function Digits(n: nat): (s: string)
    ensures |s| >= 1 && AllDigits(s)
    ensures s[0] == '0' <==> n == 0
    ensures n == 0 ==> s == "0"
    decreases n
  {
    if n < 10 then [DigitChar(n)] else Digits(n / 10) + [DigitChar(n % 10)]
  }

  /** `fmt.Sprintf("%d", x)`: an optional minus sign, then the digits of |x|. */
  function Format(x: int): (s: string)
    ensures |s| >= 1 && (s[0] == '-' <==> x < 0)
  {
    if x < 0 then "-" + Digits(-x) else Digits(x)
  }

  /** The number a non-empty or empty digit string denotes (leading zeros allowed). */
  function ValueOf(s: string): nat
    requires AllDigits(s)
    decreases |s|
  {
    if s == [] then 0 else 10 * ValueOf(s[..|s| - 1]) + DigitValue(s[|s| - 1])
  }

  /**
    `strconv.ParseInt(s, 10, bitSize)` for the range `[min, max]` of that
    size: an optional `+` or `-`, then one or more ASCII digits (leading
    zeros allowed, no underscores in base 10); `None` for a syntax error or
    a value out of range.
   */
  function ParseInt(s: string, min: int, max: int): (r: Option<int>)
    ensures r.Some? ==> min <= r.value <= max
    ensures r.Some? ==> |s| >= 1 && (r.value < 0 ==> s[0] == '-')
  {
    if |s| == 0 then None
    else
      var negative := s[0] == '-';
      var digits := if s[0] == '+' || s[0] == '-' then s[1..] else s;
      if |digits| == 0 || !AllDigits(digits) then None
      else
        var magnitude: int := ValueOf(digits);
        var value := if negative then 0 - magnitude else magnitude;
        if min <= value <= max then Some(value) else None
  }

  /** `strconv.ParseInt(s, 10, 32)`. */
  function ParseInt32(s: string): (r: Option<int>)
    ensures r.Some? ==> MinInt32 <= r.value <= MaxInt32
  {
    ParseInt(s, MinInt32, MaxInt32)
  }

  /** `strconv.Atoi(s)` on a 64-bit platform. */
  function Atoi(s: string): (r: Option<int>)
    ensures r.Some? ==> MinInt64 <= r.value <= MaxInt64
  {
    ParseInt(s, MinInt64, MaxInt64)
  }

  /** The text `Format` produces: "0", or an optional '-' and digits with no leading zero. */
  predicate Canonical(p: string) {
    || p == "0"
    || (|p| >= 1 && AllDigits(p) && p[0] != '0')
    || (|p| >= 2 && p[0] == '-' && AllDigits(p[1..]) && p[1] != '0')
  }

  lemma {:induction false} ValueOfDigits(n: nat)
    ensures ValueOf(Digits(n)) == n
    decreases n
  {
    if n >= 10 {
      var s := Digits(n);
      assert s[..|s| - 1] == Digits(n / 10);
      ValueOfDigits(n / 10);
    }
  }

  /** A digit string with no leading zero is the `Digits` of its value. */
  lemma {:induction false} DigitsOfValue(s: string)
    requires |s| >= 1 && AllDigits(s) && (s[0] != '0' || s == "0")
    ensures Digits(ValueOf(s)) == s
    ensures |s| >= 2 ==> ValueOf(s) >= 10
    ensures s[0] != '0' ==> ValueOf(s) >= 1
    decreases |s|
  {
    if |s| >= 2 {
      var init := s[..|s| - 1];
      assert init[0] == s[0];
      DigitsOfValue(init);
      var v := ValueOf(s);
      assert v / 10 == ValueOf(init) && v % 10 == DigitValue(s[|s| - 1]);
      assert DigitChar(v % 10) == s[|s| - 1];
      assert s == init + [s[|s| - 1]];
    } else {
      assert ValueOf(s) == DigitValue(s[0]);
    }
  }

  /** The text of a number never holds a space, and it is `Canonical`. */
  lemma FormatShape(x: int)
    ensures ' ' !in Format(x) && '"' !in Format(x) && '\\' !in Format(x)
    ensures forall c :: c in Format(x) ==> IsDigit(c) || c == '-'
    ensures Canonical(Format(x))
  {
    if x < 0 {
      var s := Format(x);
      assert s[1..] == Digits(-x);
      forall c | c in s ensures IsDigit(c) || c == '-' {
        var i :| 0 <= i < |s| && s[i] == c;
        if i > 0 { assert s[i] == s[1..][i - 1]; }
      }
    }
  }

  /** Printing and then parsing any 32-bit value gives it back. */
  lemma ParseFormat(x: int)
    requires MinInt32 <= x <= MaxInt32
    ensures ParseInt32(Format(x)) == Some(x)
  {
    var s := Format(x);
    if x < 0 {
      var d := Digits(-x);
      assert s[0] == '-' && s[1..] == d;
      ValueOfDigits(-x);
      assert ValueOf(s[1..]) == -x;
    } else {
      assert IsDigit(s[0]);
      ValueOfDigits(x);
      assert ValueOf(s) == x;
    }
  }

  lemma {:induction false} ValueOfLeadingZero(d: string)
    requires AllDigits(d)
    ensures AllDigits("0" + d) && ValueOf("0" + d) == ValueOf(d)
    decreases |d|
  {
    if d != [] {
      var z := "0" + d;
      assert z[..|z| - 1] == "0" + d[..|d| - 1];
      ValueOfLeadingZero(d[..|d| - 1]);
    } else {
      assert ("0" + d)[..0] == [];
    }
  }

  /** ParseInt also takes a `+` sign or a leading zero, which `Format` never writes. */
  lemma ParseLenient(x: nat)
    requires x <= MaxInt32
    ensures ParseInt32("+" + Format(x)) == Some(x)
    ensures ParseInt32("0" + Format(x)) == Some(x)
  {
    var d := Format(x);
    ValueOfDigits(x);
    assert ("+" + d)[1..] == d;
    assert ValueOf(("+" + d)[1..]) == x;
    ValueOfLeadingZero(d);
    assert ("0" + d)[0] == '0';
  }

  /** A value outside the 32-bit range prints as text that ParseInt refuses. */
  lemma ParseOutOfRange(x: int)
    requires x < MinInt32 || x > MaxInt32
    ensures ParseInt32(Format(x)) == None
  {
    var s := Format(x);
    if x < 0 {
      assert s[0] == '-' && s[1..] == Digits(-x);
      ValueOfDigits(-x);
    } else {
      assert IsDigit(s[0]);
      ValueOfDigits(x);
    }
  }

  /** Canonical text without a sign parses to the value whose digits it is. */
  lemma ParseUnsigned(p: string)
    requires |p| >= 1 && AllDigits(p) && (p[0] != '0' || p == "0")
    requires ValueOf(p) <= MaxInt32
    ensures ParseInt32(p) == Some(ValueOf(p)) && Format(ValueOf(p)) == p
  {
    var v := ValueOf(p);
    assert IsDigit(p[0]);
    assert p[0] != '+' && p[0] != '-';
    assert ParseInt(p, MinInt32, MaxInt32) == Some(v);
    DigitsOfValue(p);
    assert Format(v) == Digits(v);
  }

  /** Canonical text with a minus sign parses to the negated value of its digits. */
  lemma ParseNegative(p: string)
    requires |p| >= 2 && p[0] == '-' && AllDigits(p[1..]) && p[1] != '0'
    requires ParseInt32(p).Some?
    ensures ParseInt32(p) == Some(0 - ValueOf(p[1..])) && Format(0 - ValueOf(p[1..])) == p
  {
    var d := p[1..];
    DigitsOfValue(d);
    assert ValueOf(d) >= 1;
    assert p == "-" + d;
  }

  /** Parsing then printing gives the text back exactly when the text was canonical. */
  lemma FormatParse(p: string)
    requires ParseInt32(p).Some?
    ensures Format(ParseInt32(p).value) == p <==> Canonical(p)
  {
    var v := ParseInt32(p).value;
    if p == "0" || (|p| >= 1 && AllDigits(p) && p[0] != '0') {
      ParseUnsigned(p);
    } else if |p| >= 2 && p[0] == '-' && AllDigits(p[1..]) && p[1] != '0' {
      ParseNegative(p);
    } else {
      FormatShape(v);
    }
  }
}

/** Decimal numerals, and the digit loop of itoa in internal/rule/register.go. */
module Decimals {

  const MAX_INT := 0x7FFF_FFFF_FFFF_FFFF
  const MIN_INT := -0x8000_0000_0000_0000

  function Digit(d: nat): (c: char)
    requires d < 10
    ensures c as int == '0' as int + d
  {
    ('0' as int + d) as char
  }

  // strconv.Itoa on a non-negative value
  function Decimal(v: nat): string
  {
    if v < 10 then [Digit(v)] else Decimal(v / 10) + [Digit(v % 10)]
  }

  // The value of a string of digits.
  function Value(s: string): int
  {
    if s == "" then 0 else 10 * Value(s[..|s| - 1]) + (s[|s| - 1] as int - '0' as int)
  }

  lemma {:induction false} ValueOfDecimal(v: nat)
    ensures Value(Decimal(v)) == v
  {
    if v < 10 {
      assert Decimal(v)[..0] == "";
      assert Value(Decimal(v)) == 10 * Value("") + v;
    } else {
      ValueOfDecimal(v / 10);
      assert Decimal(v)[..|Decimal(v)| - 1] == Decimal(v / 10);
    }
  }

  // s is v in decimal digits, without leading zeros.
  ghost predicate IsNumeral(s: string, v: nat)
  {
    s != "" && (forall i :: 0 <= i < |s| ==> '0' <= s[i] <= '9') && (s[0] == '0' ==> |s| == 1) && Value(s) == v
  }

  lemma {:induction false} DecimalIsNumeral(v: nat)
    ensures IsNumeral(Decimal(v), v)
  {
    ValueOfDecimal(v);
    DecimalDigits(v);
  }

  /** Its digits, the most significant first. */
  lemma DecimalAppends(v: nat, d: nat)
    requires d < 10
    ensures Decimal(d) == ['0' + d as char] && (v > 0 ==> Decimal(10 * v + d) == Decimal(v) + ['0' + d as char])
  {
  }

  lemma {:induction false} DecimalDigits(v: nat)
    ensures var s := Decimal(v); s != "" && (forall i :: 0 <= i < |s| ==> '0' <= s[i] <= '9') && (s[0] == '0' ==> v == 0 && |s| == 1)
  {
    if v >= 10 {
      DecimalDigits(v / 10);
    }
  }

  /** Different numbers have different numerals. */
  lemma {:induction false} DecimalInjective(v: nat, w: nat)
    ensures Decimal(v) == Decimal(w) ==> v == w
  {
    ValueOfDecimal(v);
    ValueOfDecimal(w);
  }

  function Pow10(k: nat): nat
  {
    if k == 0 then 1 else 10 * Pow10(k - 1)
  }

  lemma Pow10Of19()
    ensures Pow10(19) == 10_000_000_000_000_000_000
  {
    assert Pow10(5) == 100_000;
    assert Pow10(10) == 10_000_000_000;
    assert Pow10(15) == 1_000_000_000_000_000;
  }

  // The digits still to be written.
  function Rest(v: nat): string
  {
    if v == 0 then "" else Decimal(v)
  }

  // v has fewer than i digits, so they fit in front of position i with a byte to spare.
  ghost predicate Fits(v: nat, i: int)
  {
    i >= 1 && v < Pow10(i - 1)
  }

  lemma BufferSuffices(v: nat)
    requires v <= MAX_INT
    ensures Fits(v, 20)
  {
    Pow10Of19();
  }

  lemma DigitStep(v: nat, i: int)
    requires v > 0 && Fits(v, i)
    ensures i >= 2 && Fits(v / 10, i - 1)
    ensures Rest(v) == Rest(v / 10) + [Digit(v % 10)]
  {
    if i >= 2 {
      assert Pow10(i - 1) == 10 * Pow10(i - 2);
    }
  }

  /** The 20-byte buffer is never left, and the result is the decimal numeral. A negative
      value, which no caller passes, yields the empty string. */
  method Itoa(value: int) returns (s: string)
    requires MIN_INT <= value <= MAX_INT
    ensures value >= 0 ==> s == Decimal(value)
    ensures value < 0 ==> s == ""
  {
    hide Decimal, Rest, Fits;
    RestEnds(value);
    if value == 0 {
      return "0";
    }
    var buf := new char[20];
    var i, v := buf.Length, value;
    if value > 0 {
      BufferSuffices(value);
      assert Rest(v) + buf[i..] == Rest(v);
    }
    while v > 0
      invariant 0 <= i <= buf.Length
      invariant value < 0 ==> v == value && i == buf.Length
      invariant value > 0 ==> v >= 0 && Fits(v, i) && Rest(value) == Rest(v) + buf[i..]
    {
      ghost var before := buf[i..];
      DigitStep(v, i);
      i := i - 1;
      buf[i] := Digit(v % 10);
      assert buf[i..] == [Digit(v % 10)] + before;
      v := v / 10;
    }
    s := buf[i..];
    assert "" + s == s;
  }

  lemma {:induction false} RestEnds(v: int)
    ensures Rest(0) == "" && Decimal(0) == "0" && (v > 0 ==> Rest(v) == Decimal(v))
  {
  }
}

/**
 * The wall-clock reading behind `date('YmdHis')`, as a calendar value passed in
 * by the caller, and its fourteen-digit rendering.
 */
module Clock {

  /** A local date and time as `date()` sees it. */
  datatype DateTime = DateTime(year: nat, month: nat, day: nat, hour: nat, minute: nat, second: nat) {
    /** Field ranges of a reading; years past 9999 are outside the model. */
    predicate Valid() {
      year <= 9999 && 1 <= month <= 12 && 1 <= day <= 31
      && hour < 24 && minute < 60 && second < 60
    }
  }

  predicate IsDigit(c: char) {
    '0' <= c <= '9'
  }

  function Digit(d: nat): (c: char)
    requires d < 10
    ensures IsDigit(c)
  {
    ('0' as int + d) as char
  }

  function DigitValue(c: char): (d: nat)
    requires IsDigit(c)
    ensures d < 10 && Digit(d) == c
  {
    c as int - '0' as int
  }

  /** `n` written with exactly `width` decimal digits, most significant first. */
  function Padded(n: nat, width: nat): (r: string)
    ensures |r| == width
    ensures forall i :: 0 <= i < width ==> IsDigit(r[i])
  {
    if width == 0 then [] else Padded(n / 10, width - 1) + [Digit(n % 10)]
  }

  /** The number a string of decimal digits denotes. */
  function DecimalValue(s: string): nat
    requires forall i :: 0 <= i < |s| ==> IsDigit(s[i])
  {
    if s == [] then 0 else DecimalValue(s[..|s| - 1]) * 10 + DigitValue(s[|s| - 1])
  }

  function Pow10(k: nat): (r: nat)
    ensures r >= 1
  {
    if k == 0 then 1 else 10 * Pow10(k - 1)
  }

  lemma DivBelowPow10(n: nat, width: nat)
    requires width > 0 && n < Pow10(width)
    ensures n / 10 < Pow10(width - 1)
  {
  }

  /** Reading back a zero-padded number gives it back when it fits the width. */
  lemma {:induction false} PaddedRoundTrip(n: nat, width: nat)
    requires n < Pow10(width)
    ensures DecimalValue(Padded(n, width)) == n
  {
    if width > 0 {
      var r := Padded(n, width);
      assert r[..|r| - 1] == Padded(n / 10, width - 1);
      assert r[|r| - 1] == Digit(n % 10);
      DivBelowPow10(n, width);
      PaddedRoundTrip(n / 10, width - 1);
      assert n / 10 * 10 + n % 10 == n;
    }
  }

  /** `date('YmdHis')`: year in four digits, then month, day, hour, minute, second in two. */
  function FormatYmdHis(t: DateTime): (r: string)
    requires t.Valid()
    ensures |r| == 14
    ensures forall i :: 0 <= i < 14 ==> IsDigit(r[i])
  {
    Padded(t.year, 4) + Padded(t.month, 2) + Padded(t.day, 2)
    + Padded(t.hour, 2) + Padded(t.minute, 2) + Padded(t.second, 2)
  }

  /** Reads a fourteen-digit `YmdHis` string back into its fields. */
  function ParseYmdHis(s: string): DateTime
    requires |s| == 14 && forall i :: 0 <= i < 14 ==> IsDigit(s[i])
  {
    DateTime(DecimalValue(s[0..4]), DecimalValue(s[4..6]), DecimalValue(s[6..8]),
             DecimalValue(s[8..10]), DecimalValue(s[10..12]), DecimalValue(s[12..14]))
  }

  /** The rendering loses nothing: it reads back to the same reading. */
  lemma FormatRoundTrip(t: DateTime)
    requires t.Valid()
    ensures ParseYmdHis(FormatYmdHis(t)) == t
  {
    var y, mo, d := Padded(t.year, 4), Padded(t.month, 2), Padded(t.day, 2);
    var h, mi, s := Padded(t.hour, 2), Padded(t.minute, 2), Padded(t.second, 2);
    var r := FormatYmdHis(t);
    assert r == y + mo + d + h + mi + s;
    assert r[0..4] == y && r[4..6] == mo && r[6..8] == d;
    assert r[8..10] == h && r[10..12] == mi && r[12..14] == s;
    assert Pow10(2) == 100 && Pow10(4) == 10000;
    PaddedRoundTrip(t.year, 4);
    PaddedRoundTrip(t.month, 2);
    PaddedRoundTrip(t.day, 2);
    PaddedRoundTrip(t.hour, 2);
    PaddedRoundTrip(t.minute, 2);
    PaddedRoundTrip(t.second, 2);
  }

  /** Two different readings (one second apart, say) never share a rendering. */
  lemma FormatInjective(t1: DateTime, t2: DateTime)
    requires t1.Valid() && t2.Valid()
    ensures FormatYmdHis(t1) == FormatYmdHis(t2) <==> t1 == t2
  {
    FormatRoundTrip(t1);
    FormatRoundTrip(t2);
  }
}

/** Python's `format(n, "0{width}x")`: lowercase hexadecimal with
    sign-aware zero padding to a minimum width, and the value of a string
    of hex digits, its inverse. */
module HexFormat {

  /** 16 to the power k. */
  function Pow16(k: nat): (p: nat)
    ensures p >= 1
  {
    if k == 0 then 1 else 16 * Pow16(k - 1)
  }

  predicate IsHexDigit(ch: char)
  {
    ('0' <= ch <= '9') || ('a' <= ch <= 'f')
  }

  predicate AllHexDigits(s: string)
  {
    forall i :: 0 <= i < |s| ==> IsHexDigit(s[i])
  }

  /** The lowercase digit for d. */
  function DigitChar(d: nat): (ch: char)
    requires d < 16
    ensures IsHexDigit(ch)
  {
    if d < 10 then ('0' as int + d) as char else ('a' as int + d - 10) as char
  }

  /** The value of one hex digit; DigitChar undoes it. */
  function DigitValue(ch: char): (d: nat)
    requires IsHexDigit(ch)
    ensures d < 16 && DigitChar(d) == ch
  {
    if ch <= '9' then ch as int - '0' as int else ch as int - 'a' as int + 10
  }

  /** The hex digits of n, most significant first and without leading zeros
      ("0" for zero): exactly as many digits as n needs. */
  function Digits(n: nat): (s: string)
    ensures 1 <= |s| && AllHexDigits(s)
    ensures n < Pow16(|s|)
    ensures |s| > 1 ==> Pow16(|s| - 1) <= n
  {
    if n < 16 then [DigitChar(n)]
    else
      var rest := Digits(n / 16);
      assert n / 16 < Pow16(|rest|);
      assert n < 16 * Pow16(|rest|);
      rest + [DigitChar(n % 16)]
  }

  /** The number a string of hex digits denotes, read most significant first. */
  function Value(s: string): (n: nat)
    requires AllHexDigits(s)
    ensures n < Pow16(|s|)
  {
    if |s| == 0 then 0 else 16 * Value(s[..|s| - 1]) + DigitValue(s[|s| - 1])
  }

  function Zeros(k: nat): (z: string)
    ensures |z| == k && forall i :: 0 <= i < k ==> z[i] == '0'
  {
    seq(k, _ => '0')
  }

  /** s preceded by enough '0' characters to make it width characters long. */
  function PadLeft(s: string, width: int): (r: string)
    ensures |r| == if |s| >= width then |s| else width
  {
    if |s| >= width then s else Zeros(width - |s|) + s
  }

  /** `format(n, "0{width}x")`. A negative number keeps its '-' in front of
      the zero padding, and the sign counts towards the width. */
  function Format(n: int, width: int): (r: string)
    ensures |r| >= 1 && |r| >= width
    ensures r[0] == '-' <==> n < 0
  {
    if n < 0 then "-" + PadLeft(Digits(-n), width - 1) else PadLeft(Digits(n), width)
  }

  /** Reading back the digits of n gives n. */
  lemma {:induction false} DigitsRoundTrip(n: nat)
    ensures Value(Digits(n)) == n
  {
    if n >= 16 {
      DigitsRoundTrip(n / 16);
      var s := Digits(n);
      assert s[..|s| - 1] == Digits(n / 16);
    }
  }

  /** Leading zeros do not change the value of a digit string. */
  lemma {:induction false} LeadingZeros(k: nat, s: string)
    requires AllHexDigits(s)
    ensures AllHexDigits(Zeros(k) + s) && Value(Zeros(k) + s) == Value(s)
    decreases |s|, k
  {
    var z := Zeros(k) + s;
    if |s| == 0 {
      assert z == Zeros(k);
      if k > 0 {
        assert z[..k - 1] == Zeros(k - 1) + s;
        LeadingZeros(k - 1, s);
      }
    } else {
      assert z[..|z| - 1] == Zeros(k) + s[..|s| - 1];
      LeadingZeros(k, s[..|s| - 1]);
    }
  }

  /** Zero padding keeps a digit string's value. */
  lemma PadRoundTrip(d: string, width: int)
    requires AllHexDigits(d)
    ensures AllHexDigits(PadLeft(d, width)) && Value(PadLeft(d, width)) == Value(d)
  {
    if |d| < width {
      LeadingZeros(width - |d|, d);
    }
  }

  /** A non-negative number formatted at any width reads back as itself. */
  lemma FormatRoundTrip(n: nat, width: int)
    ensures AllHexDigits(Format(n, width)) && Value(Format(n, width)) == n
  {
    DigitsRoundTrip(n);
    PadRoundTrip(Digits(n), width);
    assert Format(n, width) == PadLeft(Digits(n), width);
  }

  lemma {:induction false} Pow16Monotone(i: nat, j: nat)
    requires i <= j
    ensures Pow16(i) <= Pow16(j)
    decreases j
  {
    if i < j {
      Pow16Monotone(i, j - 1);
    }
  }

  /** A number below 16^width takes exactly width characters. */
  lemma FormatWidth(n: nat, width: nat)
    requires 1 <= width && n < Pow16(width)
    ensures |Format(n, width)| == width
  {
    var d := Digits(n);
    if |d| > width {
      Pow16Monotone(width, |d| - 1);
    }
  }

  /** A byte renders as exactly two lowercase hex digits that read back as
      that byte. */
  lemma ByteFormat(n: int)
    requires 0 <= n < 256
    ensures |Format(n, 2)| == 2 && AllHexDigits(Format(n, 2)) && Value(Format(n, 2)) == n
  {
    assert Pow16(2) == 256;
    FormatWidth(n, 2);
    FormatRoundTrip(n, 2);
  }
}

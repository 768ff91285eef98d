/// Decimal numerals: `int(digits)`, `str(n)` and the zero-padded
/// `f"{n:02d}"` / `f"{n:03d}"` forms used to build citation keys.
module Numerals {
  import opened Text

  function DigitValue(c: char): nat
    requires IsDigit(c)
  {
    (c as int) - ('0' as int)
  }

  function DigitChar(d: nat): (c: char)
    requires d < 10
    ensures IsDigit(c) && DigitValue(c) == d
  {
    (('0' as int) + d) as char
  }

  /** `int(d)` for a string of ASCII digits; leading zeros are allowed. */
  function ParseNat(d: string): nat
    requires AllDigits(d)
    decreases |d|
  {
    if d == [] then 0 else ParseNat(d[..|d| - 1]) * 10 + DigitValue(d[|d| - 1])
  }

  /** `str(n)` for a natural number. */
  function NatToDigits(n: nat): (r: string)
    ensures AllDigits(r) && r != []
    ensures n > 0 ==> r[0] != '0'
  {
    if n < 10 then [DigitChar(n)] else NatToDigits(n / 10) + [DigitChar(n % 10)]
  }

  /** `str(n)` for any integer: a minus sign before the digits of `-n` when
      `n` is negative. */
  function IntToString(n: int): (r: string)
    ensures r != []
    ensures n >= 0 ==> r == NatToDigits(n)
    ensures n < 0 ==> r[0] == '-' && r[1..] == NatToDigits(-n)
  {
    if n < 0 then "-" + NatToDigits(-n) else NatToDigits(n)
  }

  function Zeros(k: nat): (r: string)
    ensures |r| == k && AllDigits(r)
  {
    if k == 0 then [] else "0" + Zeros(k - 1)
  }

  /** `f"{n:0<width>d}"` applied to `str(n)`: zeros in front up to `width`. */
  function ZeroPad(d: string, width: nat): string
  {
    if |d| >= width then d else Zeros(width - |d|) + d
  }

  /** Reading back `str(n)` gives `n`. */
  lemma {:induction false} ParseNatToDigits(n: nat)
    ensures ParseNat(NatToDigits(n)) == n
  {
    var r := NatToDigits(n);
    if n >= 10 {
      ParseNatToDigits(n / 10);
      assert r[..|r| - 1] == NatToDigits(n / 10);
    }
  }

  lemma {:induction false} ParseNatOfZeros(k: nat)
    ensures ParseNat(Zeros(k)) == 0
  {
    if k > 0 {
      var z := Zeros(k);
      ZerosCommute(k - 1);
      assert z == Zeros(k - 1) + "0";
      assert z[|z| - 1] == '0';
      assert z[..|z| - 1] == Zeros(k - 1);
      ParseNatOfZeros(k - 1);
    }
  }

  lemma {:induction false} ZerosCommute(k: nat)
    ensures Zeros(k) + "0" == "0" + Zeros(k)
  {
    if k > 0 {
      ZerosCommute(k - 1);
      calc {
        Zeros(k) + "0";
        ("0" + Zeros(k - 1)) + "0";
        "0" + (Zeros(k - 1) + "0");
        "0" + ("0" + Zeros(k - 1));
        "0" + Zeros(k);
      }
    }
  }

  /** Leading zeros do not change the value of a numeral. */
  lemma {:induction false} ParseNatLeadingZeros(k: nat, d: string)
    requires AllDigits(d)
    ensures AllDigits(Zeros(k) + d) && ParseNat(Zeros(k) + d) == ParseNat(d)
    decreases |d|
  {
    var s := Zeros(k) + d;
    if d == [] {
      assert s == Zeros(k);
      ParseNatOfZeros(k);
    } else {
      assert s[..|s| - 1] == Zeros(k) + d[..|d| - 1];
      assert s[|s| - 1] == d[|d| - 1];
      ParseNatLeadingZeros(k, d[..|d| - 1]);
    }
  }

  /** Every key form `CR{n}`, `CR{n:02d}`, `CR{n:03d}` names the number `n`. */
  lemma PaddedNumeralValue(n: nat, width: nat)
    ensures AllDigits(ZeroPad(NatToDigits(n), width))
    ensures ParseNat(ZeroPad(NatToDigits(n), width)) == n
  {
    var d := NatToDigits(n);
    ParseNatToDigits(n);
    if |d| < width { ParseNatLeadingZeros(width - |d|, d); }
  }
}

/** Decimal rendering of natural numbers, as Python's `str(n)`, `%d` and the
    zero-padded `strftime` directives produce it, together with the parser
    that undoes it. */
module Decimal {

  predicate IsDigit(c: char) {
    '0' <= c <= '9'
  }

  predicate AllDigits(s: string) {
    forall i :: 0 <= i < |s| ==> IsDigit(s[i])
  }

  function DigitChar(d: nat): (c: char)
    requires d < 10
    ensures IsDigit(c)
  {
    (('0' as int) + d) as char
  }

  function DigitValue(c: char): (d: nat)
    requires IsDigit(c)
    ensures d < 10
  {
    (c as int) - ('0' as int)
  }

  /** The shortest decimal spelling of `n`: no sign and no leading zero. */
  function Digits(n: nat): (s: string)
    ensures |s| >= 1
    ensures AllDigits(s)
    ensures |s| > 1 ==> s[0] != '0'
  {
    if n < 10 then [DigitChar(n)] else Digits(n / 10) + [DigitChar(n % 10)]
  }

  /** Reads a string of decimal digits, most significant digit first. */
  function ParseNat(s: string): nat
    requires AllDigits(s)
  {
    if s == [] then 0 else ParseNat(s[..|s| - 1]) * 10 + DigitValue(s[|s| - 1])
  }

  function Zeros(k: nat): (s: string)
    ensures |s| == k
    ensures forall i :: 0 <= i < k ==> s[i] == '0'
  {
    if k == 0 then [] else Zeros(k - 1) + ['0']
  }

  /** `n` in decimal, left-padded with zeros to at least `width` characters,
      as `%0<width>d` renders it. */
  function ZeroPad(n: nat, width: nat): (s: string)
    ensures AllDigits(s)
    ensures |s| == if width <= |Digits(n)| then |Digits(n)| else width
    ensures ParseNat(s) == n
  {
    var d := Digits(n);
    ParseDigits(n);
    if width <= |d| then d
    else
      LeadingZeros(width - |d|, d);
      Zeros(width - |d|) + d
  }

  /** Python's `str(i)` for an integer: a minus sign before the digits of a
      negative number. */
  function IntToString(i: int): (s: string)
    ensures |s| >= 1
    ensures forall k :: 0 <= k < |s| ==> IsDigit(s[k]) || s[k] == '-'
    ensures i >= 0 ==> s == Digits(i)
    ensures (s[0] == '-') == (i < 0)
    ensures i < 0 ==> s[1..] == Digits(-i)
  {
    if i >= 0 then Digits(i) else "-" + Digits(-i)
  }

  function Pow10(w: nat): (p: nat)
    ensures p >= 1
  {
    if w == 0 then 1 else 10 * Pow10(w - 1)
  }

  /** Parsing undoes printing. */
  lemma {:induction false} ParseDigits(n: nat)
    ensures ParseNat(Digits(n)) == n
  {
    if n >= 10 {
      var s := Digits(n);
      assert s[..|s| - 1] == Digits(n / 10);
      ParseDigits(n / 10);
    }
  }

  /** `int(str(i)) == i`: the sign and the digits of `str(i)` read back as
      `i`. */
  lemma IntToStringRoundTrip(i: int)
    ensures var s := IntToString(i);
      if s[0] == '-' then AllDigits(s[1..]) && ParseNat(s[1..]) == -i
      else AllDigits(s) && ParseNat(s) == i
  {
    if i < 0 {
      ParseDigits(-i);
    } else {
      ParseDigits(i);
    }
  }

  /** Leading zeros do not change the value read. */
  lemma {:induction false} LeadingZeros(k: nat, s: string)
    requires AllDigits(s)
    ensures AllDigits(Zeros(k) + s)
    ensures ParseNat(Zeros(k) + s) == ParseNat(s)
  {
    var z := Zeros(k) + s;
    if s == [] {
      assert z == Zeros(k);
      ZerosParseToZero(k);
    } else {
      var init := s[..|s| - 1];
      assert z[..|z| - 1] == Zeros(k) + init;
      LeadingZeros(k, init);
    }
  }

  lemma {:induction false} ZerosParseToZero(k: nat)
    ensures AllDigits(Zeros(k))
    ensures ParseNat(Zeros(k)) == 0
  {
    if k > 0 {
      assert Zeros(k)[..k - 1] == Zeros(k - 1);
      ZerosParseToZero(k - 1);
    }
  }

  /** A number below 10^w needs at most `w` digits, so padding it to width
      `w` yields exactly `w` characters. */
  lemma {:induction false} DigitsFit(n: nat, w: nat)
    requires 1 <= w
    requires n < Pow10(w)
    ensures |Digits(n)| <= w
    ensures |ZeroPad(n, w)| == w
  {
    if n >= 10 {
      DigitsFit(n / 10, w - 1);
    }
  }
}

/** `Number(s)` on the strings `split` hands it, and the zero-padded decimal
    rendering that the extraction prompt asks dates and times to come in.
    `None` stands for `NaN`. */
module JsNumber {
  import opened Wrappers
  import opened JsString

  predicate IsDigit(c: char) {
    '0' <= c <= '9'
  }

  predicate AllDigits(s: string) {
    forall i :: 0 <= i < |s| ==> IsDigit(s[i])
  }

  function DigitValue(c: char): nat
    requires IsDigit(c)
  {
    c as int - '0' as int
  }

  /** The value of a string of decimal digits, most significant first; the
      empty string is 0. */
  function DecimalValue(s: string): nat
    requires AllDigits(s)
  {
    if s == [] then 0 else DecimalValue(s[..|s| - 1]) * 10 + DigitValue(s[|s| - 1])
  }

  /** `Number(s)`: surrounding whitespace is ignored, the empty string is 0,
      a run of decimal digits is its value; every other string is `NaN` here. */
  function ToNumber(s: string): (r: Option<int>)
    ensures r.Some? <==> AllDigits(Trim(s))
    ensures r.Some? ==> r.value >= 0
  {
    var t := Trim(s);
    if AllDigits(t) then Some(DecimalValue(t)) else None
  }

  function DigitChar(d: nat): (c: char)
    requires d < 10
    ensures IsDigit(c) && DigitValue(c) == d
  {
    ('0' as int + d) as char
  }

  /** The shortest decimal rendering of `n`. */
  function ShowNat(n: nat): (s: string)
    ensures |s| >= 1 && AllDigits(s)
  {
    if n < 10 then [DigitChar(n)] else ShowNat(n / 10) + [DigitChar(n % 10)]
  }

  function Zeros(k: nat): (z: string)
    ensures |z| == k && AllDigits(z)
  {
    seq(k, _ => '0')
  }

  /** `s` left-padded with `'0'` to at least `width` characters. */
  function PadLeft(s: string, width: nat): (r: string)
    ensures |r| >= width && |r| >= |s|
    ensures r[|r| - |s|..] == s
    ensures forall i :: 0 <= i < |r| - |s| ==> r[i] == '0'
  {
    if |s| >= width then s else Zeros(width - |s|) + s
  }

  /** `n` rendered in decimal, zero-padded to `width` digits. */
  function Padded(n: nat, width: nat): (s: string)
    ensures |s| >= width && AllDigits(s)
  {
    PadLeft(ShowNat(n), width)
  }

  /** Reading a rendering back gives the number. */
  lemma {:induction false} DecimalShowNat(n: nat)
    ensures DecimalValue(ShowNat(n)) == n
    decreases n
  {
    if n >= 10 {
      var s := ShowNat(n);
      assert s[..|s| - 1] == ShowNat(n / 10);
      DecimalShowNat(n / 10);
    }
  }

  lemma {:induction false} DecimalZeros(k: nat)
    ensures DecimalValue(Zeros(k)) == 0
    decreases k
  {
    if k > 0 {
      assert Zeros(k)[..k - 1] == Zeros(k - 1);
      DecimalZeros(k - 1);
    }
  }

  /** Leading zeros do not change a decimal value. */
  lemma {:induction false} DecimalLeadingZeros(k: nat, s: string)
    requires AllDigits(s)
    ensures AllDigits(Zeros(k) + s)
    ensures DecimalValue(Zeros(k) + s) == DecimalValue(s)
    decreases |s|
  {
    var z := Zeros(k) + s;
    assert AllDigits(z);
    if s == [] {
      assert z == Zeros(k);
      DecimalZeros(k);
    } else {
      assert z[..|z| - 1] == Zeros(k) + s[..|s| - 1];
      DecimalLeadingZeros(k, s[..|s| - 1]);
    }
  }

  /** `Number` reads a zero-padded rendering of `n` as `n`, so the
      `YYYY`/`MM`/`DD`/`HH`/`mm` fields the extraction prompt asks for are read
      back exactly. */
  lemma ToNumberPadded(n: nat, width: nat)
    ensures ToNumber(Padded(n, width)) == Some(n)
  {
    var d := ShowNat(n);
    var s := Padded(n, width);
    forall i | 0 <= i < |s|
      ensures !IsWhitespace(s[i])
    {
      assert IsDigit(s[i]);
    }
    TrimNoSpace(s);
    DecimalShowNat(n);
    if |d| < width {
      DecimalLeadingZeros(width - |d|, d);
    }
  }

  /** Whitespace around a number is ignored, as `Number(" 9 ")` is 9. */
  lemma ToNumberIgnoresSpace(s: string, pre: string, post: string)
    requires forall i :: 0 <= i < |pre| ==> IsWhitespace(pre[i])
    requires forall i :: 0 <= i < |post| ==> IsWhitespace(post[i])
    ensures ToNumber(pre + s + post) == ToNumber(s)
  {
    TrimPadded(s, pre, post);
  }
}

/**
 * Decimal numbers as text: the `:.2f` rendering of a weight and the subset of
 * Python's `float()` grammar that reads it back.
 */
module Decimal {
  import opened Strings

  predicate IsDigit(c: char)
  {
    '0' <= c <= '9'
  }

  predicate AllDigits(s: string)
  {
    forall k :: 0 <= k < |s| ==> IsDigit(s[k])
  }

  function DigitChar(d: nat): (c: char)
    requires d < 10
    ensures IsDigit(c)
  {
    ('0' as int + d) as char
  }

  function DigitValue(c: char): (d: nat)
    requires IsDigit(c)
    ensures d < 10 && DigitChar(d) == c
  {
    c as int - '0' as int
  }

  /** `x` with its decimal point moved `k` places to the left. */
  function Shift(x: real, k: nat): (r: real)
    ensures x >= 0.0 ==> 0.0 <= r <= x
  {
    if k == 0 then x else Shift(x, k - 1) / 10.0
  }

  /** The number a string of decimal digits denotes (most significant first). */
  function DigitsValue(s: string): nat
    requires AllDigits(s)
  {
    if s == [] then 0 else DigitsValue(s[..|s| - 1]) * 10 + DigitValue(s[|s| - 1])
  }

  /** `str(n)` for a natural number: its decimal digits, no leading zero. */
  function NatDigits(n: nat): (r: string)
    ensures r != [] && AllDigits(r)
    ensures r[0] != '0' || n == 0
  {
    if n < 10 then [DigitChar(n)] else NatDigits(n / 10) + [DigitChar(n % 10)]
  }

  /** `NatDigits` and `DigitsValue` are inverse. */
  lemma {:induction false} NatDigitsValue(n: nat)
    ensures DigitsValue(NatDigits(n)) == n
  {
    var r := NatDigits(n);
    if n >= 10 {
      NatDigitsValue(n / 10);
      assert r[..|r| - 1] == NatDigits(n / 10);
    }
  }

  /** `f"{w:.2f}"` for a weight given in hundredths: integer part, a point,
      exactly two fraction digits. */
  function Fixed2(h: nat): string
  {
    var cents := h % 100;
    NatDigits(h / 100) + "." + [DigitChar(cents / 10), DigitChar(cents % 10)]
  }

  /** The rendering has at least one integer digit, the point third from the
      end, and digits everywhere else. */
  lemma {:induction false} Fixed2Shape(h: nat)
    ensures |Fixed2(h)| >= 4 && Fixed2(h)[|Fixed2(h)| - 3] == '.'
    ensures forall k :: 0 <= k < |Fixed2(h)| && k != |Fixed2(h)| - 3 ==> IsDigit(Fixed2(h)[k])
  {
    var r := Fixed2(h);
    var whole := NatDigits(h / 100);
    assert r == whole + "." + [DigitChar(h % 100 / 10), DigitChar(h % 100 % 10)];
    forall k | 0 <= k < |r| && k != |r| - 3 ensures IsDigit(r[k]) {
      if k < |whole| { assert r[k] == whole[k]; }
    }
  }

  /** Rounding of a non-negative weight to hundredths, halves rounded up. */
  function Hundredths(w: real): (h: nat)
    requires w >= 0.0
    ensures w - 0.005 < h as real / 100.0 <= w + 0.005
  {
    (w * 100.0 + 0.5).Floor
  }

  /** Python's `float(s)` restricted to an optional sign followed by decimal
      digits with at most one decimal point (at least one digit in all);
      anything else is rejected with `None`, as `float` raises `ValueError`. */
  function ParseFloat(s: string): (r: Option<real>)
    ensures r.Some? ==> s != [] && (s[0] != '-' ==> r.value >= 0.0) && (s[0] == '-' ==> r.value <= 0.0)
  {
    if s == [] then None
    else if s[0] == '-' || s[0] == '+' then
      match ParseUnsigned(s[1..])
      case None => None
      case Some(m) => Some(if s[0] == '-' then -m else m)
    else ParseUnsigned(s)
  }

  /** Digits with at most one decimal point, at least one digit in all. */
  function ParseUnsigned(body: string): (r: Option<real>)
    ensures r.Some? ==> r.value >= 0.0
  {
    match Find(body, ".")
    case None =>
      if body != [] && AllDigits(body) then Some(DigitsValue(body) as real) else None
    case Some(k) =>
      var whole, frac := body[..k], body[k + 1..];
      if AllDigits(whole) && AllDigits(frac) && |whole| + |frac| > 0 then
        Some(DigitsValue(whole) as real + Shift(DigitsValue(frac) as real, |frac|))
      else None
  }

  /** What `ParseFloat` accepts: a non-empty string of digits and points with
      at most a leading sign, holding at least one digit. */
  lemma {:induction false} ParseFloatSyntax(s: string)
    requires ParseFloat(s).Some?
    ensures exists k :: 0 <= k < |s| && IsDigit(s[k])
    ensures forall k :: 0 <= k < |s| ==>
      IsDigit(s[k]) || s[k] == '.' || (k == 0 && (s[k] == '-' || s[k] == '+'))
  {
    var off := if s[0] == '-' || s[0] == '+' then 1 else 0;
    var body := s[off..];
    assert ParseUnsigned(body).Some?;
    UnsignedSyntax(body);
    var k :| 0 <= k < |body| && IsDigit(body[k]);
    assert s[off + k] == body[k];
    forall i | off <= i < |s| ensures IsDigit(s[i]) || s[i] == '.' {
      assert s[i] == body[i - off];
    }
  }

  lemma {:induction false} UnsignedSyntax(body: string)
    requires ParseUnsigned(body).Some?
    ensures exists k :: 0 <= k < |body| && IsDigit(body[k])
    ensures forall k :: 0 <= k < |body| ==> IsDigit(body[k]) || body[k] == '.'
  {
    match Find(body, ".")
    case None =>
      assert IsDigit(body[0]);
    case Some(p) =>
      var whole, frac := body[..p], body[p + 1..];
      assert body == whole + "." + frac;
      if |whole| > 0 { assert body[0] == whole[0]; }
      else { assert body[p + 1] == frac[0]; }
      forall i | 0 <= i < |body| ensures IsDigit(body[i]) || body[i] == '.' {
        if i < p { assert body[i] == whole[i]; }
        else if i > p { assert body[i] == frac[i - p - 1]; }
      }
  }

  /** Digits, a point and digits read back as the whole part plus the
      fraction shifted by its length. */
  lemma {:induction false} ParsePointed(whole: string, frac: string)
    requires whole != [] && AllDigits(whole) && AllDigits(frac)
    ensures ParseFloat(whole + "." + frac)
         == Some(DigitsValue(whole) as real + Shift(DigitsValue(frac) as real, |frac|))
  {
    var s := whole + "." + frac;
    UnsignedPointed(whole, frac);
    assert s[0] == whole[0] && IsDigit(s[0]);
  }

  lemma {:induction false} UnsignedPointed(whole: string, frac: string)
    requires whole != [] && AllDigits(whole) && AllDigits(frac)
    ensures ParseUnsigned(whole + "." + frac)
         == Some(DigitsValue(whole) as real + Shift(DigitsValue(frac) as real, |frac|))
  {
    var s := whole + "." + frac;
    assert '.' !in whole by {
      forall k | 0 <= k < |whole| ensures whole[k] != '.' { assert IsDigit(whole[k]); }
    }
    FindAfterPrefix(whole, ".", frac);
    assert s[..|whole|] == whole && s[|whole| + 1..] == frac;
    var v := DigitsValue(whole) as real + Shift(DigitsValue(frac) as real, |frac|);
    assert ParseUnsigned(s) == Some(v);
  }

  /** Two fraction digits denote hundredths. */
  lemma {:induction false} TwoDigits(a: nat, b: nat)
    requires a < 10 && b < 10
    ensures Shift(DigitsValue([DigitChar(a), DigitChar(b)]) as real, 2) == (10 * a + b) as real / 100.0
  {
    var frac := [DigitChar(a), DigitChar(b)];
    assert frac[..1] == [DigitChar(a)] && frac[..1][..0] == [];
    assert DigitValue(DigitChar(a)) == a && DigitValue(DigitChar(b)) == b;
    assert DigitsValue(frac[..1]) == a;
    assert DigitsValue(frac) == 10 * a + b;
    var x := DigitsValue(frac) as real;
    assert Shift(x, 1) == x / 10.0;
  }

  /** Reading back a rendered weight gives exactly the weight in hundredths. */
  lemma {:induction false} Fixed2RoundTrip(h: nat)
    ensures ParseFloat(Fixed2(h)) == Some(h as real / 100.0)
  {
    var a, b := h % 100 / 10, h % 100 % 10;
    var whole, frac := NatDigits(h / 100), [DigitChar(a), DigitChar(b)];
    assert Fixed2(h) == whole + "." + frac;
    ParsePointed(whole, frac);
    var v := DigitsValue(whole) as real + Shift(DigitsValue(frac) as real, |frac|);
    assert v == h as real / 100.0 by {
      NatDigitsValue(h / 100);
      TwoDigits(a, b);
      assert (h / 100) as real + (h % 100) as real / 100.0 == h as real / 100.0;
    }
    assert ParseFloat(Fixed2(h)) == Some(v);
  }

}

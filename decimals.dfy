/**
 * Python's `float(text)` read as an exact decimal number. Only the plain
 * positional form is accepted: surrounding whitespace, an optional sign, and
 * ASCII digits with at most one decimal point and at least one digit.
 */
module Decimals {
  import opened Wrappers
  import Text

  /** The number `mantissa / 10^scale`, exactly as written (`1.50` has scale 2). */
  datatype Decimal = Decimal(mantissa: int, scale: nat)

  predicate IsDigit(c: char) { '0' <= c <= '9' }

  predicate AllDigits(s: string) {
    forall k :: 0 <= k < |s| ==> IsDigit(s[k])
  }

  /** The value of a string of decimal digits, most significant first. */
  function DigitsValue(ds: string): nat
    requires AllDigits(ds)
    decreases |ds|
  {
    if ds == [] then 0
    else DigitsValue(ds[..|ds| - 1]) * 10 + (ds[|ds| - 1] as int - '0' as int)
  }

  /** Position of the first occurrence of `c`. */
  function IndexOf(s: string, c: char): (i: nat)
    requires c in s
    ensures i < |s| && s[i] == c && c !in s[..i]
  {
    if s[0] == c then 0
    else
      assert c in s[1..];
      var i := IndexOf(s[1..], c);
      assert s[..i + 1] == [s[0]] + s[1..][..i];
      i + 1
  }

  /** An unsigned number: `digits`, `digits.`, `.digits` or `digits.digits`. */
  function ParseUnsigned(t: string): Option<Decimal> {
    if '.' in t then
      var i := IndexOf(t, '.');
      var whole, frac := t[..i], t[i + 1..];
      if AllDigits(whole) && AllDigits(frac) && |whole| + |frac| > 0
      then Some(Decimal(DigitsValue(whole + frac), |frac|))
      else None
    else if |t| > 0 && AllDigits(t) then Some(Decimal(DigitsValue(t), 0))
    else None
  }

  /** An optionally signed number with no surrounding whitespace. */
  function ParseSigned(t: string): Option<Decimal> {
    if |t| > 0 && (t[0] == '+' || t[0] == '-') then
      match ParseUnsigned(t[1..])
      case None => None
      case Some(d) => Some(if t[0] == '-' then Decimal(-d.mantissa, d.scale) else d)
    else ParseUnsigned(t)
  }

  /** Text that starts with neither sign reads as an unsigned number. */
  lemma UnsignedText(t: string)
    requires |t| == 0 || (t[0] != '+' && t[0] != '-')
    ensures ParseSigned(t) == ParseUnsigned(t)
    ensures ParseUnsigned(t).Some? ==> ParseUnsigned(t).value.mantissa >= 0
  {
  }

  lemma UnsignedDigits(t: string)
    requires |t| > 0 && AllDigits(t)
    ensures ParseUnsigned(t) == Some(Decimal(DigitsValue(t), 0))
  {
    NoPointInDigits(t);
  }

  /** A non-empty digit string reads as its value. */
  lemma ParseDigits(t: string)
    requires |t| > 0 && AllDigits(t)
    ensures ParseFloat(t) == Some(Decimal(DigitsValue(t), 0))
  {
    assert IsDigit(t[0]) && IsDigit(t[|t| - 1]);
    Text.StripTrimmed(Text.FloatSpaces, t);
    UnsignedText(t);
    UnsignedDigits(t);
  }

  /** A minus sign before a digit string negates its value. */
  lemma ParseNegative(t: string)
    requires |t| > 0 && AllDigits(t)
    ensures ParseFloat(['-'] + t).Some?
    ensures ParseFloat(['-'] + t).value == Decimal(-(DigitsValue(t) as int), 0)
  {
    UnsignedDigits(t);
    NegateUnsigned(t, Decimal(DigitsValue(t), 0));
  }

  lemma NegateUnsigned(t: string, d: Decimal)
    requires |t| > 0 && IsDigit(t[|t| - 1]) && ParseUnsigned(t) == Some(d)
    ensures ParseFloat(['-'] + t) == Some(Decimal(-d.mantissa, d.scale))
  {
    var s := ['-'] + t;
    assert s[1..] == t;
    SignedNegative(s, d);
    assert IsDigit(s[|s| - 1]) by { assert s[|s| - 1] == t[|t| - 1]; }
    FloatOfTrimmed(s);
  }

  /** Text with no surrounding whitespace is read as it stands. */
  lemma FloatOfTrimmed(s: string)
    requires |s| > 0 && !Text.IsSpace(s[0]) && !Text.IsSpace(s[|s| - 1])
    ensures ParseFloat(s) == ParseSigned(s)
  {
    Text.StripTrimmed(Text.FloatSpaces, s);
  }

  lemma SignedNegative(s: string, d: Decimal)
    requires |s| > 0 && s[0] == '-' && ParseUnsigned(s[1..]) == Some(d)
    ensures ParseSigned(s) == Some(Decimal(-d.mantissa, d.scale))
  {
  }

  /** Text with no surrounding space and no sign fails when some character is neither a digit nor a point. */
  lemma StrayCharacterFails(t: string, k: nat)
    requires Text.TrimmedIn(Text.FloatSpaces, t) && |t| > 0 && t[0] != '+' && t[0] != '-'
    requires k < |t| && !IsDigit(t[k]) && t[k] != '.'
    ensures ParseFloat(t) == None
  {
    Text.StripTrimmed(Text.FloatSpaces, t);
    UnsignedText(t);
    if '.' in t {
      var i := IndexOf(t, '.');
      if k < i {
        assert t[..i][k] == t[k];
      } else {
        assert t[i + 1..][k - i - 1] == t[k];
      }
    }
  }

  /** Text made of an optional sign, then digits and points only. */
  predicate NumberShape(t: string) {
    && |t| > 0
    && forall k :: 0 <= k < |t| ==> IsDigit(t[k]) || t[k] == '.' || (k == 0 && (t[k] == '+' || t[k] == '-'))
  }

  /** `float` gives a negative value only for text holding a minus sign. */
  lemma NegativeHasMinus(c: string)
    requires ParseFloat(c).Some? && ParseFloat(c).value.mantissa < 0
    ensures '-' in c
  {
    Text.StripSlice(Text.FloatSpaces, c);
    var i, j :| 0 <= i <= j <= |c| && Text.StripIn(Text.FloatSpaces, c) == c[i..j];
    assert c[i] == '-';
  }

  /** What the sign-aware parser accepts has the shape of a number, and only a leading minus makes it negative. */
  lemma SignedShape(t: string)
    ensures ParseSigned(t).Some? ==> NumberShape(t)
    ensures ParseSigned(t).Some? && ParseSigned(t).value.mantissa < 0 ==> t[0] == '-'
  {
    if |t| > 0 && (t[0] == '+' || t[0] == '-') {
      UnsignedShape(t[1..]);
    } else {
      UnsignedShape(t);
    }
  }

  lemma UnsignedShape(t: string)
    ensures ParseUnsigned(t).Some? ==> |t| > 0 && forall k :: 0 <= k < |t| ==> IsDigit(t[k]) || t[k] == '.'
    ensures ParseUnsigned(t).Some? ==> ParseUnsigned(t).value.mantissa >= 0
  {
    if '.' in t && ParseUnsigned(t).Some? {
      var i := IndexOf(t, '.');
      forall k | 0 <= k < |t| ensures IsDigit(t[k]) || t[k] == '.' {
        if k < i {
          assert t[k] == t[..i][k];
        } else if k > i {
          assert t[k] == t[i + 1..][k - i - 1];
        }
      }
    }
  }

  /**
   * `float(s)`: `None` stands for the `ValueError` Python raises. What it
   * accepts is, once stripped, a sign and digits and points only, and it is
   * negative only when written with a minus.
   */
  function ParseFloat(s: string): (r: Option<Decimal>)
    ensures r.Some? ==> NumberShape(Text.StripIn(Text.FloatSpaces, s))
    ensures r.Some? && r.value.mantissa < 0 ==> Text.StripIn(Text.FloatSpaces, s)[0] == '-'
  {
    var t := Text.StripIn(Text.FloatSpaces, s);
    SignedShape(t);
    ParseSigned(t)
  }

  /**
   * The information separators U+001C to U+001F are `isspace` characters, so
   * `strip()` removes them, but `float` does not strip them and fails on them.
   */
  lemma SeparatorNotStripped(c: char, t: string)
    requires '\U{1C}' <= c <= '\U{1F}' && |t| > 0 && AllDigits(t)
    ensures Text.Strip([c] + t) == t
    ensures ParseFloat([c] + t) == None
  {
    var s := [c] + t;
    assert s[1..] == t;
    assert IsDigit(s[1]) && IsDigit(s[|s| - 1]);
    assert Text.SkipSpaces(Text.StrSpaces, s, 0) == 1 by {
      assert Text.SkipSpaces(Text.StrSpaces, s, 0) == Text.SkipSpaces(Text.StrSpaces, s, 1);
    }
    assert Text.BackSpaces(Text.StrSpaces, s, 1, |s|) == |s|;
    assert Text.TrimmedIn(Text.FloatSpaces, s);
    Text.StripTrimmed(Text.FloatSpaces, s);
    StrayCharacterFails(s, 0);
  }

  function DigitChar(d: nat): (c: char)
    requires d < 10
    ensures IsDigit(c) && c as int - '0' as int == d
  {
    ('0' as int + d) as char
  }

  /** The shortest digit string of `n`. */
  function NatDigits(n: nat): (ds: string)
    ensures |ds| > 0 && AllDigits(ds) && DigitsValue(ds) == n
  {
    if n < 10 then [DigitChar(n)]
    else
      var ds := NatDigits(n / 10) + [DigitChar(n % 10)];
      assert ds[..|ds| - 1] == NatDigits(n / 10);
      ds
  }

  function Zeros(k: nat): (z: string)
    ensures |z| == k && AllDigits(z)
  {
    seq(k, _ => '0')
  }

  /** Leading zeros do not change the value of a digit string. */
  lemma {:induction false} LeadingZeros(k: nat, ds: string)
    requires AllDigits(ds)
    ensures AllDigits(Zeros(k) + ds) && DigitsValue(Zeros(k) + ds) == DigitsValue(ds)
    decreases |ds|
  {
    var s := Zeros(k) + ds;
    assert AllDigits(s) by {
      forall i | 0 <= i < |s| ensures IsDigit(s[i]) {
        if i >= k { assert s[i] == ds[i - k]; }
      }
    }
    if ds == [] {
      assert s == Zeros(k);
      ZerosValue(k);
    } else {
      assert s[..|s| - 1] == Zeros(k) + ds[..|ds| - 1];
      LeadingZeros(k, ds[..|ds| - 1]);
    }
  }

  lemma {:induction false} ZerosValue(k: nat)
    ensures DigitsValue(Zeros(k)) == 0
  {
    if k > 0 {
      assert Zeros(k)[..k - 1] == Zeros(k - 1);
      ZerosValue(k - 1);
    }
  }

  /** The digits of `|mantissa|`, left-padded so that there is at least one digit before the point. */
  function Padded(d: Decimal): (ds: string)
    ensures |ds| > d.scale && AllDigits(ds)
    ensures DigitsValue(ds) == if d.mantissa < 0 then -d.mantissa else d.mantissa
  {
    var m: nat := if d.mantissa < 0 then -d.mantissa else d.mantissa;
    var ds := NatDigits(m);
    if |ds| <= d.scale then
      LeadingZeros(d.scale + 1 - |ds|, ds);
      Zeros(d.scale + 1 - |ds|) + ds
    else ds
  }

  /** The canonical text of a decimal: sign, integer digits, and `scale` fraction digits. */
  function Show(d: Decimal): string {
    (if d.mantissa < 0 then "-" else "") + Body(Padded(d), d.scale)
  }

  /** The unsigned text `Show` writes: the digits, with a point before the last `scale` of them. */
  function Body(ds: string, scale: nat): string
    requires |ds| > scale
  {
    if scale == 0 then ds else ds[..|ds| - scale] + "." + ds[|ds| - scale..]
  }

  lemma NoPointInDigits(ds: string)
    requires AllDigits(ds)
    ensures '.' !in ds
  {
  }

  lemma BodyParses(ds: string, scale: nat)
    requires |ds| > scale && AllDigits(ds)
    ensures ParseUnsigned(Body(ds, scale)).Some?
    ensures ParseUnsigned(Body(ds, scale)).value == Decimal(DigitsValue(ds), scale)
  {
    var body := Body(ds, scale);
    if scale == 0 {
      assert body == ds;
      UnsignedDigits(ds);
    } else {
      var cut := |ds| - scale;
      assert body == ds[..cut] + "." + ds[cut..];
      PointedParses(ds, cut);
    }
  }

  /** Digits with a point at `cut` read as their value, scaled by the number of digits after the point. */
  lemma PointedParses(ds: string, cut: nat)
    requires 0 < cut < |ds| && AllDigits(ds)
    ensures ParseUnsigned(ds[..cut] + "." + ds[cut..]).Some?
    ensures ParseUnsigned(ds[..cut] + "." + ds[cut..]).value == Decimal(DigitsValue(ds), |ds| - cut)
  {
    var whole, frac := ds[..cut], ds[cut..];
    var body := whole + "." + frac;
    assert AllDigits(whole) && AllDigits(frac);
    NoPointInDigits(whole);
    assert body[..cut] == whole;
    assert body[cut + 1..] == frac;
    CutJoin(ds, cut);
    UnsignedAt(body, cut);
  }

  /** A text with its first point at `i` and only digits around it reads as those digits. */
  lemma UnsignedAt(t: string, i: nat)
    requires i < |t| && t[i] == '.' && '.' !in t[..i] && |t| > 1
    requires AllDigits(t[..i]) && AllDigits(t[i + 1..])
    ensures ParseUnsigned(t).Some?
    ensures ParseUnsigned(t).value == Decimal(DigitsValue(t[..i] + t[i + 1..]), |t| - i - 1)
  {
    IndexOfUnique(t, '.', i);
  }

  lemma CutJoin(s: string, i: nat)
    requires i <= |s|
    ensures s[..i] + s[i..] == s
  {
  }

  lemma IndexOfUnique(s: string, c: char, i: nat)
    requires i < |s| && s[i] == c && c !in s[..i]
    ensures IndexOf(s, c) == i
  {
  }

  lemma ShowTrimmed(d: Decimal)
    ensures Text.Trimmed(Show(d))
  {
    var ds := Padded(d);
    var text := Show(d);
    assert text[|text| - 1] == ds[|ds| - 1];
    assert text[0] == if d.mantissa < 0 then '-' else ds[0];
  }

  /** Round trip: reading the canonical text back gives the same decimal, scale included. */
  lemma ParseShow(d: Decimal)
    ensures ParseFloat(Show(d)) == Some(d)
  {
    ShowTrimmed(d);
    Text.TrimmedForFloat(Show(d));
    Text.StripTrimmed(Text.FloatSpaces, Show(d));
    SignedShow(d);
  }

  lemma SignedShow(d: Decimal)
    ensures ParseSigned(Show(d)) == Some(d)
  {
    var ds := Padded(d);
    var body := Body(ds, d.scale);
    BodyParses(ds, d.scale);
    if d.mantissa < 0 {
      assert Show(d)[1..] == body;
    } else {
      assert Show(d) == body;
    }
  }
}

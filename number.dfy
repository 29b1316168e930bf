/**
 * `parse_number`: keep only the digits and decimal points of a text, then
 * read what is left as a number.
 */
module Number {
  import opened Wrappers
  import opened Decimals
  import Text

  /** The characters the filter keeps: the complement of the pattern `[^\d.]`. */
  predicate Kept(c: char) {
    IsDigit(c) || c == '.'
  }

  predicate AllKept(s: string) {
    forall k :: 0 <= k < |s| ==> Kept(s[k])
  }

  predicate HasDigit(s: string) {
    exists k :: 0 <= k < |s| && IsDigit(s[k])
  }

  /** The regular-expression substitution: every character outside `[\d.]` is deleted. */
  function KeepNumeric(s: string): (r: string)
    ensures AllKept(r)
    ensures |r| <= |s|
  {
    if s == [] then []
    else (if Kept(s[0]) then [s[0]] else []) + KeepNumeric(s[1..])
  }

  /** The filter works character by character: it distributes over concatenation. */
  lemma {:induction false} KeepNumericConcat(a: string, b: string)
    ensures KeepNumeric(a + b) == KeepNumeric(a) + KeepNumeric(b)
    decreases |a|
  {
    if a != [] {
      assert (a + b)[1..] == a[1..] + b;
      KeepNumericConcat(a[1..], b);
    } else {
      assert a + b == b;
    }
  }

  /** Every digit and point survives as often as it occurs; nothing else survives. */
  lemma {:induction false} KeepNumericCounts(s: string, c: char)
    ensures multiset(KeepNumeric(s))[c] == if Kept(c) then multiset(s)[c] else 0
    decreases |s|
  {
    if s != [] {
      KeepNumericCounts(s[1..], c);
      assert s == [s[0]] + s[1..];
    }
  }

  /** Text made only of digits and points passes through unchanged. */
  lemma {:induction false} KeepNumericOnKept(s: string)
    requires AllKept(s)
    ensures KeepNumeric(s) == s
    decreases |s|
  {
    if s != [] {
      KeepNumericOnKept(s[1..]);
      assert s == [s[0]] + s[1..];
    }
  }

  /** Filtering the filter's own output changes nothing. */
  lemma KeepNumericIdempotent(s: string)
    ensures KeepNumeric(KeepNumeric(s)) == KeepNumeric(s)
  {
    KeepNumericOnKept(KeepNumeric(s));
  }

  lemma KeptTrimmed(t: string)
    requires AllKept(t)
    ensures Text.StripIn(Text.FloatSpaces, t) == t
  {
    if |t| > 0 { assert Kept(t[0]) && Kept(t[|t| - 1]); }
    Text.StripTrimmed(Text.FloatSpaces, t);
  }

  /** `parse_number`: `None` stands for the `ValueError` raised by `float`. Signs are filtered out, so the result is never negative. */
  function ParseNumber(s: string): (r: Option<Decimal>)
    ensures r.Some? ==> r.value.mantissa >= 0
  {
    var t := KeepNumeric(s);
    KeptTrimmed(t);
    assert |t| > 0 ==> Kept(t[0]);
    UnsignedText(t);
    ParseFloat(t)
  }

  /** A string of digits and points reads as a number exactly when it has a digit and at most one point. */
  lemma ParseKept(t: string)
    requires AllKept(t)
    ensures ParseUnsigned(t).Some? <==> HasDigit(t) && multiset(t)['.'] <= 1
  {
    if '.' in t {
      var i := IndexOf(t, '.');
      var whole, frac := t[..i], t[i + 1..];
      assert t == whole + ['.'] + frac;
      assert multiset(t)['.'] == multiset(whole)['.'] + 1 + multiset(frac)['.'];
      assert AllDigits(whole);
      assert AllDigits(frac) <==> '.' !in frac;
      if AllDigits(frac) {
        assert HasDigit(t) <==> |whole| + |frac| > 0 by {
          if |whole| > 0 { assert IsDigit(t[0]); }
          if |frac| > 0 { assert IsDigit(t[i + 1]); }
          if HasDigit(t) {
            var k :| 0 <= k < |t| && IsDigit(t[k]);
            assert k != i;
          }
        }
      }
    } else {
      assert AllDigits(t);
      if |t| > 0 { assert IsDigit(t[0]); }
    }
  }

  /** `parse_number` fails exactly when the filtered text has no digit or more than one point. */
  lemma ParseNumberFails(s: string)
    ensures ParseNumber(s).None? <==> !HasDigit(KeepNumeric(s)) || multiset(KeepNumeric(s))['.'] > 1
  {
    var t := KeepNumeric(s);
    KeptTrimmed(t);
    assert |t| > 0 ==> Kept(t[0]);
    UnsignedText(t);
    ParseKept(t);
  }

  /** A digit-and-point text with one point reads as its digits scaled by the fraction length. */
  lemma ParseKeptWithPoint(t: string, i: nat)
    requires AllKept(t) && i < |t| && t[i] == '.'
    requires AllDigits(t[..i]) && AllDigits(t[i + 1..]) && |t| > 1
    ensures ParseNumber(t) == Some(Decimal(DigitsValue(t[..i] + t[i + 1..]), |t| - i - 1))
  {
    KeepNumericOnKept(t);
    KeptTrimmed(t);
    assert Kept(t[0]);
    UnsignedText(t);
    assert '.' !in t[..i];
    assert IndexOf(t, '.') == i;
  }

  /** Thousands separators and currency glyphs are dropped: `"₹1,299.00"` reads as 1299.00. */
  lemma RupeeWithSeparator()
    ensures ParseNumber("₹1,299.00") == Some(Decimal(129900, 2))
  {
    RupeeFiltered();
    FilteredRupeeParses();
    RupeeDigits();
    KeepNumericOnKept("1299.00");
    SameFilterSameNumber("₹1,299.00", "1299.00");
  }

  /** `parse_number` sees only what the filter keeps. */
  lemma SameFilterSameNumber(s: string, t: string)
    requires KeepNumeric(s) == KeepNumeric(t)
    ensures ParseNumber(s) == ParseNumber(t)
  {
  }

  lemma FilteredRupeeParses()
    ensures ParseNumber("1299.00") == Some(Decimal(DigitsValue("129900"), 2))
  {
    var t := "1299.00";
    assert t[..4] == "1299" && t[5..] == "00";
    ParseKeptWithPoint(t, 4);
    RupeeDigits();
  }

  /** One step of the filter. */
  lemma KeepNumericCons(c: char, s: string)
    ensures KeepNumeric([c] + s) == (if Kept(c) then [c] else []) + KeepNumeric(s)
  {
    assert ([c] + s)[1..] == s;
  }

  lemma RupeeFiltered()
    ensures KeepNumeric("₹1,299.00") == "1299.00"
  {
    assert "₹1,299.00" == ['₹'] + "1" + [','] + "299.00";
    assert AllKept("1") && AllKept("299.00");
    DropsUnkept('₹', "1", ',', "299.00");
  }

  /** A glyph before a number and a separator inside it are both dropped. */
  lemma DropsUnkept(c: char, a: string, d: char, b: string)
    requires !Kept(c) && !Kept(d) && AllKept(a) && AllKept(b)
    ensures KeepNumeric([c] + a + [d] + b) == a + b
  {
    var x := [c] + a;
    var y := x + [d];
    assert KeepNumeric([c]) == [] by { assert [c][1..] == []; }
    assert KeepNumeric([d]) == [] by { assert [d][1..] == []; }
    KeepNumericOnKept(a);
    KeepNumericOnKept(b);
    KeepNumericConcat([c], a);
    assert KeepNumeric(x) == a;
    KeepNumericConcat(x, [d]);
    assert KeepNumeric(y) == a;
    KeepNumericConcat(y, b);
  }

  lemma RupeeDigits()
    ensures "1299.00"[..4] + "1299.00"[5..] == "129900"
    ensures DigitsValue("129900") == 129900
  {
    assert "129900"[..5] == "12990";
    assert "12990"[..4] == "1299";
    assert "1299"[..3] == "129";
    assert "129"[..2] == "12";
    assert "12"[..1] == "1";
    assert "1"[..0] == "";
  }

  /** Inputs that leave no digit, or more than one point, fail. */
  lemma MalformedNumbers()
    ensures ParseNumber("") == None
    ensures ParseNumber(".") == None
    ensures ParseNumber("1.2.3") == None
  {
    NoDigitFails(".");
    NoDigitFails("");
    TwoPointsFail();
  }

  lemma NoDigitFails(t: string)
    requires forall k :: 0 <= k < |t| ==> t[k] == '.'
    ensures ParseNumber(t) == None
  {
    KeepNumericOnKept(t);
    ParseNumberFails(t);
  }

  lemma TwoPointsFail()
    ensures ParseNumber("1.2.3") == None
  {
    var t := "1.2.3";
    assert multiset(t)['.'] > 1 by {
      assert t == "1." + ['2'] + ".3";
    }
    assert KeepNumeric(t) == t by {
      KeepNumericOnKept(t);
    }
    ParseNumberFails(t);
  }
}

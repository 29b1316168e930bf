/** `parse_price`: delete the word "Price", the rupee glyph and spaces, then convert with `float`. */
module PriceText {
  import opened Wrappers
  import opened Text
  import opened Decimals
  import opened Models

  /** The text `float` receives: `"Price"`, then `"₹"`, then `" "` deleted, in that order. */
  function CleanPriceText(s: string): (r: string)
    ensures '₹' !in r && ' ' !in r
    ensures !Contains(s, "Price") && '₹' !in s && ' ' !in s ==> r == s
    ensures forall d :: d !in "Price₹ " ==> multiset(r)[d] == multiset(s)[d]
  {
    var a := Replace(s, "Price", "");
    var b := Replace(a, "₹", "");
    var c := Replace(b, " ", "");
    DeleteChar(a, '₹', ' ');
    DeleteChar(b, ' ', '₹');
    NothingToClean(s);
    OthersKept(s);
    c
  }

  /** Every character outside the three patterns keeps its count through the cleaning. */
  lemma OthersKept(s: string)
    ensures forall d :: d !in "Price₹ " ==>
              multiset(Replace(Replace(Replace(s, "Price", ""), "₹", ""), " ", ""))[d] == multiset(s)[d]
  {
    var a := Replace(s, "Price", "");
    var b := Replace(a, "₹", "");
    forall d | d !in "Price₹ "
      ensures multiset(Replace(b, " ", ""))[d] == multiset(s)[d]
    {
      DeletePattern(s, "Price", d);
      DeleteChar(a, '₹', d);
      DeleteChar(b, ' ', d);
    }
  }

  lemma NothingToClean(s: string)
    ensures !Contains(s, "Price") && '₹' !in s && ' ' !in s ==>
              Replace(Replace(Replace(s, "Price", ""), "₹", ""), " ", "") == s
  {
    if !Contains(s, "Price") && '₹' !in s && ' ' !in s {
      ReplaceAbsent(s, "Price", "");
      ContainsChar(s, '₹');
      ReplaceAbsent(s, "₹", "");
      ContainsChar(s, ' ');
      ReplaceAbsent(s, " ", "");
    }
  }

  /** `parse_price`: the cleaned text as a number, or the `ValueError` `float` raises on it. */
  function ParsePrice(s: string): (r: Result<Decimal, ScrapeError>)
    ensures r.Success? <==> ParseFloat(CleanPriceText(s)).Some?
    ensures r.Failure? ==> r.error.NotANumber? && '₹' !in r.error.text && ' ' !in r.error.text
    ensures r.Success? && r.value.mantissa < 0 ==> '-' in s
  {
    var cleaned := CleanPriceText(s);
    MinusNeeded(s);
    match ParseFloat(cleaned)
    case Some(d) => Success(d)
    case None => Failure(NotANumber(cleaned))
  }

  /** A negative price needs a minus sign in the raw text: cleaning never makes one. */
  lemma MinusNeeded(s: string)
    ensures ParseFloat(CleanPriceText(s)).Some? && ParseFloat(CleanPriceText(s)).value.mantissa < 0 ==> '-' in s
  {
    var c := CleanPriceText(s);
    if ParseFloat(c).Some? && ParseFloat(c).value.mantissa < 0 {
      NegativeHasMinus(c);
      assert '-' !in "Price₹ ";
      assert multiset(c)['-'] == multiset(s)['-'];
    }
  }

  /** The canonical text of any decimal reads back as that decimal. */
  lemma ParsePriceShow(d: Decimal)
    ensures ParsePrice(Show(d)) == Success(d)
  {
    var t := Show(d);
    ShowPlain(d);
    MissingHead(t, "Price");
    ParseShow(d);
  }

  lemma DigitsExclude(ds: string, c: char)
    requires AllDigits(ds) && !IsDigit(c)
    ensures c !in ds
  {
  }

  /** The canonical text is a sign, digits and at most one point. */
  lemma ShowPlain(d: Decimal)
    ensures 'P' !in Show(d) && '₹' !in Show(d) && ' ' !in Show(d)
  {
    ShowChars(d);
  }

  lemma ShowChars(d: Decimal)
    ensures forall c :: c in Show(d) ==> IsDigit(c) || c == '.' || c == '-'
  {
    var ds := Padded(d);
    var cut := |ds| - d.scale;
    var body := Body(ds, d.scale);
    assert forall c :: c in body ==> IsDigit(c) || c == '.' by {
      if d.scale == 0 {
        assert body == ds[..cut];
      } else {
        assert body == ds[..cut] + ("." + ds[cut..]);
      }
    }
    assert Show(d) == (if d.mantissa < 0 then "-" else "") + body;
  }

  /** An amount written after the glyph and a space is read without them. */
  lemma GlyphSpaceCleaned(t: string)
    requires 'P' !in t && '₹' !in t && ' ' !in t
    ensures CleanPriceText("₹ " + t) == t
  {
    var s := "₹ " + t;
    assert s == ['₹'] + ([' '] + t);
    assert 'P' !in s;
    MissingHead(s, "Price");
    ReplaceAbsent(s, "Price", "");
    ReplaceHead("₹", [' '] + t, "");
    ReplaceSkip(' ', t, "₹", "");
    MissingHead(t, "₹");
    ReplaceAbsent(t, "₹", "");
    assert Replace(Replace(s, "Price", ""), "₹", "") == [' '] + t;
    ReplaceHead(" ", t, "");
    MissingHead(t, " ");
    ReplaceAbsent(t, " ", "");
  }

  /** An amount written right after the glyph is read without it. */
  lemma GlyphCleaned(t: string)
    requires 'P' !in t && '₹' !in t && ' ' !in t
    ensures CleanPriceText("₹" + t) == t
  {
    var s := "₹" + t;
    assert s == ['₹'] + t;
    assert 'P' !in s;
    MissingHead(s, "Price");
    ReplaceAbsent(s, "Price", "");
    ReplaceHead("₹", t, "");
    MissingHead(t, "₹");
    ReplaceAbsent(t, "₹", "");
    assert Replace(Replace(s, "Price", ""), "₹", "") == t;
    MissingHead(t, " ");
    ReplaceAbsent(t, " ", "");
  }

  /** An amount after the glyph and a space reads as its digits, as `"₹ 12995"` reads as 12995. */
  lemma RupeeSpaceAmount(digits: string)
    requires |digits| > 0 && AllDigits(digits)
    ensures ParsePrice("₹ " + digits) == Success(Decimal(DigitsValue(digits), 0))
  {
    DigitsExclude(digits, 'P');
    DigitsExclude(digits, '₹');
    DigitsExclude(digits, ' ');
    GlyphSpaceCleaned(digits);
    ParseDigits(digits);
  }

  /** A thousands separator survives the cleaning, so text such as `"₹12,995"` is not a number. */
  lemma RupeeCommaFails(whole: string, rest: string)
    requires |whole| > 0 && AllDigits(whole) && AllDigits(rest)
    ensures ParsePrice("₹" + whole + "," + rest) == Failure(NotANumber(whole + "," + rest))
  {
    var t := whole + "," + rest;
    assert "₹" + whole + "," + rest == "₹" + t;
    assert t[|whole|] == ',';
    forall k | 0 <= k < |t| ensures t[k] != 'P' && t[k] != '₹' && t[k] != ' ' {
      if k < |whole| { assert t[k] == whole[k]; }
      else if k > |whole| { assert t[k] == rest[k - |whole| - 1]; }
    }
    GlyphCleaned(t);
    assert IsDigit(t[0]);
    assert !IsSpace(t[|t| - 1]);
    StrayCharacterFails(t, |whole|);
  }

  /** A price written with an information separator, such as `"₹\x1c5"`, is cleaned to text `float` rejects. */
  lemma SeparatorPriceFails(c: char, digits: string)
    requires '\U{1C}' <= c <= '\U{1F}' && |digits| > 0 && AllDigits(digits)
    ensures ParsePrice("₹" + ([c] + digits)) == Failure(NotANumber([c] + digits))
  {
    var t := [c] + digits;
    forall k | 0 <= k < |t| ensures t[k] != 'P' && t[k] != '₹' && t[k] != ' ' {
      if k > 0 { assert t[k] == digits[k - 1]; }
    }
    GlyphCleaned(t);
    SeparatorNotStripped(c, digits);
  }

  /** The sign is not cleaned away, so `"-" + digits` is accepted as a negative price. */
  lemma NegativePriceAccepted(digits: string)
    requires |digits| > 0 && AllDigits(digits)
    ensures ParsePrice(['-'] + digits).Success?
    ensures ParsePrice(['-'] + digits).value == Decimal(-(DigitsValue(digits) as int), 0)
  {
    var s := ['-'] + digits;
    DigitsExclude(digits, 'P');
    DigitsExclude(digits, '₹');
    DigitsExclude(digits, ' ');
    MissingHead(s, "Price");
    NothingToClean(s);
    ParseNegative(digits);
  }
}

/**
 * Currency detection as the adapters run it: scan the symbol table in order
 * and return the code of the first entry one of whose symbols occurs in the
 * price text.
 */
module Currency {
  import opened Wrappers
  import opened Text
  import opened Constants

  /** Python's `any(symbol in text for symbol in symbols)`. */
  predicate Hit(symbols: seq<string>, text: string) {
    exists k :: 0 <= k < |symbols| && Contains(text, symbols[k])
  }

  /** The first code, in table order, that has a symbol occurring in `text`; `None` when no entry does. */
  function FirstMatch(table: seq<(string, seq<string>)>, text: string): (r: Option<string>)
    ensures r.None? <==> forall i :: 0 <= i < |table| ==> !Hit(table[i].1, text)
    ensures r.Some? ==> exists i ::
              && 0 <= i < |table| && table[i].0 == r.value && Hit(table[i].1, text)
              && (forall j :: 0 <= j < i ==> !Hit(table[j].1, text))
  {
    if table == [] then None
    else if Hit(table[0].1, text) then Some(table[0].0)
    else
      var r := FirstMatch(table[1..], text);
      assert forall i :: 1 <= i < |table| ==> table[i] == table[1..][i - 1];
      r
  }

  /** The inner `any(...)`: whether some symbol of the entry occurs in `text`. */
  method AnySymbol(symbols: seq<string>, text: string) returns (found: bool)
    ensures found == Hit(symbols, text)
  {
    found := false;
    var k := 0;
    while k < |symbols| && !found
      invariant 0 <= k <= |symbols|
      invariant found <==> exists m :: 0 <= m < k && Contains(text, symbols[m])
    {
      found := Contains(text, symbols[k]);
      k := k + 1;
    }
  }

  /** The loop of `extract_currency` over a symbol table, with the early return of its first hit. */
  method Detect(table: seq<(string, seq<string>)>, text: string) returns (code: Option<string>)
    ensures code == FirstMatch(table, text)
  {
    var i := 0;
    while i < |table|
      invariant 0 <= i <= |table|
      invariant FirstMatch(table[i..], text) == FirstMatch(table, text)
    {
      var (currency, symbols) := table[i];
      var found := AnySymbol(symbols, text);
      if found {
        return Some(currency);
      }
      assert table[i..][1..] == table[i + 1..];
      i := i + 1;
    }
    return None;
  }

  /** `extract_currency`'s scan of `currency_map`. */
  method DetectCurrency(text: string) returns (code: Option<string>)
    ensures code == FirstMatch(CurrencyMap, text)
  {
    code := Detect(CurrencyMap, text);
  }

  /** A text with the rupee glyph or the letters INR is always read as INR, whatever else it holds. */
  lemma RupeeWins(text: string)
    requires Contains(text, "₹") || Contains(text, "INR")
    ensures FirstMatch(CurrencyMap, text) == Some("INR")
  {
    assert Hit(CurrencyMap[0].1, text) by {
      if Contains(text, "₹") { assert Contains(text, CurrencyMap[0].1[0]); }
      else { assert Contains(text, CurrencyMap[0].1[1]); }
    }
  }

  /**
   * `"¥"` always yields a code, and never CNY: first match sends it to JPY,
   * unless a symbol of an earlier entry also occurs.
   */
  lemma YenNeverYuan(text: string)
    requires Contains(text, "¥")
    ensures FirstMatch(CurrencyMap, text).Some?
    ensures FirstMatch(CurrencyMap, text) != Some("CNY")
    ensures (forall j :: 0 <= j < 4 ==> !Hit(CurrencyMap[j].1, text)) ==> FirstMatch(CurrencyMap, text) == Some("JPY")
  {
    assert Hit(CurrencyMap[4].1, text) by {
      assert Contains(text, CurrencyMap[4].1[0]);
    }
    if forall j :: 0 <= j < 4 ==> !Hit(CurrencyMap[j].1, text) {
      var r := FirstMatch(CurrencyMap, text);
      var i :| 0 <= i < |CurrencyMap| && CurrencyMap[i].0 == r.value && Hit(CurrencyMap[i].1, text)
        && forall j :: 0 <= j < i ==> !Hit(CurrencyMap[j].1, text);
      assert i == 4;
    }
  }

  /** A yen price such as `"¥5"` reads as JPY: no symbol of an earlier entry can occur in it. */
  lemma YenAmount(t: string)
    requires forall k :: 0 <= k < |t| ==> YenChar(t[k])
    ensures FirstMatch(CurrencyMap, "¥" + t) == Some("JPY")
  {
    var s := "¥" + t;
    assert Contains(s, "¥") by { assert s[..1] == "¥"; }
    assert forall m :: 0 <= m < |s| ==> YenChar(s[m]) by {
      forall m | 0 <= m < |s| ensures YenChar(s[m]) {
        if m > 0 { assert s[m] == t[m - 1]; }
      }
    }
    EarlyHeads();
    forall j, k | 0 <= j < 4 && 0 <= k < |CurrencyMap[j].1| ensures !Contains(s, CurrencyMap[j].1[k]) {
      NoYenHead(s, CurrencyMap[j].1[k]);
    }
    YenNeverYuan(s);
  }

  /** The characters of a yen amount: the glyph, digits and points. */
  predicate YenChar(c: char) {
    c == '¥' || ('0' <= c <= '9') || c == '.'
  }

  /** No symbol of INR, USD, EUR or GBP starts with a character of a yen amount. */
  lemma EarlyHeads()
    ensures forall j, k :: 0 <= j < 4 && 0 <= k < |CurrencyMap[j].1| ==>
              |CurrencyMap[j].1[k]| > 0 && !YenChar(CurrencyMap[j].1[k][0])
  {
  }

  lemma NoYenHead(s: string, p: string)
    requires forall m :: 0 <= m < |s| ==> YenChar(s[m])
    requires |p| > 0 && !YenChar(p[0])
    ensures !Contains(s, p)
  {
    MissingHead(s, p);
  }

  /** CNY is reported only for text that spells out `"CNY"` and has no `"¥"`. */
  lemma YuanNeedsCode(text: string)
    requires FirstMatch(CurrencyMap, text) == Some("CNY")
    ensures Contains(text, "CNY") && !Contains(text, "¥")
  {
    var r := FirstMatch(CurrencyMap, text);
    var i :| 0 <= i < |CurrencyMap| && CurrencyMap[i].0 == r.value && Hit(CurrencyMap[i].1, text)
      && forall j :: 0 <= j < i ==> !Hit(CurrencyMap[j].1, text);
    assert i == 6;
    assert !Hit(CurrencyMap[4].1, text);
    assert !Contains(text, CurrencyMap[4].1[0]);
    var k :| 0 <= k < |CurrencyMap[6].1| && Contains(text, CurrencyMap[6].1[k]);
  }

  /** When exactly one entry has a symbol in the text, that entry's code is returned. */
  lemma {:induction false} SoleEntry(table: seq<(string, seq<string>)>, text: string, i: nat)
    requires i < |table| && Hit(table[i].1, text)
    requires forall j :: 0 <= j < |table| && j != i ==> !Hit(table[j].1, text)
    ensures FirstMatch(table, text) == Some(table[i].0)
  {
    if i > 0 {
      assert !Hit(table[0].1, text);
      SoleEntry(table[1..], text, i - 1);
    }
  }
}

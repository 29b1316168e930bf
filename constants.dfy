/** The static data of the scraper. */
module Constants {

  /**
   * `currency_map`: ISO code to the symbols that identify it in price text,
   * in declaration order, which is the order detection scans it in.
   */
  const CurrencyMap: seq<(string, seq<string>)> := [
    ("INR", ["₹", "INR"]),
    ("USD", ["$", "USD"]),
    ("EUR", ["€", "EUR"]),
    ("GBP", ["£", "GBP"]),
    ("JPY", ["¥", "JPY"]),
    ("KRW", ["₩", "KRW"]),
    ("CNY", ["¥", "CNY"])
  ]

  /** The codes of the table, in order. */
  function Codes(table: seq<(string, seq<string>)>): (codes: seq<string>)
    ensures |codes| == |table|
    ensures forall i :: 0 <= i < |table| ==> codes[i] == table[i].0
  {
    seq(|table|, i requires 0 <= i < |table| => table[i].0)
  }

  /** The table is scanned INR, USD, EUR, GBP, JPY, KRW, CNY. */
  lemma TableOrder()
    ensures Codes(CurrencyMap) == ["INR", "USD", "EUR", "GBP", "JPY", "KRW", "CNY"]
  {
  }

  /** Each code's own three-letter name is one of its symbols. */
  lemma CodeIsOwnSymbol()
    ensures forall i :: 0 <= i < |CurrencyMap| ==> |CurrencyMap[i].0| == 3 && CurrencyMap[i].0 in CurrencyMap[i].1
  {
  }

  /** Apart from `"¥"`, which JPY and CNY share, no symbol is listed under two codes. */
  lemma SymbolsDisjointExceptYen()
    ensures forall i, j, s :: 0 <= i < j < |CurrencyMap| && s in CurrencyMap[i].1 && s in CurrencyMap[j].1 ==> s == "¥"
    ensures "¥" in CurrencyMap[4].1 && "¥" in CurrencyMap[6].1
  {
  }
}

/** The external data providers, as pure functions. Each field stands for
    one wrapper function of BACK.py with the network call inside it; every
    failure those wrappers catch is already folded into the result. */
module Oracles {
  import opened Options
  import opened Symbols

  /** A closing price; the model never computes with prices. */
  type Price = real

  /** A trading-day label ("YYYY-MM-DD"); treated as opaque text. */
  type Label = string

  /** A price history: closing prices and their date labels. */
  datatype PriceSeries = PriceSeries(prices: seq<Price>, labels: seq<Label>)

  datatype Providers = Providers(
    /** `wikipedia.search(name)`: the ranked page titles, or the exception. */
    pageSearch: string -> Fetch<seq<string>>,
    /** `wikipedia.summary(title, sentences=2)`, or the exception. */
    pageSummary: string -> Fetch<string>,
    /** The `bestMatches` list of a SYMBOL_SEARCH request for a keyword;
        `None` when the key is absent or the request or decoding failed. */
    symbolSearch: string -> Option<seq<Match>>,
    /** `fetch_stock_price(ticker)` (BACK.py:33-41); `None` stands for its
        `(None, None)`. */
    priceHistory: string -> Option<PriceSeries>,
    /** `get_stock_price_for_competitor(ticker)` (BACK.py:70-78). */
    competitorHistory: string -> Option<PriceSeries>,
    /** `fetch_market_cap(ticker)` (BACK.py:62-68). */
    marketCap: string -> Option<int>,
    /** The text of the first candidate of the generative-text reply to the
        competitor prompt built from the given (already truncated)
        description, or `None` when the call or the reply access failed. */
    generate: string -> Option<string>)

  /** `get_ticker_from_alpha_vantage(name)` (BACK.py:44-60). */
  function Resolve(p: Providers, name: string): (r: Option<string>)
    ensures p.symbolSearch(name).None? ==> r.None?
    ensures p.symbolSearch(name).Some? ==>
              forall i :: IsFirstTargetMatch(p.symbolSearch(name).value, i) ==> r == p.symbolSearch(name).value[i].symbol
    ensures p.symbolSearch(name).Some? && (forall i :: !IsFirstTargetMatch(p.symbolSearch(name).value, i)) ==> r.None?
  {
    SelectTicker(p.symbolSearch(name))
  }
}

/** Ticker selection from a symbol-search response (BACK.py:54-58): the
    symbol of the first match whose region is "United States". */
module Symbols {
  import opened Options

  /** One entry of `bestMatches`: the values stored under the keys
      "1. symbol" and "4. region", each `None` when the key is missing. */
  datatype Match = Match(symbol: Option<string>, region: Option<string>)

  /** The only region whose listings are accepted. */
  const TargetRegion: string := "United States"

  /** `matches[i]` is the match the scan stops at: it is in the target
      region, and every earlier match has a region key with another value
      (a missing key would have raised `KeyError` earlier). */
  predicate IsFirstTargetMatch(matches: seq<Match>, i: int) {
    && 0 <= i < |matches|
    && matches[i].region == Some(TargetRegion)
    && forall j :: 0 <= j < i ==> matches[j].region.Some? && matches[j].region.value != TargetRegion
  }

  /** The loop at BACK.py:55-57. A match without a region key raises
      `KeyError`, and so does a selected match without a symbol key; the
      handler at BACK.py:59-60 turns both into `None`. */
  function FirstTargetSymbol(matches: seq<Match>): (r: Option<string>)
    ensures forall i :: IsFirstTargetMatch(matches, i) ==> r == matches[i].symbol
    ensures (forall i :: !IsFirstTargetMatch(matches, i)) ==> r == None
    decreases |matches|
  {
    if |matches| == 0 then None
    else match matches[0].region
      case None => None
      case Some(region) =>
        if region == TargetRegion then
          assert IsFirstTargetMatch(matches, 0);
          matches[0].symbol
        else
          var r := FirstTargetSymbol(matches[1..]);
          assert forall i :: IsFirstTargetMatch(matches, i) ==> i > 0 && IsFirstTargetMatch(matches[1..], i - 1);
          assert forall i :: IsFirstTargetMatch(matches[1..], i) ==> IsFirstTargetMatch(matches, i + 1);
          r
  }

  /** `get_ticker_from_alpha_vantage` after the request: `bestMatches` is
      `None` when the key is absent or the request or decoding failed. */
  function SelectTicker(bestMatches: Option<seq<Match>>): (r: Option<string>)
    ensures bestMatches.None? ==> r.None?
    ensures r.Some? ==> exists i :: 0 <= i < |bestMatches.value|
                                    && bestMatches.value[i].region == Some(TargetRegion)
                                    && bestMatches.value[i].symbol == r
  {
    match bestMatches
    case None => None
    case Some(matches) => FirstTargetSymbol(matches)
  }

  /** Python truthiness of the returned ticker: `None` and "" are both false. */
  predicate IsTruthy(ticker: Option<string>) {
    ticker.Some? && ticker.value != ""
  }

  /** When every match carries a region key and exactly one of them is in the
      target region, that match's symbol is returned, wherever it stands. */
  lemma {:induction false} UniqueTargetMatchWins(matches: seq<Match>, i: int)
    requires 0 <= i < |matches|
    requires forall j :: 0 <= j < |matches| ==> matches[j].region.Some?
    requires matches[i].region == Some(TargetRegion)
    requires forall j :: 0 <= j < |matches| && j != i ==> matches[j].region != Some(TargetRegion)
    ensures SelectTicker(Some(matches)) == matches[i].symbol
  {
    assert IsFirstTargetMatch(matches, i);
  }

  /** No match in the target region, or a response without `bestMatches`,
      gives no ticker. */
  lemma NoTargetMatchNoTicker(matches: seq<Match>)
    requires forall j :: 0 <= j < |matches| ==> matches[j].region != Some(TargetRegion)
    ensures SelectTicker(Some(matches)) == None
    ensures SelectTicker(None) == None
  {
  }
}

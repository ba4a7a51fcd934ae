/** The decision logic of `analyze_company` (BACK.py:137-169): four
    fail-fast checks in a fixed order, a placeholder when no sector comes
    back, and the ranking of every competitor of every sector. */
module Pipeline {
  import opened Options
  import opened Text
  import opened Symbols
  import opened Oracles
  import opened Sectors
  import opened Ranking

  /** The four ways a request is refused, in the order they are checked. */
  datatype Error = NoName | NoDescription | NoTicker | NoPrices

  /** The `"error"` text of each refusal (BACK.py:140, 144, 148, 152). */
  function Message(e: Error): string {
    match e
    case NoName => "No company name provided."
    case NoDescription => "Could not find company description."
    case NoTicker => "Could not find ticker symbol."
    case NoPrices => "Could not fetch stock prices."
  }

  /** The texts tell the refusals apart. */
  lemma MessageIdentifiesError(e1: Error, e2: Error)
    ensures Message(e1) == Message(e2) <==> e1 == e2
  {
    if e1 != e2 {
      assert |Message(e1)| != |Message(e2)| || Message(e1)[0] != Message(e2)[0] || Message(e1)[15] != Message(e2)[15];
    }
  }

  /** The messages `fetch_wikipedia_summary` returns in place of a summary. */
  const LookupErrorPrefix: string := "Error fetching Wikipedia summary: "
  const NoPageMessage: string := "No Wikipedia page found for the given company."

  /** How much of the description goes into the prompt (BACK.py:108). */
  const PromptDescriptionLimit: nat := 500

  /** The sector list used when no sector was obtained (BACK.py:156). */
  const PlaceholderCompetitor: string := "No competitors found."
  const PlaceholderSectors: seq<Sector> := [Sector("No Sectors", [PlaceholderCompetitor])]

  /** The pair `fetch_wikipedia_summary` returns: a page title, and either
      the page summary or a message saying why there is none. */
  datatype Summary = Summary(title: Option<string>, text: string)

  /** The JSON answer of `/analyze_company`, success or failure. */
  datatype Response =
    | Failure(error: Error)
    | Success(description: string, ticker: string, history: PriceSeries,
              sectors: seq<Sector>, top: seq<Record>)

  /** `fetch_wikipedia_summary(name)` (BACK.py:22-31). A title is returned
      exactly when both calls succeed on a non-empty search; otherwise the
      text is a non-empty message, so an empty text can only be a genuinely
      empty page summary. */
  function FetchSummary(p: Providers, name: string): (r: Summary)
    ensures r.title.Some? <==>
              p.pageSearch(name).Fetched? && |p.pageSearch(name).value| > 0
              && p.pageSummary(p.pageSearch(name).value[0]).Fetched?
    ensures r.title.Some? ==>
              r.title.value == p.pageSearch(name).value[0]
              && p.pageSummary(r.title.value) == Fetched(r.text)
    ensures r.title.None? ==> r.text != ""
  {
    match p.pageSearch(name)
    case Raised(detail) => Summary(None, LookupErrorPrefix + detail)
    case Fetched(titles) =>
      if |titles| > 0 then
        match p.pageSummary(titles[0])
        case Raised(detail) => Summary(None, LookupErrorPrefix + detail)
        case Fetched(text) => Summary(Some(titles[0]), text)
      else
        Summary(None, NoPageMessage)
  }

  /** `description[:500]`. */
  function PromptDescription(description: string): (r: string)
    ensures |r| <= PromptDescriptionLimit
    ensures r <= description
    ensures |description| <= PromptDescriptionLimit ==> r == description
    ensures |description| > PromptDescriptionLimit ==> |r| == PromptDescriptionLimit
  {
    if |description| <= PromptDescriptionLimit then description
    else description[..PromptDescriptionLimit]
  }

  /** `query_gemini_llm(description)` (BACK.py:104-130): `None` exactly when
      the generation failed; otherwise the well-formed sectors parsed from
      the reply. */
  function QueryCompetitors(p: Providers, description: string): (r: Option<seq<Sector>>)
    ensures r.None? <==> p.generate(PromptDescription(description)).None?
    ensures r.Some? ==> r.value == ParseSectors(p.generate(PromptDescription(description)).value)
    ensures r.Some? ==> forall k :: 0 <= k < |r.value| ==> IsWellFormed(r.value[k])
  {
    match p.generate(PromptDescription(description))
    case None => None
    case Some(content) => Some(ParseSectors(content))
  }

  /** BACK.py:154-156: the sectors obtained for the description, or the
      placeholder when the generation failed or produced no sector. Either
      way the list is non-empty and every sector names a competitor. */
  function ChosenSectors(p: Providers, description: string): (r: seq<Sector>)
    ensures r != []
    ensures forall k :: 0 <= k < |r| ==> |r[k].competitors| >= 1
    ensures r == PlaceholderSectors || forall k :: 0 <= k < |r| ==> IsWellFormed(r[k])
    ensures p.generate(PromptDescription(description)).None? ==> r == PlaceholderSectors
    ensures p.generate(PromptDescription(description)).Some? ==>
              r == (if ParseSectors(p.generate(PromptDescription(description)).value) == [] then PlaceholderSectors
                    else ParseSectors(p.generate(PromptDescription(description)).value))
  {
    match QueryCompetitors(p, description)
    case None => PlaceholderSectors
    case Some(found) => if found == [] then PlaceholderSectors else found
  }

  /** BACK.py:158: every competitor of every sector, in sector order. */
  function AllCompetitors(sectors: seq<Sector>): (r: seq<string>)
    ensures forall x :: x in r <==> exists k :: 0 <= k < |sectors| && x in sectors[k].competitors
    decreases |sectors|
  {
    if |sectors| == 0 then []
    else
      var rest := AllCompetitors(sectors[1..]);
      assert forall k :: 1 <= k < |sectors| ==> sectors[k] == sectors[1..][k - 1];
      assert forall k :: 0 <= k < |sectors[1..]| ==> sectors[1..][k] == sectors[k + 1];
      sectors[0].competitors + rest
  }

  /** Flattening is compositional, so sector order is competitor order. */
  lemma {:induction false} AllCompetitorsAppend(a: seq<Sector>, b: seq<Sector>)
    ensures AllCompetitors(a + b) == AllCompetitors(a) + AllCompetitors(b)
    decreases |a|
  {
    if |a| == 0 {
      assert a + b == b;
    } else {
      assert (a + b)[1..] == a[1..] + b;
      AllCompetitorsAppend(a[1..], b);
    }
  }

  /** `if not company_name` (BACK.py:139): absent or empty. */
  predicate HasName(companyName: Option<string>) {
    companyName.Some? && companyName.value != ""
  }

  /** `if not stock_prices or not time_labels` (BACK.py:151), negated. */
  predicate HasPrices(history: Option<PriceSeries>) {
    history.Some? && |history.value.prices| > 0 && |history.value.labels| > 0
  }

  /** BACK.py:155-169, once description, ticker and prices are in hand:
      the sectors obtained (or the placeholder) and the ranking of all
      their competitors. */
  function Report(p: Providers, order: SetOrder, description: string, ticker: string,
                  history: PriceSeries): (r: Response)
    ensures r.Success? && r.description == description && r.ticker == ticker && r.history == history
    ensures r.sectors == ChosenSectors(p, description)
    ensures r.top == TopCompetitors(p, order, AllCompetitors(r.sectors))
    ensures |r.top| <= TopCount
  {
    var sectors := ChosenSectors(p, description);
    Success(description, ticker, history, sectors, TopCompetitors(p, order, AllCompetitors(sectors)))
  }

  /** `analyze_company` (BACK.py:137-169), the request parameter given as
      `companyName`. The checks run in a fixed order, each reached only when
      all earlier ones passed, and a request that passes them all is
      answered by `Report`. */
  function Analyze(p: Providers, order: SetOrder, companyName: Option<string>): (r: Response)
    ensures r == Failure(NoName) <==> !HasName(companyName)
    ensures HasName(companyName) ==>
              (r == Failure(NoDescription) <==> FetchSummary(p, companyName.value).text == "")
    ensures HasName(companyName) && FetchSummary(p, companyName.value).text != "" ==>
              (r == Failure(NoTicker) <==> !IsTruthy(Resolve(p, companyName.value)))
    ensures HasName(companyName) && FetchSummary(p, companyName.value).text != ""
            && IsTruthy(Resolve(p, companyName.value)) ==>
              (r == Failure(NoPrices) <==> !HasPrices(p.priceHistory(Resolve(p, companyName.value).value)))
    ensures r.Success? <==>
              HasName(companyName) && FetchSummary(p, companyName.value).text != ""
              && IsTruthy(Resolve(p, companyName.value))
              && HasPrices(p.priceHistory(Resolve(p, companyName.value).value))
    ensures r.Success? ==>
              r == Report(p, order, FetchSummary(p, companyName.value).text, Resolve(p, companyName.value).value,
                          p.priceHistory(Resolve(p, companyName.value).value).value)
  {
    if !HasName(companyName) then Failure(NoName)
    else
      var name := companyName.value;
      var summary := FetchSummary(p, name).text;
      if summary == "" then Failure(NoDescription)
      else
        var ticker := Resolve(p, name);
        if !IsTruthy(ticker) then Failure(NoTicker)
        else
          var history := p.priceHistory(ticker.value);
          if !HasPrices(history) then Failure(NoPrices)
          else Report(p, order, summary, ticker.value, history.value)
  }

  // ----- properties of the whole pipeline -----

  /** A missing or empty name is rejected before any provider is consulted:
      the answer does not depend on the providers at all. */
  lemma MissingNameConsultsNoProvider(p: Providers, q: Providers, order: SetOrder, companyName: Option<string>)
    requires !HasName(companyName)
    ensures Analyze(p, order, companyName) == Analyze(q, order, companyName) == Failure(NoName)
  {
  }

  /** A name made only of whitespace is not rejected as missing. */
  lemma WhitespaceNameAccepted(p: Providers, order: SetOrder, name: string)
    requires name != [] && AllSpace(name)
    ensures Analyze(p, order, Some(name)) != Failure(NoName)
  {
  }

  /** A failed or empty encyclopedia lookup never yields the description
      error: its message stands in for the description, and the pipeline
      goes on with it. */
  lemma {:induction false} LookupFailureIsNotDescriptionError(p: Providers, order: SetOrder, name: string)
    requires name != ""
    requires FetchSummary(p, name).title.None?
    ensures Analyze(p, order, Some(name)) != Failure(NoDescription)
    ensures Analyze(p, order, Some(name)).Success? ==>
              Analyze(p, order, Some(name)).description == NoPageMessage
              || LookupErrorPrefix <= Analyze(p, order, Some(name)).description
  {
    var s := FetchSummary(p, name);
    assert s.text != "";
    match p.pageSearch(name)
    case Raised(detail) =>
    case Fetched(titles) =>
      if |titles| > 0 {
        assert p.pageSummary(titles[0]).Raised?;
      }
  }

  /** Once the description check fails, the symbol search, the market data
      and the generative text are never consulted: replacing them changes
      nothing. */
  lemma DescriptionFailureStopsEarly(p: Providers, order: SetOrder, companyName: Option<string>,
                                     symbolSearch: string -> Option<seq<Match>>,
                                     priceHistory: string -> Option<PriceSeries>,
                                     generate: string -> Option<string>)
    requires Analyze(p, order, companyName) == Failure(NoDescription)
    ensures Analyze(p.(symbolSearch := symbolSearch, priceHistory := priceHistory, generate := generate),
                    order, companyName) == Failure(NoDescription)
  {
    var q := p.(symbolSearch := symbolSearch, priceHistory := priceHistory, generate := generate);
    assert FetchSummary(q, companyName.value) == FetchSummary(p, companyName.value);
  }

  /** Once the ticker check fails, neither price history nor generative text
      is consulted. */
  lemma TickerFailureStopsEarly(p: Providers, order: SetOrder, companyName: Option<string>,
                                priceHistory: string -> Option<PriceSeries>,
                                generate: string -> Option<string>)
    requires Analyze(p, order, companyName) == Failure(NoTicker)
    ensures Analyze(p.(priceHistory := priceHistory, generate := generate), order, companyName)
            == Failure(NoTicker)
  {
    var q := p.(priceHistory := priceHistory, generate := generate);
    assert FetchSummary(q, companyName.value) == FetchSummary(p, companyName.value);
    assert Resolve(q, companyName.value) == Resolve(p, companyName.value);
  }

  /** The prompt carries only the first 500 characters of the description:
      two generators that agree on such texts give the same answer. */
  lemma PromptSeesOnlyPrefix(p: Providers, order: SetOrder, companyName: Option<string>,
                             g1: string -> Option<string>, g2: string -> Option<string>)
    requires forall text :: |text| <= PromptDescriptionLimit ==> g1(text) == g2(text)
    ensures Analyze(p.(generate := g1), order, companyName) == Analyze(p.(generate := g2), order, companyName)
  {
    var p1 := p.(generate := g1);
    var p2 := p.(generate := g2);
    if HasName(companyName) {
      var name := companyName.value;
      SameLookups(p, name, g1, g2);
      var summary := FetchSummary(p1, name).text;
      var ticker := Resolve(p1, name);
      if summary == "" {
        assert Analyze(p1, order, companyName) == Failure(NoDescription);
      } else if !IsTruthy(ticker) {
        assert Analyze(p1, order, companyName) == Failure(NoTicker);
      } else if !HasPrices(p.priceHistory(ticker.value)) {
        assert Analyze(p1, order, companyName) == Failure(NoPrices);
      } else {
        var history := p.priceHistory(ticker.value).value;
        assert Analyze(p1, order, companyName) == Report(p1, order, summary, ticker.value, history);
        assert Analyze(p2, order, companyName) == Report(p2, order, summary, ticker.value, history);
        ReportReadsOnlyPrefix(p, order, summary, ticker.value, history, g1, g2);
      }
    }
  }

  /** The success answer, likewise, depends on the generator only through
      prompts of at most 500 characters of description. */
  lemma ReportReadsOnlyPrefix(p: Providers, order: SetOrder, description: string, ticker: string,
                              history: PriceSeries, g1: string -> Option<string>, g2: string -> Option<string>)
    requires forall text :: |text| <= PromptDescriptionLimit ==> g1(text) == g2(text)
    ensures Report(p.(generate := g1), order, description, ticker, history)
            == Report(p.(generate := g2), order, description, ticker, history)
  {
    var sectors := ChosenSectors(p.(generate := g1), description);
    assert sectors == ChosenSectors(p.(generate := g2), description) by {
      QueryReadsOnlyPrefix(p, description, g1, g2);
    }
    RankingIgnoresGenerator(p, order, AllCompetitors(sectors), g1, g2);
  }

  /** Generators that agree on prompts of at most 500 characters of
      description give the same sectors for every description. */
  lemma QueryReadsOnlyPrefix(p: Providers, description: string,
                             g1: string -> Option<string>, g2: string -> Option<string>)
    requires forall text :: |text| <= PromptDescriptionLimit ==> g1(text) == g2(text)
    ensures ChosenSectors(p.(generate := g1), description) == ChosenSectors(p.(generate := g2), description)
  {
    var prompt := PromptDescription(description);
    assert g1(prompt) == g2(prompt);
  }

  /** The generator takes no part in the lookups before it. */
  lemma SameLookups(p: Providers, name: string, g1: string -> Option<string>, g2: string -> Option<string>)
    ensures FetchSummary(p.(generate := g1), name) == FetchSummary(p.(generate := g2), name)
    ensures Resolve(p.(generate := g1), name) == Resolve(p.(generate := g2), name)
    ensures p.(generate := g1).priceHistory == p.(generate := g2).priceHistory
  {
  }

  /** The ranking never consults the generative text. */
  lemma {:induction false} RankingIgnoresGenerator(p: Providers, order: SetOrder, competitors: seq<string>,
                                                   g1: string -> Option<string>, g2: string -> Option<string>)
    ensures TopCompetitors(p.(generate := g1), order, competitors) == TopCompetitors(p.(generate := g2), order, competitors)
  {
    ScanIgnoresGenerator(p, order(competitors), g1, g2);
  }

  /** Nor does the scan behind it. */
  lemma {:induction false} ScanIgnoresGenerator(p: Providers, names: seq<string>,
                                                g1: string -> Option<string>, g2: string -> Option<string>)
    ensures Scanned(p.(generate := g1), names) == Scanned(p.(generate := g2), names)
    decreases |names|
  {
    if |names| > 0 {
      ScanIgnoresGenerator(p, names[..|names| - 1], g1, g2);
      var last := names[|names| - 1];
      assert Resolve(p.(generate := g1), last) == Resolve(p.(generate := g2), last);
      assert Candidate(p.(generate := g1), last) == Candidate(p.(generate := g2), last);
    }
  }

  /** When generation fails, the answer still succeeds (if the primary data
      are there) with the placeholder sector, and the placeholder text itself
      is what gets ranked. */
  lemma GenerationFailureFallsBack(p: Providers, order: SetOrder, name: string)
    requires Analyze(p, order, Some(name)).Success?
    requires p.generate(PromptDescription(FetchSummary(p, name).text)).None?
    ensures Analyze(p, order, Some(name)).sectors == PlaceholderSectors
    ensures Analyze(p, order, Some(name)).top == TopCompetitors(p, order, [PlaceholderCompetitor])
  {
    PlaceholderCompetitors();
  }

  /** The placeholder contributes exactly its one text to the ranking. */
  lemma PlaceholderCompetitors()
    ensures AllCompetitors(PlaceholderSectors) == [PlaceholderCompetitor]
  {
    assert PlaceholderSectors[1..] == [];
    assert AllCompetitors(PlaceholderSectors) == [PlaceholderCompetitor] + [];
  }

  /** The placeholder ranks to nothing exactly when the placeholder text
      itself yields no competitor record. */
  lemma PlaceholderRanking(p: Providers, order: SetOrder)
    ensures TopCompetitors(p, order, [PlaceholderCompetitor]) == [] <==> Candidate(p, PlaceholderCompetitor).None?
  {
    SingleNameRanking(p, order, PlaceholderCompetitor);
  }
}

# Stockmind company analysis, modelled in Dafny

Stockmind answers one query: given a company name, it returns
- a short description of the company;
- its US ticker and three months of closing prices;
- the business sectors a generative-text service lists for it, each with competitor names;
- the (at most) three largest of those competitors by market capitalisation.

This project models the decision logic of that query in `BACK.py`:
- ticker selection from a symbol-search answer (`get_ticker_from_alpha_vantage`);
- parsing of the generated text into sectors (`query_gemini_llm`);
- the competitor ranking (`get_top_competitors`);
- the fail-fast control flow of `analyze_company`.

Every external service is an oracle, a pure function field of the `Oracles.Providers` datatype:
- the encyclopedia search and summary;
- symbol search;
- price history for the company and for competitors;
- market capitalisation;
- text generation.

Each oracle returns `Option` (or `Fetch`, which carries the text of a raised exception) with every caught failure already folded in.

Modules, one per file:

| file | module | models |
|---|---|---|
| `options.dfy` | `Options` | `None`-or-value results, and provider calls that may raise |
| `text.dfy` | `Text` | Python's `str.isspace`, `str.strip` and `str.split(sep)`, with `Join` as the inverse of `Split` |
| `symbols.dfy` | `Symbols` | the scan of `bestMatches` for the first "United States" match |
| `oracles.dfy` | `Oracles` | the providers and ticker resolution |
| `sectors.dfy` | `Sectors` | parsing of the generated reply into sectors |
| `ranking.dfy` | `Ranking` | candidate acceptance, duplicate-ticker suppression, the stable descending sort, top three |
| `pipeline.dfy` | `Pipeline` | the encyclopedia lookup, the prompt truncation, the placeholder fallback and `analyze_company` |

Python leaves the iteration order of `set(competitors)` unspecified. It is modelled as a parameter `order: Ranking.SetOrder`: any function that lists the distinct names once each. Every ranking property holds for every such order.

Four behaviours of the code may surprise a reader. The model follows the code in each:
- A name made only of whitespace is truthy in Python, so it passes the first check at BACK.py:139 (`Pipeline.WhitespaceNameAccepted`).
- A failed or empty encyclopedia lookup returns a non-empty message (BACK.py:30-31). That message becomes the description, so the description error is not raised (`Pipeline.LookupFailureIsNotDescriptionError`).
- The placeholder competitor "No competitors found." is itself sent to symbol search and ranked (BACK.py:156-159). The top list is empty only when that text yields no record (`Pipeline.PlaceholderRanking`).
- A match without a region key before the first US match raises `KeyError`, and the handler turns that into no ticker. A unique US match therefore wins regardless of position only when every match has a region key (`Symbols.UniqueTargetMatchWins`).

## Model

| member | source | states |
|---|---|---|
| Text.Strip | BACK.py:123 | `strip()` leaves no outer whitespace, is empty exactly when the text is all whitespace, and leaves stripped text unchanged |
| Text.StripKeepsInfix | BACK.py:123 | the stripped text is a contiguous piece of the input with only whitespace cut from either side |
| Text.StripAddsNothing | BACK.py:125-126 | stripping introduces no character that was not in the input |
| Text.Split | BACK.py:122-123 | `split(sep)` yields at least one piece, and the first piece is a prefix of the input |
| Text.JoinSplit | BACK.py:122-123 | joining the pieces of `split(sep)` with `sep` gives back the input |
| Text.SplitPiecesAvoidSeparator | BACK.py:122-123 | no piece of `split(sep)` contains the separator |
| Text.SplitCutsLeftmost | BACK.py:122-123 | each cut is at the leftmost occurrence of the separator, as in Python, so the pieces are fixed even for a separator that overlaps itself such as "\n\n" |
| Text.SplitManyIffInfix | BACK.py:123-124 | a text splits into more than one piece exactly when it contains the separator |
| Oracles.Resolve | BACK.py:44-60 | `get_ticker_from_alpha_vantage`: no `bestMatches` gives no ticker; otherwise the ticker is the symbol of the first United States match when every earlier match has a region, and there is none when no match qualifies |
| Symbols.FirstTargetSymbol | BACK.py:55-57 | the result is the symbol of the first match in the United States region, provided every earlier match has a region; otherwise there is none |
| Symbols.SelectTicker | BACK.py:54-58 | no `bestMatches` gives no ticker, and any ticker returned is the symbol of a United States match |
| Symbols.UniqueTargetMatchWins | BACK.py:54-58 | when every match has a region and exactly one is in the United States, that match's symbol is returned wherever it stands |
| Symbols.NoTargetMatchNoTicker | BACK.py:54-58 | without a United States match, or without `bestMatches`, there is no ticker |
| Sectors.LinesHoldNoBreak | BACK.py:123 | no line of `split("\n")` contains a line break |
| Sectors.SplitSingleCount | BACK.py:123-124 | splitting on one character yields one more piece than there are occurrences of it |
| Sectors.ParseBlock | BACK.py:123-127 | a block becomes a sector exactly when its stripped text spans two or more lines; the sector has a non-empty one-line name and one stripped, single-line competitor per line break; the name is the stripped first line and the competitors are the stripped later lines in order, where the lines are the break-free pieces that joined with line breaks give the stripped block |
| Sectors.KeepSectors | BACK.py:122-127 | no more sectors than blocks, each well formed |
| Sectors.ParseSectors | BACK.py:121-128 | every parsed sector is well formed, and there are no more sectors than `"\n\n"` blocks |
| Sectors.KeepSectorsAppend | BACK.py:122-127 | parsing is block by block, so sectors come out in block order |
| Sectors.KeepSectorsSingle | BACK.py:122-127 | one block yields its own sector or nothing |
| Sectors.SingleLineReplyHasNoSectors | BACK.py:122-128 | a reply without a line break yields no sector |
| Ranking.Dedup | BACK.py:84 | first-occurrence deduplication lists every distinct name exactly once, so some visiting order exists |
| Ranking.Candidate | BACK.py:85-97 | a record is built exactly when the ticker is truthy, the market cap is truthy, and prices and labels are non-empty; its current price is the last price |
| Ranking.Visit | BACK.py:85-98 | one step appends a record exactly when the name yields one whose ticker is not yet processed, and then marks that ticker processed; otherwise nothing changes |
| Ranking.Scanned | BACK.py:84-98 | after any prefix of the visit, the processed tickers are exactly the tickers of the accepted records, no two records share a ticker, and each record is the one its own input name yields |
| Ranking.ScannedComplete | BACK.py:84-98 | every name that yields a record has its ticker among the accepted ones |
| Ranking.ScannedFirstWins | BACK.py:84-98 | of several names yielding the same ticker, the first visited is the one kept |
| Ranking.ScannedKeepsVisitOrder | BACK.py:84-98 | records keep visiting order: those accepted while visiting the first names come first, unchanged, and every later record comes from a later name |
| Ranking.ScannedRejectedIsEmpty | BACK.py:84-98 | names that yield no record leave the list empty |
| Ranking.CollectRecords | BACK.py:81-98 | the loop computes exactly the fold `Scanned`, with unique tickers and `processed` equal to the accepted tickers |
| Ranking.Insert | BACK.py:101 | insertion into a list sorted by descending market cap keeps it sorted, adds one element, and adds only that element |
| Ranking.SortByCap | BACK.py:101 | the result is sorted by descending market cap, with the same length and members as the input |
| Ranking.InsertKeepsUnique | BACK.py:101 | inserting a record with a fresh ticker keeps tickers unique |
| Ranking.SortKeepsUnique | BACK.py:101 | sorting keeps tickers unique |
| Ranking.SortIsStable | BACK.py:101 | for every market cap, the records with that cap keep their input order |
| Ranking.TopCompetitors | BACK.py:80-102 | returns min(3, number accepted) records, sorted, with distinct tickers; each is an accepted record for one of the input names; every accepted record left out has a market cap no larger than any returned one |
| Ranking.TopKeepsTieOrder | BACK.py:100-101 | for every market cap, the records returned with that cap are the first accepted ones with that cap, in acceptance order, which is the order the names are visited (`Ranking.ScannedKeepsVisitOrder`) |
| Ranking.SingleNameRanking | BACK.py:84-102 | a single name ranks to nothing exactly when it yields no record |
| Pipeline.MessageIdentifiesError | BACK.py:139-152 | the four refusal texts are pairwise different |
| Pipeline.FetchSummary | BACK.py:22-31 | a title is returned exactly when the search is non-empty and both calls succeed, and then the text is that page's summary; otherwise the text is a non-empty message |
| Pipeline.PromptDescription | BACK.py:108 | the prompt gets a prefix of the description: the whole description when it has at most 500 characters, and exactly its first 500 otherwise |
| Pipeline.QueryCompetitors | BACK.py:104-130 | `None` exactly when generation fails; otherwise the parsed sectors of the reply, each well formed |
| Pipeline.ChosenSectors | BACK.py:154-156 | the sector list is never empty, and every sector names a competitor; it is the placeholder when generation fails or yields no sector, and the parsed sectors otherwise |
| Pipeline.AllCompetitors | BACK.py:158 | a name is in the flattened list exactly when some sector lists it |
| Pipeline.AllCompetitorsAppend | BACK.py:158 | flattening preserves sector order |
| Pipeline.Report | BACK.py:154-169 | a success carries the description, ticker and history it was given, the chosen sectors, and the ranking of all their competitors (at most three) |
| Pipeline.Analyze | BACK.py:137-169 | the four refusals occur in this order, each exactly when its own check fails and all earlier ones pass: missing or empty name, empty description, no truthy ticker, empty prices or labels; the answer is a success exactly when all four checks pass |
| Pipeline.MissingNameConsultsNoProvider | BACK.py:138-140 | an absent or empty name is refused with the same answer whatever the providers do |
| Pipeline.WhitespaceNameAccepted | BACK.py:139 | a whitespace-only name is not refused as missing |
| Pipeline.LookupFailureIsNotDescriptionError | BACK.py:142-144 | a failed or empty encyclopedia lookup never causes the description error; if the query succeeds, the description is the failure message |
| Pipeline.DescriptionFailureStopsEarly | BACK.py:142-152 | after the description error, replacing symbol search, price history or text generation changes nothing |
| Pipeline.TickerFailureStopsEarly | BACK.py:146-152 | after the ticker error, replacing price history or text generation changes nothing |
| Pipeline.PromptSeesOnlyPrefix | BACK.py:108 | two generators that agree on every prompt of at most 500 characters of description give the same answer |
| Pipeline.ReportReadsOnlyPrefix | BACK.py:108 | the same holds for the success answer alone |
| Pipeline.QueryReadsOnlyPrefix | BACK.py:108 | and for the chosen sectors |
| Pipeline.RankingIgnoresGenerator | BACK.py:80-102 | the ranking does not depend on text generation |
| Pipeline.GenerationFailureFallsBack | BACK.py:154-159 | when generation fails, a success carries exactly the placeholder sector and the ranking of the single name "No competitors found." |
| Pipeline.PlaceholderRanking | BACK.py:156-159 | the placeholder ranks to nothing exactly when "No competitors found." yields no record |

## Left out

- The Flask application, its routes, `render_template` and the JSON envelope (BACK.py:20, 132-134, 161-172). `Pipeline.Response` stands in for the JSON answer, and `Pipeline.Message` gives the error texts.
- Loading the environment and checking the API keys (BACK.py:9-19). This is process configuration.
- The network calls to the encyclopedia, Alpha Vantage, yfinance and the generative-text service. Each is a `Providers` oracle. Because oracles are pure, repeated calls with the same argument agree; a real service may answer differently on a second call.
- The wording of the prompt (BACK.py:106-116). The generator oracle receives only the truncated description, which is the only part of the prompt that varies.
- The `try`/`except` blocks. Every caught failure, including a reply without a first candidate's text, is folded into an oracle returning `None`. The encyclopedia keeps the exception text, because that text reaches the description.
- Rounding of the company's prices to two decimals and `strftime` date formatting (BACK.py:37-38, 74-75). Prices are `real` and labels are opaque strings.
- Ranking.TopCompetitors: market caps are unbounded integers. A float market cap from the provider is not modelled.
- Ranking.TopCompetitors: the iteration order of `set(competitors)` is any duplicate-free enumeration of the names (`Ranking.SetOrder`), not CPython's hash order.
- Text.Strip: characters are Dafny `char`s. No Unicode normalisation or surrogate handling is modelled. `str.isspace` is the list of Unicode whitespace code points.

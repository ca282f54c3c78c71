# Quote viewer: a Dafny model

A model of the pure logic of a small Flask application that shows quotes of
Brazilian stocks. It covers:

- `get_cotacoes`. This normalises the requested tickers, asks an external
  quote provider for them, and merges the provider's records with
  "Ativo não encontrado" records for the tickers it did not return. When the
  provider cannot be reached, it falls back on simulated quotes from
  `get_cotacoes_simuladas`.
- The display formatters `format_currency` and `format_market_cap`, and the
  page's `percentage` filter.
- The request handlers:
  - `index` picks the tickers (a search first, then a list, then six defaults)
    and splits the quotes into valid and invalid ones.
  - `api_cotacoes` returns 400 on an empty parameter, and otherwise the quotes
    and their count.
  - `health` returns a fixed reply.
- Two functions of the browser script. `validateTickerInput` is the live check
  of the ticker field. `formatPercentage` renders the change badge of a
  refreshed card.

Nothing external is called; everything the program gets from outside is an
argument:

- the provider's answer is `Answered(results)` or `Failed`;
- the random numbers the simulator would draw are a `Draw` per ticker;
- the request parameters are strings.

Floating-point values are modelled as exact reals, with one exception: the
change in percent of a quote. `round` turns a small negative change into a
negative zero, which the page prints as "-0.00%". A price equal to a negative
previous close also gives a negative zero, since IEEE 754 division gives a zero
the sign of its divisor (`Service.ChangeNegativeZero`). So the change is a
fixed-point decimal that keeps its sign (`Decimal.Round2`,
`Formatters.ChangeShown`).

Rounding and digit rendering are modelled on these exact values, as
fixed-point decimals:

- Python's `round(x, n)` and `format(x, ",.nf")` round the exact value to the
  nearest, ties to even.
- JavaScript's `toFixed(n)` rounds ties away from zero.

Every rendering has a parser as its partner, so the formatters are stated as
round trips: the digits they print read back as the rounded value.

Whitespace is modelled per language:

- Python's `str.strip` strips the 29 characters `str.isspace` accepts.
- JavaScript's `trim` strips the 25 characters of its own whitespace and
  line-terminator sets, U+FEFF among them.

Modules, one file each:

| module | file | models |
|---|---|---|
| `Options` | options.dfy | an optional value |
| `Text` | text.dfy | strip/trim, ASCII upper-casing, `split`/`join`, `replace` |
| `Decimal` | decimal.dfy | rounding, rendering with or without grouping, and parsing back |
| `Records` | records.dfy | the quote record and JSON fields that may be absent or null |
| `Simulator` | simulator.dfy | `get_cotacoes_simuladas` |
| `Service` | service.dfy | `get_cotacoes` |
| `Formatters` | formatters.dfy | `format_currency`, `format_market_cap`, `percentage_filter` |
| `Handlers` | handlers.dfy | `index`, `api_cotacoes`, `health` |
| `Client` | client.dfy | `validateTickerInput`, `formatPercentage` |

Behaviour of the code worth knowing:

- When the provider answers, its records are keyed by the provider's own
  `symbol`. Symbols nobody asked for therefore also appear in the result
  (`Service.ProviderAnswered`), next to the requested tickers.
- The page's `percentage` filter signs only strictly positive values, and it
  shows a negative zero as "-0.00%". The script's `formatPercentage` signs
  every zero with '+' (`Client.PercentageAgree`, `Client.ChangeBadge`).
- On a tie at the second decimal whose lower neighbour is even, the two
  percentage formatters print different digits (`Client.PercentageTieDiffers`);
  on a tie whose lower neighbour is odd, both round up and agree. No quote carries such a
  value: every change has already been rounded to two places, so for quotes
  the two differ only in the sign of a zero (`Client.ChangeBadge`).
- The script trims U+FEFF, but Python's `strip` keeps it. An input the
  validator accepts can therefore reach the provider with a U+FEFF in front
  (`Client.ByteOrderMarkDiffers`). Without U+FEFF, every accepted input
  reaches the service as exactly the tickers the script checked
  (`Client.AcceptedReachServer`).

## Model

| member | source | states |
|---|---|---|
| Text.StripSpec | app/services.py:24 | `strip()` leaves nothing exactly when the ticker is all whitespace, and otherwise leaves text that starts and ends with a non-space |
| Text.StripIsInfix | app/services.py:24 | stripping removes only whitespace, and only at the two ends |
| Text.StripIdempotent | app/services.py:24 | stripping twice is stripping once |
| Text.StripAgree | app/static/script.js:170 | without U+FEFF, and when the result is bounded by non-Python-spaces, JavaScript's `trim` and Python's `strip` agree |
| Text.StripUpper | app/services.py:24 | `strip().upper()` equals `upper().strip()` |
| Text.UpperIdempotent | app/services.py:24 | upper-casing twice is upper-casing once |
| Text.SplitJoin | app/__init__.py:57 | splitting a comma-join of comma-free pieces gives the pieces back |
| Text.JoinSplit | app/__init__.py:57 | joining the pieces of a split with the separator gives the string back |
| Text.SplitConcat | app/__init__.py:57 | splitting `a + "," + b` gives the pieces of `a` followed by those of `b` |
| Text.SplitUpper | app/static/script.js:170 | splitting commutes with upper-casing |
| Text.SwapViaPlaceholder | app/services.py:191 | the three `replace` calls through 'X' swap ',' and '.' when the text holds no 'X' |
| Text.SwapViaPlaceholderClobbers | app/services.py:191 | an 'X' already in the text comes out as '.' |
| Decimal.Round | app/services.py:191 | a rounding keeps the sign and lies within half a unit of the last place of the exact value; a tie goes to the even neighbour for Python and away from zero for JavaScript |
| Decimal.RoundTieFree | app/static/script.js:297 | ties to even and ties away from zero differ only on exact ties |
| Decimal.Round2 | app/services.py:65 | `round(x, 2)` has two places and the sign of `x`, lies within 0.005 of `x`, and is a negative zero exactly for `x` in [-0.005, 0) |
| Decimal.Round2Zero | app/services.py:65 | `round(x, 2)` is zero exactly for `x` within 0.005 of zero |
| Decimal.ReroundSame | app/__init__.py:31-33 | formatting a two-place value to two places changes nothing, and such a value is never a tie |
| Decimal.ValueSign | app/__init__.py:30 | a decimal is above zero exactly when it is positive with some non-zero digit, and below zero exactly when it is negative with one |
| Decimal.ParseRender | app/services.py:191 | every rendering, in any readable style, reads back as the decimal it was rendered from |
| Decimal.GroupShape | app/services.py:214 | thousands grouping cuts the digits into a leading group of one to three and groups of exactly three, in order |
| Decimal.UngroupGroup | app/services.py:214 | removing the separators from a grouping gives the digits back |
| Decimal.RenderRemark | app/services.py:191 | rewriting the marks of a rendering equals rendering in the new style |
| Decimal.RenderEnds | app/services.py:191 | a rendering starts with '-' exactly for negative values, otherwise with a digit, and always ends with a digit |
| Decimal.DigitsOfNat | app/services.py:214 | the digits of a number read back as that number |
| Simulator.Find | app/services.py:133-134 | a table lookup finds an entry with that ticker, or reports that none exists |
| Simulator.SimRecord | app/services.py:133-173 | a simulated quote is valid, in reais, closes at the base price, and is priced at the base moved by the change to within half a cent |
| Simulator.SimulateKeys | app/services.py:130-131 | the simulated keys are exactly the upper-cased tickers |
| Simulator.SimulateLast | app/services.py:145-163 | the quote under a key comes from the last ticker with that key |
| Simulator.SimulateFrom | app/services.py:130-173 | every simulated quote comes from some ticker's own draw |
| Simulator.SimulatedQuotes | app/services.py:115-173 | known tickers take the table's names and base price and a value of 50 to 500 billion; others take the generic names, a close of 10 to 100 and a value of 10 to 200 billion |
| Simulator.Simulate | app/services.py:102-176 | the simulated table, keyed exactly by the upper-cased tickers, each quote from the last ticker with that key and its own draw (`Simulator.SimulateKeys`, `Simulator.SimulateLast`, `Simulator.SimulateFrom`, `Simulator.SimulatedQuotes`) |
| Service.NormalizeOne | app/services.py:24 | one ticker is dropped when blank, and otherwise stripped and upper-cased |
| Service.NormalizeAppend | app/services.py:24 | normalisation works ticker by ticker, keeping order and duplicates |
| Service.BlankIff | app/services.py:24 | a ticker is blank exactly when it is empty or all whitespace |
| Service.NormalizeNone | app/services.py:24-27 | nothing is left exactly when every ticker is blank |
| Service.NormalizeEmpty | app/services.py:20-27 | nothing is left exactly when every ticker is empty or all whitespace |
| Service.NormalizeFrom | app/services.py:24 | every kept ticker is the stripped and upper-cased form of a non-blank input ticker |
| Service.NormalizeKeeps | app/services.py:24 | every non-blank input ticker is kept |
| Service.NormalizeClean | app/services.py:24 | every kept ticker is non-empty, upper-case and stripped |
| Service.NormalizeAlnum | app/services.py:24 | tickers of capital letters and digits pass through unchanged |
| Service.NormalizeIdempotent | app/services.py:24 | normalising twice is normalising once |
| Service.Normalize | app/services.py:24 | never longer than its input; the `Service.Normalize…` lemmas establish that it keeps, in order, exactly the non-blank tickers, stripped and upper-cased, and is idempotent |
| Service.ChangePercent | app/services.py:52-65 | the change is the move from previous close to price in percent, to two places within 0.005, when both are non-zero, and the integer 0 otherwise; it is negative when the move is, and also when the move is zero over a negative previous close, as IEEE division makes it a negative zero |
| Service.ChangeNegativeZero | app/services.py:55-57 | a price of -5.0 over a previous close of -5.0 is a change of negative zero, which the page shows as "-0.00%" |
| Service.ProviderRecord | app/services.py:58-68 | a provider record is stored under its symbol, is valid and carries no error; a missing short name falls back to the symbol, a missing long name to the short name, a missing price to 0 and a missing currency to "BRL"; a null field stays null |
| Service.AddProviderRecords | app/services.py:47-68 | the provider loop, whose keys are exactly the entries' symbols, each record built from the last entry with that symbol and valid (`Service.ProviderKeys`, `Service.ProviderLast`, `Service.ProviderFrom`) |
| Service.NotFoundRecord | app/services.py:71-84 | the invalid record for a requested ticker the provider did not return, added only under a key that holds nothing yet (`Service.FillNotFound`, `Service.ProviderAnswered`, `Service.AnsweredFound`) |
| Service.ProviderKeys | app/services.py:47-58 | the stored keys are exactly the symbols of the provider's entries |
| Service.ProviderLast | app/services.py:48-58 | the record under a symbol is built from the last entry with that symbol |
| Service.ProviderFrom | app/services.py:58-68 | every stored provider record is valid and built from an entry with its symbol |
| Service.FillNotFound | app/services.py:71-84 | the fill adds a "not found" record for each requested ticker without one, and changes no existing record |
| Service.GetCotacoes | app/services.py:20-27 | when no ticker is left after normalisation, the result is empty |
| Service.BlankNeverAsks | app/services.py:20-27 | with every ticker blank, the result is empty whatever the provider would answer |
| Service.ProviderAnswered | app/services.py:44-87 | on an answer, the keys are the requested tickers plus the provider's symbols; provider records are kept and valid; every other key holds the "not found" record |
| Service.AnsweredFound | app/services.py:71-84 | a requested ticker is valid exactly when some provider entry carries its symbol |
| Service.Fallback | app/services.py:89-99 | on failure, the keys are exactly the normalised tickers, and every record is valid and in reais |
| Formatters.BrazilianMarksSwap | app/services.py:191 | the placeholder rewrite turns Python's grouping into the Brazilian one |
| Formatters.CurrencyBrl | app/services.py:190-191 | reais are "R$ " and the amount in Brazilian marks, which reads back as the amount rounded to cents |
| Formatters.CurrencyOther | app/services.py:192-193 | other currencies are the code, a space and the amount in Python's grouping, which reads back as the amount rounded to cents |
| Formatters.FormatCurrency | app/services.py:179-193 | reais as "R$ " and the amount rounded to cents in Brazilian marks, other currencies as code, space and Python's grouping, each reading back as the rounded amount (`Formatters.CurrencyBrl`, `Formatters.CurrencyOther`) |
| Formatters.InUnitsShape | app/services.py:210-212 | a scaled value is "R$ ", one-decimal digits that read back as the rounded value, and the unit letter |
| Formatters.MarketCapUnits | app/services.py:206-214 | "N/A" exactly for none or zero; a trailing 'B' exactly from one billion; 'M' exactly from one million to below one billion; a trailing digit otherwise |
| Formatters.MarketCapBillions | app/services.py:209-210 | from one billion, "R$ ", digits that read back as the value in billions rounded to one decimal (at least 1.0), and 'B' |
| Formatters.MarketCapMillions | app/services.py:211-212 | from one million to below one billion, "R$ ", digits that read back as the value in millions rounded to one decimal (1.0 to 1000.0), and 'M' |
| Formatters.MarketCapSmall | app/services.py:213-214 | below one million, the exact whole number grouped with dots, which reads back as the number |
| Formatters.FormatMarketCap | app/services.py:196-214 | "N/A" for none or zero, billions and millions to one decimal with their letter, smaller values grouped with dots, each reading back as the value it shows (`Formatters.MarketCapUnits`, `Formatters.MarketCapBillions`, `Formatters.MarketCapMillions`, `Formatters.MarketCapSmall`) |
| Formatters.PercentageFilterShape | app/__init__.py:27-33 | '+' in front exactly for positive values, '-' exactly for negative ones (a negative zero included), '%' at the end, and the value rounded to two places between them |
| Formatters.ChangeShown | app/__init__.py:28-33 | a change rounded by `round(x, 2)` shows '-' exactly when `x` was negative, '+' exactly when `x` is above 0.005, and digits that read back as the rounded change |
| Formatters.PercentageFilter | app/__init__.py:27-33 | '+' exactly for positive values, '-' exactly for negative ones including a negative zero, and the value to two places, ties to even (`Formatters.PercentageFilterShape`, `Formatters.ChangeShown`) |
| Handlers.SplitTickersAppend | app/__init__.py:57 | splitting around a comma splits both sides independently |
| Handlers.SplitTickersTrimmed | app/__init__.py:57 | every ticker taken from a parameter is non-empty, stripped and comma-free |
| Handlers.SplitTickersJoin | app/__init__.py:57 | trimmed tickers joined with commas split back into themselves |
| Handlers.SplitTickers | app/__init__.py:57 | the list parameter split at commas, stripped and with empty pieces dropped; every piece is a non-empty stripped ticker, and joined tickers split back into themselves (`Handlers.SplitTickersAppend`, `Handlers.SplitTickersTrimmed`, `Handlers.SplitTickersJoin`) |
| Handlers.NormalizeStripDrop | app/__init__.py:57 | the handlers' stripping changes nothing the service's normalisation would not |
| Handlers.SelectTickers | app/__init__.py:44-62 | a search wins with its stripped text; otherwise a list is split, stripped and dropped-empty; otherwise the six defaults |
| Handlers.SearchIgnoresList | app/__init__.py:51-54 | with a search, the ticker list is ignored |
| Handlers.Partition | app/__init__.py:77-78 | valid and invalid quotes are disjoint, hold every quote unchanged, and their sizes add up to the whole; a missing flag counts as invalid |
| Handlers.Index | app/__init__.py:64-87 | the page's valid and invalid quotes are exactly the fetched quotes, unchanged and split by their flag, the total is the number fetched, and the search text is echoed |
| Handlers.FallbackPage | app/__init__.py:64-78 | with the provider down, the page fetches one valid quote per requested ticker and nothing else |
| Handlers.DefaultTickersAsked | app/__init__.py:48 | without parameters, the page asks for the six default tickers |
| Handlers.DefaultPage | app/__init__.py:59-62 | without parameters and with the provider down, exactly the six defaults are shown, all valid |
| Handlers.ApiCotacoes | app/__init__.py:95-111 | the status is 400 exactly for an empty parameter; a success carries the service's quotes for the split parameter and their count |
| Handlers.MissingParameter | app/__init__.py:97-101 | an empty parameter gets the same fixed error and example whatever the provider would answer |
| Handlers.ApiMatchesPage | app/__init__.py:103-111 | the endpoint's data are the page's valid and invalid quotes together, record for record, with the same total |
| Handlers.Health | app/__init__.py:119-125 | the health reply is the fixed status "healthy" of the service "cotacoes-api", independent of any request |
| Client.ValidateSingle | app/static/script.js:166-174 | an input without a comma is accepted exactly when it is empty or, trimmed and upper-cased, is three to six capital letters or digits |
| Client.ValidateJoin | app/static/script.js:170-173 | two non-empty inputs joined by a comma are accepted exactly when both are |
| Client.ValidateEdgeComma | app/static/script.js:170-173 | a leading or trailing comma is always refused |
| Client.ValidateDoubleComma | app/static/script.js:170-173 | two commas in a row are always refused |
| Client.ValidateUpper | app/static/script.js:170 | the verdict ignores case |
| Client.ValidateTickers | app/static/script.js:173 | any comma-join of valid tickers is accepted |
| Client.ValidateTickerInput | app/static/script.js:166-174 | empty input is accepted; otherwise every comma piece, trimmed and upper-cased, must be three to six capital letters or digits (`Client.ValidateSingle`, `Client.ValidateJoin`, `Client.ValidateEdgeComma`, `Client.ValidateDoubleComma`, `Client.ValidateUpper`, `Client.ValidateTickers`) |
| Client.AllTickersAppend | app/static/script.js:173 | `every` over two lists holds exactly when it holds over each |
| Client.PieceKey | app/static/script.js:170 | a piece that reads as a ticker and has no U+FEFF is stripped and upper-cased to the same ticker by Python |
| Client.AcceptedReachServer | app/static/script.js:166-174 | an accepted input without U+FEFF reaches the service as exactly the tickers the script checked, in order |
| Client.ByteOrderMarkDiffers | app/static/script.js:170 | a ticker behind U+FEFF is accepted by the script but fetched by the service with the U+FEFF in front |
| Client.FormatPercentageShape | app/static/script.js:295-298 | '+' in front exactly for non-negative values, '%' at the end, and the value rounded to two places, ties away from zero, between them |
| Client.FormatPercentage | app/static/script.js:295-298 | '+' for every non-negative value, the value to two places with ties away from zero, and '%' (`Client.FormatPercentageShape`, `Client.PercentageAgree`) |
| Client.PercentageAgree | app/static/script.js:296-297 | off ties, the badge is the page filter's text, except at zero, where the script's '+' goes in front of "0.00%" or replaces the '-' of a negative zero |
| Client.ChangeBadge | app/static/script.js:295-298 | for every change `round(x, 2)` produces, the badge is the page filter's text, except for changes within 0.005 of zero, which the badge signs with '+' |
| Client.PercentageTieDiffers | app/static/script.js:297 | on a tie with an even lower neighbour, the badge shows one hundredth more than the page filter |

## Left out

- The HTTP call to the provider, its timeout, `raise_for_status` and JSON decoding are left out. These are I/O; their outcome is the `Answer` argument, and a decoded `results` that is missing, null or empty is `Answered([])`.
- Logging, the Flask app factory, routing, `render_template`, the 404 and 500 error pages, `SECRET_KEY` and `app.run` are left out as framework plumbing.
- The `currency` and `market_cap` template filters are left out: they only forward to the formatters.
- The 500 branch of `api_cotacoes` and the exception branch of `index` are left out. `get_cotacoes` catches every exception itself, so in the model neither branch is reachable, and the page's error message is always empty.
- `random.uniform` and `random.randint` are left out. Their results are `Draw` arguments, and the draw ranges are a precondition only where a lemma needs them.
- Health: the constant reply is a `const` and has no contract.
- Python dictionaries keep insertion order, but the model's maps do not.
- A provider entry whose `symbol` is present but null is left out. The model treats a missing symbol as "" and has no null symbol.
- Provider fields holding non-numeric JSON values are left out.
- Decimal.Round: floats are exact reals. A binary float that is not exactly the decimal written may round differently from the model on near-ties.
- Decimal.Round: JavaScript's `toFixed` switches to exponent notation from 1e21. This is not modelled.
- Decimal.Round: the conversion of an integer market value above 2^53 to a float is not modelled.
- Formatters.MarketCapBillions: the division by 1e9 is exact, whereas Python divides in binary floating point. The contract is stated on that exact quotient.
- Formatters.MarketCapMillions: same as above, for the division by 1e6.
- Text.Upper: upper-casing is ASCII only. Characters such as 'ß', which both languages upper-case to more than one character, or to letters outside ASCII, are not modelled. Nor are 'ı' (U+0131) and 'ſ' (U+017F), which both languages upper-case to the ASCII 'I' and 'S'. The model leaves them unchanged, so it refuses "ıbm4", which the script accepts as "IBM4".
- The rest of the browser script is left out: the DOM, timers, `fetch`, and `formatCurrency`, which is a wrapper over `Intl.NumberFormat`.

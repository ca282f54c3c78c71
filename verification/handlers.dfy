/** The request handlers of the web application: the quote page (`index`),
    the JSON endpoint (`api_cotacoes`) and the health check, with the request
    parameters, the provider's answer and the random draws as arguments. */
module Handlers {
  import opened Options
  import opened Text
  import opened Records
  import opened Simulator
  import opened Service

  /** The tickers shown when the page is opened without parameters. */
  const DefaultTickers: seq<string> := ["PETR4", "VALE3", "BBAS3", "ITUB4", "BBDC4", "ABEV3"]

  /* ---------- Splitting a comma-separated parameter ---------- */

  /** `[p.strip() for p in parts if p.strip()]`. */
  function StripDrop(parts: seq<string>): (r: seq<string>)
    ensures |r| <= |parts|
    decreases |parts|
  {
    if parts == [] then []
    else (if Blank(parts[0]) then [] else [Strip(Python, parts[0])]) + StripDrop(parts[1..])
  }

  /** `[t.strip() for t in s.split(',') if t.strip()]`. */
  function SplitTickers(s: string): seq<string> {
    StripDrop(Split(s, ','))
  }

  /** A ticker as the handlers pass it on: not empty, without a comma, and
      without surrounding whitespace. */
  predicate Trimmed(t: string) {
    t != "" && ',' !in t && Strip(Python, t) == t
  }

  lemma {:induction false} StripDropAppend(a: seq<string>, b: seq<string>)
    ensures StripDrop(a + b) == StripDrop(a) + StripDrop(b)
    decreases |a|
  {
    if a == [] {
      assert a + b == b;
    } else {
      var head := if Blank(a[0]) then [] else [Strip(Python, a[0])];
      assert StripDrop(a + b) == head + StripDrop(a[1..] + b) by {
        assert (a + b)[0] == a[0] && (a + b)[1..] == a[1..] + b;
      }
      StripDropAppend(a[1..], b);
      AppendAssoc(head, StripDrop(a[1..]), StripDrop(b));
    }
  }

  /** Splitting around a comma splits both sides independently. */
  lemma SplitTickersAppend(a: string, b: string)
    ensures SplitTickers(a + [','] + b) == SplitTickers(a) + SplitTickers(b)
  {
    SplitConcat(a, b, ',');
    StripDropAppend(Split(a, ','), Split(b, ','));
  }

  lemma StripTrimmed(t: string)
    requires ',' !in t && !Blank(t)
    ensures Trimmed(Strip(Python, t))
  {
    StripIdempotent(Python, t);
    var i := StripIsInfix(Python, t);
    var r := Strip(Python, t);
    forall k | 0 <= k < |r| ensures r[k] != ',' {
      assert r[k] == t[i + k];
    }
  }

  /** Every ticker taken from a parameter is trimmed. */
  lemma {:induction false} StripDropTrimmed(parts: seq<string>, k: nat)
    requires forall i :: 0 <= i < |parts| ==> ',' !in parts[i]
    requires k < |StripDrop(parts)|
    ensures Trimmed(StripDrop(parts)[k])
    decreases |parts|
  {
    var rest := parts[1..];
    var head := if Blank(parts[0]) then [] else [Strip(Python, parts[0])];
    assert StripDrop(parts) == head + StripDrop(rest);
    if k < |head| {
      StripTrimmed(parts[0]);
    } else {
      assert StripDrop(parts)[k] == StripDrop(rest)[k - |head|];
      assert forall i :: 0 <= i < |rest| ==> rest[i] == parts[i + 1];
      StripDropTrimmed(rest, k - |head|);
    }
  }

  /** Every ticker of a split parameter is trimmed. */
  lemma SplitTickersTrimmed(s: string, k: nat)
    requires k < |SplitTickers(s)|
    ensures Trimmed(SplitTickers(s)[k])
  {
    StripDropTrimmed(Split(s, ','), k);
  }

  /** Trimmed tickers joined with commas split back into themselves. */
  lemma {:induction false} SplitTickersJoin(tickers: seq<string>)
    requires |tickers| >= 1
    requires forall i :: 0 <= i < |tickers| ==> Trimmed(tickers[i])
    ensures SplitTickers(Join(tickers, ',')) == tickers
  {
    SplitJoin(tickers, ',');
    StripDropKeeps(tickers);
  }

  lemma {:induction false} StripDropKeeps(tickers: seq<string>)
    requires forall i :: 0 <= i < |tickers| ==> Trimmed(tickers[i])
    ensures StripDrop(tickers) == tickers
    decreases |tickers|
  {
    if tickers != [] {
      assert Trimmed(tickers[0]);
      StripDropKeeps(tickers[1..]);
    }
  }

  /** The stripping the handlers do is redundant with the service's own
      normalisation: both see the same tickers. */
  lemma {:induction false} NormalizeStripDrop(parts: seq<string>)
    ensures Normalize(StripDrop(parts)) == Normalize(parts)
    decreases |parts|
  {
    if parts != [] {
      var t := parts[0];
      var head := if Blank(t) then [] else [Strip(Python, t)];
      NormalizeStripDrop(parts[1..]);
      NormalizeAppend(head, StripDrop(parts[1..]));
      if !Blank(t) {
        StripIdempotent(Python, t);
        NormalizeOne(Strip(Python, t));
      }
    }
  }

  /* ---------- The quote page ---------- */

  /** The tickers the page asks for, and the search text it shows back. */
  datatype Selection = Selection(tickers: seq<string>, searchQuery: string)

  /** The page's choice of tickers: a search wins, then an explicit list, then
      the default list. */
  function SelectTickers(ativos: string, busca: string): (sel: Selection)
    ensures busca != "" ==> |sel.tickers| == 1 && sel.tickers[0] == sel.searchQuery == Strip(Python, busca)
    ensures busca == "" ==> sel.searchQuery == ""
    ensures busca == "" && ativos != "" ==> sel.tickers == SplitTickers(ativos)
    ensures busca == "" && ativos != "" ==>
              forall k :: 0 <= k < |sel.tickers| ==> Trimmed(sel.tickers[k])
    ensures busca == "" && ativos == "" ==> sel.tickers == DefaultTickers
  {
    if busca != "" then
      Selection([Strip(Python, busca)], Strip(Python, busca))
    else if ativos != "" then
      AllTrimmed(ativos);
      Selection(SplitTickers(ativos), "")
    else
      Selection(DefaultTickers, "")
  }

  lemma AllTrimmed(s: string)
    ensures forall k :: 0 <= k < |SplitTickers(s)| ==> Trimmed(SplitTickers(s)[k])
  {
    forall k | 0 <= k < |SplitTickers(s)| ensures Trimmed(SplitTickers(s)[k]) {
      SplitTickersTrimmed(s, k);
    }
  }

  /** A search ignores the ticker list entirely. */
  lemma SearchIgnoresList(a1: string, a2: string, busca: string)
    requires busca != ""
    ensures SelectTickers(a1, busca) == SelectTickers(a2, busca)
  {
  }

  /** The quotes whose `valid` flag is set. */
  function ValidOnes(quotes: Quotes): Quotes {
    map k | k in quotes && quotes[k].valid == Some(true) :: quotes[k]
  }

  /** The quotes whose `valid` flag is unset, false or missing. */
  function InvalidOnes(quotes: Quotes): Quotes {
    map k | k in quotes && quotes[k].valid != Some(true) :: quotes[k]
  }

  /** The split is a partition: the two parts are disjoint, together hold every
      quote unchanged, and their sizes add up to the whole. */
  lemma Partition(quotes: Quotes)
    ensures ValidOnes(quotes).Keys !! InvalidOnes(quotes).Keys
    ensures ValidOnes(quotes).Keys + InvalidOnes(quotes).Keys == quotes.Keys
    ensures forall k :: k in ValidOnes(quotes) ==> ValidOnes(quotes)[k] == quotes[k]
    ensures forall k :: k in InvalidOnes(quotes) ==> InvalidOnes(quotes)[k] == quotes[k]
    ensures |ValidOnes(quotes)| + |InvalidOnes(quotes)| == |quotes|
  {
    var v, w := ValidOnes(quotes).Keys, InvalidOnes(quotes).Keys;
    assert v + w == quotes.Keys;
    assert |v + w| == |v| + |w|;
    assert |ValidOnes(quotes)| == |v| && |InvalidOnes(quotes)| == |w| && |quotes| == |quotes.Keys|;
  }

  /** What the page template is given. */
  datatype Page = Page(
    cotacoes: Quotes,
    invalid: Quotes,
    searchQuery: string,
    errorMessage: string,
    totalAtivos: nat)

  /** The tickers the page requests, after the service's normalisation. */
  function PageTickers(ativos: string, busca: string): seq<string> {
    Normalize(SelectTickers(ativos, busca).tickers)
  }

  /** The quotes `index` fetches: none when no ticker is selected. */
  function PageQuotes(ativos: string, busca: string, answer: Answer, draws: seq<Draw>): Quotes
    requires answer.Failed? ==> |draws| == |PageTickers(ativos, busca)|
  {
    var sel := SelectTickers(ativos, busca);
    if sel.tickers != [] then GetCotacoes(sel.tickers, answer, draws) else map[]
  }

  /** `index`: the selected tickers' quotes, split into valid and invalid ones,
      with the number of quotes fetched. */
  function Index(ativos: string, busca: string, answer: Answer, draws: seq<Draw>): (p: Page)
    requires answer.Failed? ==> |draws| == |PageTickers(ativos, busca)|
    ensures var quotes := PageQuotes(ativos, busca, answer, draws);
            && p.cotacoes.Keys + p.invalid.Keys == quotes.Keys
            && (forall k :: k in p.cotacoes ==> p.cotacoes[k] == quotes[k])
            && (forall k :: k in p.invalid ==> p.invalid[k] == quotes[k])
            && p.totalAtivos == |quotes|
    ensures p.cotacoes.Keys !! p.invalid.Keys
    ensures p.totalAtivos == |p.cotacoes| + |p.invalid|
    ensures forall k :: k in p.cotacoes ==> p.cotacoes[k].valid == Some(true)
    ensures forall k :: k in p.invalid ==> p.invalid[k].valid != Some(true)
    ensures busca != "" ==> p.searchQuery == Strip(Python, busca)
    ensures busca == "" ==> p.searchQuery == ""
  {
    var quotes := PageQuotes(ativos, busca, answer, draws);
    Partition(quotes);
    Page(ValidOnes(quotes), InvalidOnes(quotes), SelectTickers(ativos, busca).searchQuery, "", |quotes|)
  }

  /** With the provider down, `index` fetches a valid simulated quote for each
      requested ticker and nothing else. */
  lemma FallbackPage(ativos: string, busca: string, draws: seq<Draw>)
    requires |draws| == |PageTickers(ativos, busca)|
    ensures var quotes := PageQuotes(ativos, busca, Failed, draws);
            && quotes.Keys == (set t | t in PageTickers(ativos, busca))
            && forall k :: k in quotes ==> quotes[k].valid == Some(true)
  {
    var tickers := SelectTickers(ativos, busca).tickers;
    if tickers != [] {
      Fallback(tickers, draws);
    }
  }

  /** Without parameters, the page asks for the six default tickers. */
  lemma DefaultTickersAsked()
    ensures PageTickers("", "") == DefaultTickers
  {
    DefaultsNormal();
    assert SelectTickers("", "").tickers == DefaultTickers;
  }

  /** Without parameters and with the provider down, the page shows exactly the
      six default tickers, all valid. */
  lemma DefaultPage(draws: seq<Draw>)
    requires |draws| == |PageTickers("", "")|
    ensures PageTickers("", "") == DefaultTickers
    ensures Index("", "", Failed, draws).cotacoes.Keys == set t | t in DefaultTickers
    ensures Index("", "", Failed, draws).invalid == map[]
  {
    DefaultTickersAsked();
    FallbackPage("", "", draws);
    var quotes := PageQuotes("", "", Failed, draws);
    assert ValidOnes(quotes).Keys == quotes.Keys;
    assert InvalidOnes(quotes).Keys == {};
  }

  lemma DefaultsNormal()
    ensures Normalize(DefaultTickers) == DefaultTickers
  {
    assert forall i :: 0 <= i < |DefaultTickers| ==> AlnumWord(DefaultTickers[i]) by {
      assert AlnumWord("PETR4") && AlnumWord("VALE3") && AlnumWord("BBAS3");
      assert AlnumWord("ITUB4") && AlnumWord("BBDC4") && AlnumWord("ABEV3");
    }
    NormalizeAlnum(DefaultTickers);
  }

  /* ---------- The JSON endpoint ---------- */

  /** The reply of `api_cotacoes`. */
  datatype ApiReply = BadRequest(error: string, example: string) | Success(data: Quotes, total: nat)

  /** The HTTP status of a reply. */
  function Status(r: ApiReply): nat {
    if r.BadRequest? then 400 else 200
  }

  const MissingTickers := "Parâmetro tickers é obrigatório"
  const ExampleUrl := "/api/cotacoes?tickers=PETR4,VALE3,BBAS3"

  /** `api_cotacoes`: a 400 reply when the parameter is empty; otherwise the
      quotes of the split parameter and their count. */
  function ApiCotacoes(param: string, answer: Answer, draws: seq<Draw>): (r: ApiReply)
    requires answer.Failed? ==> |draws| == |Normalize(SplitTickers(param))|
    ensures param == "" <==> Status(r) == 400
    ensures r.Success? ==> r.data == GetCotacoes(SplitTickers(param), answer, draws)
    ensures r.Success? ==> r.total == |r.data|
  {
    if param == "" then BadRequest(MissingTickers, ExampleUrl)
    else
      var quotes := GetCotacoes(SplitTickers(param), answer, draws);
      Success(quotes, |quotes|)
  }

  /** An empty parameter gets the same fixed 400 reply whatever the provider
      would answer: nothing is fetched. */
  lemma MissingParameter(a1: Answer, d1: seq<Draw>, a2: Answer, d2: seq<Draw>)
    requires a1.Failed? ==> |d1| == |Normalize(SplitTickers(""))|
    requires a2.Failed? ==> |d2| == |Normalize(SplitTickers(""))|
    ensures ApiCotacoes("", a1, d1) == ApiCotacoes("", a2, d2)
    ensures ApiCotacoes("", a1, d1).BadRequest?
    ensures ApiCotacoes("", a1, d1).error == "Parâmetro tickers é obrigatório"
    ensures ApiCotacoes("", a1, d1).example == "/api/cotacoes?tickers=PETR4,VALE3,BBAS3"
  {
  }

  /** The endpoint and the page read a ticker list alike: the endpoint's data
      is exactly the page's valid and invalid quotes together. */
  lemma ApiMatchesPage(param: string, answer: Answer, draws: seq<Draw>)
    requires param != ""
    requires answer.Failed? ==> |draws| == |Normalize(SplitTickers(param))|
    ensures PageTickers(param, "") == Normalize(SplitTickers(param))
    ensures var data := ApiCotacoes(param, answer, draws).data;
            var page := Index(param, "", answer, draws);
            && data.Keys == page.cotacoes.Keys + page.invalid.Keys
            && (forall k :: k in data ==>
                  data[k] == if k in page.cotacoes then page.cotacoes[k] else page.invalid[k])
            && ApiCotacoes(param, answer, draws).total == page.totalAtivos
  {
    var quotes := GetCotacoes(SplitTickers(param), answer, draws);
    Partition(quotes);
    if SplitTickers(param) == [] {
      assert quotes == map[];
    }
  }

  /** The reply of the health check. */
  datatype HealthReply = HealthReply(status: string, service: string)

  /** `health`: always the same reply. */
  const Health := HealthReply("healthy", "cotacoes-api")
}

/** The simulated quotes the service falls back on when the provider cannot be
    reached (`get_cotacoes_simuladas`). The random numbers are parameters. */
module Simulator {
  import opened Options
  import opened Text
  import opened Decimal
  import opened Records

  /** A company of the fixed table: its ticker, long name, short name and base price. */
  datatype Company = Company(ticker: string, name: string, shortName: string, basePrice: real)

  /** The ten companies the simulator knows. */
  const Table: seq<Company> := [
    Company("PETR4", "Petróleo Brasileiro S.A. - Petrobras", "PETROBRAS PN", 32.50),
    Company("VALE3", "Vale S.A.", "VALE ON", 61.20),
    Company("BBAS3", "Banco do Brasil S.A.", "BANCO BRASIL ON", 28.45),
    Company("ITUB4", "Itaú Unibanco Holding S.A.", "ITAUUNIBANCO PN", 23.80),
    Company("BBDC4", "Banco Bradesco S.A.", "BRADESCO PN", 15.25),
    Company("ABEV3", "Ambev S.A.", "AMBEV ON", 12.65),
    Company("MGLU3", "Magazine Luiza S.A.", "MAGAZ LUIZA ON", 8.90),
    Company("WEGE3", "WEG S.A.", "WEG ON", 45.30),
    Company("RENT3", "Localiza Rent a Car S.A.", "LOCALIZA ON", 42.15),
    Company("LREN3", "Lojas Renner S.A.", "LOJAS RENNER ON", 18.75)
  ]

  /** The first company of `table` with ticker `t`. */
  function Find(t: string, table: seq<Company>): (r: Option<Company>)
    ensures r.Some? ==> r.value in table && r.value.ticker == t
    ensures r.None? ==> forall i :: 0 <= i < |table| ==> table[i].ticker != t
  {
    if table == [] then None
    else if table[0].ticker == t then Some(table[0])
    else Find(t, table[1..])
  }

  /** The table entry for ticker `t`, if the simulator knows it. */
  function Lookup(t: string): Option<Company> {
    Find(t, Table)
  }

  /** The random numbers one simulated quote consumes: a base price (drawn only
      for a ticker outside the table), a relative change and a market value. */
  datatype Draw = Draw(base: real, change: real, cap: int)

  /** The ranges `random.uniform` and `random.randint` draw from for ticker `t`. */
  predicate DrawFits(t: string, d: Draw) {
    if Lookup(t).Some? then
      && -0.05 <= d.change <= 0.05
      && 50_000_000_000 <= d.cap <= 500_000_000_000
    else
      && 10.0 <= d.base <= 100.0
      && -0.08 <= d.change <= 0.08
      && 10_000_000_000 <= d.cap <= 200_000_000_000
  }

  /** One draw per ticker, each in the ranges for its upper-cased ticker. */
  predicate DrawsFit(tickers: seq<string>, draws: seq<Draw>) {
    && |draws| == |tickers|
    && forall i :: 0 <= i < |tickers| ==> DrawFits(Upper(tickers[i]), draws[i])
  }

  /** The previous close of a simulated quote: the table's base price, or the drawn one. */
  function BasePrice(t: string, d: Draw): real {
    if Lookup(t).Some? then Lookup(t).value.basePrice else d.base
  }

  /** `base` moved by the relative change `change`. */
  function Moved(base: real, change: real): real {
    base * (1.0 + change)
  }

  /** A relative change in percent. */
  function Percent(change: real): real {
    change * 100.0
  }

  /** The short name of a simulated quote: the table's, or a generic one. */
  function ShortName(t: string): string {
    if Lookup(t).Some? then Lookup(t).value.shortName else t + " SIMULADO"
  }

  /** The long name of a simulated quote: the table's, or a generic one. */
  function LongName(t: string): string {
    if Lookup(t).Some? then Lookup(t).value.name else "Empresa Simulada " + t
  }

  /** The simulated quote for the upper-cased ticker `t`: valid, in reais, priced
      at the base moved by the drawn change and rounded to cents, with the change
      in percent rounded to two places. */
  function SimRecord(t: string, d: Draw): (q: Quote)
    ensures q.symbol == t && q.valid == Some(true) && q.error == None
    ensures q.currency == Some(Brl) && q.marketCap == Some(d.cap)
    ensures q.previousClose == Some(BasePrice(t, d))
    ensures q.price.Some? && Abs(q.price.value - Moved(BasePrice(t, d), d.change)) <= 0.005
    ensures q.changePercent.places == 2 && Abs(Value(q.changePercent) - Percent(d.change)) <= 0.005
    ensures q.changePercent.negative == (Percent(d.change) < 0.0)
  {
    var base := BasePrice(t, d);
    Quote(
      symbol := t,
      shortName := Some(ShortName(t)),
      longName := Some(LongName(t)),
      price := Some(Value(Round2(Moved(base, d.change)))),
      currency := Some(Brl),
      marketCap := Some(d.cap),
      changePercent := Round2(Percent(d.change)),
      previousClose := Some(base),
      valid := Some(true),
      error := None)
  }

  /** `get_cotacoes_simuladas`: one simulated quote per ticker, keyed by the
      upper-cased ticker; a ticker repeated later overwrites the earlier quote. */
  function Simulate(tickers: seq<string>, draws: seq<Draw>): Quotes
    requires |draws| == |tickers|
    decreases |tickers|
  {
    if tickers == [] then map[]
    else
      var n := |tickers| - 1;
      Simulate(tickers[..n], draws[..n])[Upper(tickers[n]) := SimRecord(Upper(tickers[n]), draws[n])]
  }

  /** The keys are exactly the upper-cased tickers. */
  lemma {:induction false} SimulateKeys(tickers: seq<string>, draws: seq<Draw>)
    requires |draws| == |tickers|
    ensures forall k :: k in Simulate(tickers, draws) <==> exists i :: 0 <= i < |tickers| && Upper(tickers[i]) == k
    decreases |tickers|
  {
    if tickers != [] {
      var n := |tickers| - 1;
      var ts, ds := tickers[..n], draws[..n];
      SimulateKeys(ts, ds);
      assert Simulate(tickers, draws) == Simulate(ts, ds)[Upper(tickers[n]) := SimRecord(Upper(tickers[n]), draws[n])];
      forall k | k in Simulate(tickers, draws)
        ensures exists i :: 0 <= i < |tickers| && Upper(tickers[i]) == k
      {
        if k != Upper(tickers[n]) {
          var i :| 0 <= i < n && Upper(ts[i]) == k;
          assert ts[i] == tickers[i];
        }
      }
      forall k | exists i :: 0 <= i < |tickers| && Upper(tickers[i]) == k
        ensures k in Simulate(tickers, draws)
      {
        var i :| 0 <= i < |tickers| && Upper(tickers[i]) == k;
        if i < n {
          assert ts[i] == tickers[i];
        }
      }
    }
  }

  /** The quote under a key is the one simulated for the last ticker with that key. */
  lemma {:induction false} SimulateLast(tickers: seq<string>, draws: seq<Draw>, i: nat)
    requires |draws| == |tickers| && i < |tickers|
    requires forall j :: i < j < |tickers| ==> Upper(tickers[j]) != Upper(tickers[i])
    ensures Upper(tickers[i]) in Simulate(tickers, draws)
    ensures Simulate(tickers, draws)[Upper(tickers[i])] == SimRecord(Upper(tickers[i]), draws[i])
    decreases |tickers|
  {
    var n := |tickers| - 1;
    var k := Upper(tickers[i]);
    if i < n {
      var ts, ds := tickers[..n], draws[..n];
      assert ts[i] == tickers[i] && ds[i] == draws[i];
      forall j | i < j < n ensures Upper(ts[j]) != Upper(ts[i]) {
        assert ts[j] == tickers[j];
      }
      SimulateLast(ts, ds, i);
      assert Upper(tickers[n]) != k;
    }
  }

  /** Every simulated quote is the one built from some ticker's own draw. */
  lemma {:induction false} SimulateFrom(tickers: seq<string>, draws: seq<Draw>, k: string) returns (i: nat)
    requires |draws| == |tickers| && k in Simulate(tickers, draws)
    ensures i < |tickers| && Upper(tickers[i]) == k
    ensures Simulate(tickers, draws)[k] == SimRecord(k, draws[i])
    decreases |tickers|
  {
    var n := |tickers| - 1;
    if Upper(tickers[n]) == k {
      i := n;
    } else {
      i := SimulateFrom(tickers[..n], draws[..n], k);
      assert tickers[..n][i] == tickers[i];
    }
  }

  /** The promises of the simulator for well-ranged draws: every quote is valid
      and in reais; a known ticker carries the table's names, closes at the
      table's price and is worth 50 to 500 billion; any other ticker carries the
      generic names, closes between 10 and 100 and is worth 10 to 200 billion. */
  lemma SimulatedQuotes(tickers: seq<string>, draws: seq<Draw>, k: string)
    requires DrawsFit(tickers, draws) && k in Simulate(tickers, draws)
    ensures var q := Simulate(tickers, draws)[k];
            && q.symbol == k && q.valid == Some(true) && q.currency == Some(Brl)
            && q.marketCap.Some? && q.previousClose.Some?
            && (Lookup(k).Some? ==>
                  && q.shortName == Some(Lookup(k).value.shortName)
                  && q.longName == Some(Lookup(k).value.name)
                  && q.previousClose.value == Lookup(k).value.basePrice
                  && 50_000_000_000 <= q.marketCap.value <= 500_000_000_000)
            && (Lookup(k).None? ==>
                  && q.shortName == Some(k + " SIMULADO")
                  && q.longName == Some("Empresa Simulada " + k)
                  && 10.0 <= q.previousClose.value <= 100.0
                  && 10_000_000_000 <= q.marketCap.value <= 200_000_000_000)
  {
    var i := SimulateFrom(tickers, draws, k);
    assert DrawFits(Upper(tickers[i]), draws[i]);
  }
}

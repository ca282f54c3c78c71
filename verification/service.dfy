/** `get_cotacoes`: normalises the requested tickers, asks the quote provider
    for them and merges its answer with "not found" records, or falls back on
    the simulator when the provider cannot be reached. */
module Service {
  import opened Options
  import opened Text
  import opened Decimal
  import opened Records
  import opened Simulator

  /* ---------- Ticker normalisation ---------- */

  /** Python's `not ticker.strip()`: the ticker is empty or all whitespace. */
  predicate Blank(t: string)
  {
    Strip(Python, t) == ""
  }

  /** `ticker.strip().upper()`. */
  function Key(t: string): string {
    Upper(Strip(Python, t))
  }

  /** `ticker.strip().upper()` for every ticker that is not blank, in order,
      duplicates kept. */
  function Normalize(tickers: seq<string>): (r: seq<string>)
    ensures |r| <= |tickers|
    decreases |tickers|
  {
    if tickers == [] then []
    else
      (if Blank(tickers[0]) then [] else [Key(tickers[0])]) + Normalize(tickers[1..])
  }

  /** Normalisation works ticker by ticker: it distributes over concatenation. */
  lemma {:induction false} NormalizeAppend(a: seq<string>, b: seq<string>)
    ensures Normalize(a + b) == Normalize(a) + Normalize(b)
    decreases |a|
  {
    if a == [] {
      assert a + b == b;
    } else {
      var head := if Blank(a[0]) then [] else [Key(a[0])];
      assert Normalize(a + b) == head + Normalize(a[1..] + b) by {
        assert (a + b)[0] == a[0] && (a + b)[1..] == a[1..] + b;
      }
      assert Normalize(a[1..] + b) == Normalize(a[1..]) + Normalize(b) by {
        NormalizeAppend(a[1..], b);
      }
      assert Normalize(a) == head + Normalize(a[1..]);
      AppendAssoc(head, Normalize(a[1..]), Normalize(b));
    }
  }

  /** A single ticker is dropped when blank, and otherwise stripped and upper-cased. */
  lemma NormalizeOne(t: string)
    ensures Normalize([t]) == if Blank(t) then [] else [Key(t)]
  {
    assert [t][1..] == [];
  }

  /** A ticker is blank exactly when it is all whitespace. */
  lemma BlankIff(t: string)
    ensures Blank(t) <==> AllSpace(Python, t)
  {
    StripSpec(Python, t);
  }

  /** Nothing is left exactly when every ticker is blank. */
  lemma {:induction false} NormalizeNone(tickers: seq<string>)
    ensures Normalize(tickers) == [] <==> forall i :: 0 <= i < |tickers| ==> Blank(tickers[i])
    decreases |tickers|
  {
    if tickers != [] {
      var rest := tickers[1..];
      NormalizeNone(rest);
      assert forall i :: 0 <= i < |rest| ==> rest[i] == tickers[i + 1];
      if forall i :: 0 <= i < |tickers| ==> Blank(tickers[i]) {
        assert forall i :: 0 <= i < |rest| ==> Blank(rest[i]);
      }
      if Normalize(tickers) == [] {
        forall i | 0 <= i < |tickers| ensures Blank(tickers[i]) {
          if i > 0 {
            assert tickers[i] == rest[i - 1];
          }
        }
      }
    }
  }

  /** Nothing is left exactly when every ticker is empty or all whitespace. */
  lemma NormalizeEmpty(tickers: seq<string>)
    ensures Normalize(tickers) == [] <==> forall i :: 0 <= i < |tickers| ==> AllSpace(Python, tickers[i])
  {
    NormalizeNone(tickers);
    forall i | 0 <= i < |tickers| ensures Blank(tickers[i]) <==> AllSpace(Python, tickers[i]) {
      BlankIff(tickers[i]);
    }
  }

  /** A normalised ticker: not empty, upper-case, without surrounding whitespace. */
  predicate Clean(t: string) {
    t != "" && Upper(t) == t && Strip(Python, t) == t
  }

  /** Every normalised ticker comes from a non-blank input ticker, stripped and upper-cased. */
  lemma {:induction false} NormalizeFrom(tickers: seq<string>, k: nat) returns (i: nat)
    requires k < |Normalize(tickers)|
    ensures i < |tickers| && !Blank(tickers[i]) && Normalize(tickers)[k] == Key(tickers[i])
    decreases |tickers|
  {
    var rest := tickers[1..];
    var head := if Blank(tickers[0]) then [] else [Key(tickers[0])];
    assert Normalize(tickers) == head + Normalize(rest);
    if k < |head| {
      i := 0;
    } else {
      assert Normalize(tickers)[k] == Normalize(rest)[k - |head|];
      var j := NormalizeFrom(rest, k - |head|);
      assert rest[j] == tickers[j + 1];
      i := j + 1;
    }
  }

  /** Every normalised ticker is clean. */
  lemma NormalizeClean(tickers: seq<string>, k: nat)
    requires k < |Normalize(tickers)|
    ensures Clean(Normalize(tickers)[k])
  {
    var i := NormalizeFrom(tickers, k);
    CleanUpperStrip(tickers[i]);
  }

  /** Every non-blank input ticker is represented among the normalised ones. */
  lemma {:induction false} NormalizeKeeps(tickers: seq<string>, i: nat)
    requires i < |tickers| && !Blank(tickers[i])
    ensures Key(tickers[i]) in Normalize(tickers)
    decreases |tickers|
  {
    var rest := tickers[1..];
    var head := if Blank(tickers[0]) then [] else [Key(tickers[0])];
    assert Normalize(tickers) == head + Normalize(rest);
    if i == 0 {
      assert Normalize(tickers)[0] == Key(tickers[0]);
    } else {
      assert Key(tickers[i]) in Normalize(rest) by {
        assert rest[i - 1] == tickers[i];
        NormalizeKeeps(rest, i - 1);
      }
    }
  }

  lemma CleanUpperStrip(t: string)
    requires !Blank(t)
    ensures Clean(Key(t))
  {
    var s := Strip(Python, t);
    UpperIdempotent(s);
    StripUpper(Python, s);
    StripIdempotent(Python, t);
  }

  /** With no blank ticker, normalisation strips and upper-cases every ticker
      in place. */
  lemma {:induction false} NormalizeNoBlank(tickers: seq<string>)
    requires forall i :: 0 <= i < |tickers| ==> !Blank(tickers[i])
    ensures |Normalize(tickers)| == |tickers|
    ensures forall i :: 0 <= i < |tickers| ==> Normalize(tickers)[i] == Key(tickers[i])
    decreases |tickers|
  {
    if tickers != [] {
      var rest := tickers[1..];
      forall i | 0 <= i < |rest| ensures !Blank(rest[i]) {
        assert rest[i] == tickers[i + 1];
      }
      NormalizeNoBlank(rest);
      assert Normalize(tickers) == [Key(tickers[0])] + Normalize(rest);
      forall i | 0 < i < |tickers| ensures Normalize(tickers)[i] == Key(tickers[i]) {
        assert tickers[i] == rest[i - 1];
      }
    }
  }

  /** A non-empty word of capital letters and digits. */
  predicate AlnumWord(t: string) {
    t != "" && forall k :: 0 <= k < |t| ==> IsAlnum(t[k])
  }

  /** Tickers made of capital letters and digits are already normalised. */
  lemma NormalizeAlnum(tickers: seq<string>)
    requires forall i :: 0 <= i < |tickers| ==> AlnumWord(tickers[i])
    ensures Normalize(tickers) == tickers
  {
    forall i | 0 <= i < |tickers| ensures !Blank(tickers[i]) && Key(tickers[i]) == tickers[i] {
      AlnumFixed(Python, tickers[i]);
    }
    NormalizeNoBlank(tickers);
  }

  /** Normalising twice is normalising once. */
  lemma {:induction false} NormalizeIdempotent(tickers: seq<string>)
    ensures Normalize(Normalize(tickers)) == Normalize(tickers)
    decreases |tickers|
  {
    if tickers != [] {
      var t := tickers[0];
      var head := if Blank(t) then [] else [Key(t)];
      NormalizeIdempotent(tickers[1..]);
      NormalizeAppend(head, Normalize(tickers[1..]));
      if !Blank(t) {
        CleanUpperStrip(t);
        NormalizeOne(Key(t));
      }
    }
  }

  /* ---------- The provider's answer ---------- */

  /** One entry of the provider's `results` list. A missing `symbol` reads as "". */
  datatype ProviderItem = ProviderItem(
    symbol: Option<string>,
    shortName: Field<string>,
    longName: Field<string>,
    price: Field<real>,
    currency: Field<string>,
    marketCap: Field<int>,
    previousClose: Field<real>)

  /** What the provider call produced: a decoded `results` list (empty when the
      key is missing, null or empty), or a failure of any kind. */
  datatype Answer = Answered(results: seq<ProviderItem>) | Failed

  /** The key a provider entry is stored under. */
  function ItemKey(item: ProviderItem): string {
    item.symbol.GetOr("")
  }

  /** Python truthiness of an optional number: present and not zero. */
  predicate Truthy(f: Field<real>) {
    f.Present? && f.value != 0.0
  }

  /** The relative move from `prev` to `price`, in percent. */
  function Growth(price: real, prev: real): real
    requires prev != 0.0
  {
    (price - prev) / prev * 100.0
  }

  /** The sign bit of the float `(price - prev) / prev * 100`. A non-zero result
      carries its own sign. A zero one comes from `price - prev == +0.0`, and
      IEEE 754 division gives it the sign of the divisor: when the previous
      close is negative, the move is a negative zero. */
  predicate GrowthNegative(price: real, prev: real)
    requires prev != 0.0
  {
    var g := Growth(price, prev);
    g < 0.0 || (g == 0.0 && prev < 0.0)
  }

  /** The change of a provider entry: the move from the previous close to the
      price, in percent and rounded to two places, when both are non-zero;
      otherwise the integer 0, which `round` leaves an integer. `round` keeps
      the sign bit of its argument, so a zero move over a negative previous
      close is shown as "-0.00%". */
  function ChangePercent(item: ProviderItem): (r: Fixed)
    ensures Truthy(item.previousClose) && Truthy(item.price) ==>
              var (price, prev) := (item.price.value, item.previousClose.value);
              var g := Growth(price, prev);
              && r.places == 2 && Abs(Value(r) - g) <= 0.005
              && r.negative == GrowthNegative(price, prev)
    ensures !(Truthy(item.previousClose) && Truthy(item.price)) ==> r == Fixed(false, 0, 0)
  {
    if Truthy(item.previousClose) && Truthy(item.price) then
      var (price, prev) := (item.price.value, item.previousClose.value);
      var f := Round2(Growth(price, prev));
      Fixed(GrowthNegative(price, prev), f.units, f.places)
    else Fixed(false, 0, 0)
  }

  /** A price equal to a negative previous close is a change of negative zero. */
  lemma ChangeNegativeZero()
    ensures var item := ProviderItem(Some("X"), Absent, Absent, Present(-5.0), Absent, Absent, Present(-5.0));
            ChangePercent(item) == Fixed(true, 0, 2)
  {
    var item := ProviderItem(Some("X"), Absent, Absent, Present(-5.0), Absent, Absent, Present(-5.0));
    var f := Round2(Growth(-5.0, -5.0));
    assert Growth(-5.0, -5.0) == 0.0;
    Round2Zero(0.0);
  }

  /** `r` is what `dict.get` with default `default` reads from the field `f`:
      the value when present, `None` when null, the default when missing. */
  predicate ReadsAs<T(==)>(f: Field<T>, default: Option<T>, r: Option<T>) {
    && (f.Present? ==> r == Some(f.value))
    && (f.Null? ==> r == None)
    && (f.Absent? ==> r == default)
  }

  /** The record built from a provider entry: the short name falls back to the
      symbol, the long name to the short name and then the symbol, the price to
      0 and the currency to "BRL"; market value and previous close are copied,
      null or missing alike reading as `None`. */
  function ProviderRecord(item: ProviderItem): (q: Quote)
    ensures q.symbol == ItemKey(item) && q.valid == Some(true) && q.error == None
    ensures ReadsAs(item.shortName, Some(ItemKey(item)), q.shortName)
    ensures item.shortName.Absent? ==> q.shortName == Some(q.symbol)
    ensures item.longName.Present? ==> q.longName == Some(item.longName.value)
    ensures item.longName.Null? ==> q.longName == None
    ensures item.longName.Absent? ==> q.longName == q.shortName
    ensures ReadsAs(item.price, Some(0.0), q.price)
    ensures ReadsAs(item.currency, Some(Brl), q.currency)
    ensures ReadsAs(item.marketCap, None, q.marketCap)
    ensures ReadsAs(item.previousClose, None, q.previousClose)
    ensures q.changePercent == ChangePercent(item)
  {
    var key := ItemKey(item);
    Quote(
      symbol := key,
      shortName := item.shortName.GetOr(Some(key)),
      longName := item.longName.GetOr(item.shortName.GetOr(Some(key))),
      price := item.price.GetOr(Some(0.0)),
      currency := item.currency.GetOr(Some(Brl)),
      marketCap := item.marketCap.Get(),
      changePercent := ChangePercent(item),
      previousClose := item.previousClose.Get(),
      valid := Some(true),
      error := None)
  }

  /** The record of a requested ticker the provider did not return. */
  function NotFoundRecord(t: string): Quote {
    Quote(
      symbol := t,
      shortName := Some(t),
      longName := Some("Ativo não encontrado: " + t),
      price := Some(0.0),
      currency := Some(Brl),
      marketCap := None,
      changePercent := Fixed(false, 0, 0),
      previousClose := Some(0.0),
      valid := Some(false),
      error := Some("Ativo não encontrado"))
  }

  /** The provider entries stored in order under their own symbols; a later
      entry with the same symbol overwrites an earlier one. */
  function AddProviderRecords(items: seq<ProviderItem>): Quotes
    decreases |items|
  {
    if items == [] then map[]
    else
      var n := |items| - 1;
      AddProviderRecords(items[..n])[ItemKey(items[n]) := ProviderRecord(items[n])]
  }

  /** The keys are exactly the entries' symbols. */
  lemma {:induction false} ProviderKeys(items: seq<ProviderItem>)
    ensures forall k :: k in AddProviderRecords(items) <==> exists i :: 0 <= i < |items| && ItemKey(items[i]) == k
    decreases |items|
  {
    if items != [] {
      var n := |items| - 1;
      var its := items[..n];
      ProviderKeys(its);
      assert AddProviderRecords(items) == AddProviderRecords(its)[ItemKey(items[n]) := ProviderRecord(items[n])];
      forall k | k in AddProviderRecords(items)
        ensures exists i :: 0 <= i < |items| && ItemKey(items[i]) == k
      {
        if k != ItemKey(items[n]) {
          var i :| 0 <= i < n && ItemKey(its[i]) == k;
          assert its[i] == items[i];
        }
      }
      forall k | exists i :: 0 <= i < |items| && ItemKey(items[i]) == k
        ensures k in AddProviderRecords(items)
      {
        var i :| 0 <= i < |items| && ItemKey(items[i]) == k;
        if i < n {
          assert its[i] == items[i];
        }
      }
    }
  }

  /** The record under a symbol is built from the last entry with that symbol. */
  lemma {:induction false} ProviderLast(items: seq<ProviderItem>, i: nat)
    requires i < |items|
    requires forall j :: i < j < |items| ==> ItemKey(items[j]) != ItemKey(items[i])
    ensures ItemKey(items[i]) in AddProviderRecords(items)
    ensures AddProviderRecords(items)[ItemKey(items[i])] == ProviderRecord(items[i])
    decreases |items|
  {
    var n := |items| - 1;
    var its := items[..n];
    var key := ItemKey(items[i]);
    assert AddProviderRecords(items) == AddProviderRecords(its)[ItemKey(items[n]) := ProviderRecord(items[n])];
    if i < n {
      assert key in AddProviderRecords(its) && AddProviderRecords(its)[key] == ProviderRecord(items[i]) by {
        assert its[i] == items[i];
        forall j | i < j < n ensures ItemKey(its[j]) != ItemKey(its[i]) {
          assert its[j] == items[j];
        }
        ProviderLast(its, i);
      }
      assert ItemKey(items[n]) != key;
    }
  }

  /** Every stored provider record is valid and built from an entry with its symbol. */
  lemma {:induction false} ProviderFrom(items: seq<ProviderItem>, k: string) returns (i: nat)
    requires k in AddProviderRecords(items)
    ensures i < |items| && ItemKey(items[i]) == k
    ensures AddProviderRecords(items)[k] == ProviderRecord(items[i])
    ensures AddProviderRecords(items)[k].valid == Some(true)
    decreases |items|
  {
    var n := |items| - 1;
    if ItemKey(items[n]) == k {
      i := n;
    } else {
      i := ProviderFrom(items[..n], k);
      assert items[..n][i] == items[i];
    }
  }

  /** Adds a "not found" record for every requested ticker without one, and
      never replaces a record already present. */
  function FillNotFound(result: Quotes, clean: seq<string>): (r: Quotes)
    ensures forall k :: k in r <==> k in result || k in clean
    ensures forall k :: k in result ==> r[k] == result[k]
    ensures forall k :: k in r && k !in result ==> r[k] == NotFoundRecord(k)
    decreases |clean|
  {
    if clean == [] then result
    else
      var t := clean[0];
      var next := if t in result then result else result[t := NotFoundRecord(t)];
      FillNotFound(next, clean[1..])
  }

  /* ---------- get_cotacoes ---------- */

  /** `get_cotacoes(tickers)` with the provider's answer and the simulator's
      random draws as parameters: an empty map when no ticker is left after
      normalisation; the provider records completed with "not found" records
      when the provider answered; the simulated quotes otherwise. */
  function GetCotacoes(tickers: seq<string>, answer: Answer, draws: seq<Draw>): (r: Quotes)
    requires answer.Failed? ==> |draws| == |Normalize(tickers)|
    ensures Normalize(tickers) == [] ==> r == map[]
  {
    if tickers == [] then map[]
    else
      var clean := Normalize(tickers);
      if clean == [] then map[]
      else
        match answer
        case Failed => Simulate(clean, draws)
        case Answered(results) => FillNotFound(AddProviderRecords(results), clean)
  }

  /** With every ticker blank nothing is left to ask for, and the result is
      empty whatever the provider would have answered: it is never consulted. */
  lemma BlankNeverAsks(tickers: seq<string>, answer: Answer)
    requires forall i :: 0 <= i < |tickers| ==> AllSpace(Python, tickers[i])
    ensures Normalize(tickers) == [] && GetCotacoes(tickers, answer, []) == map[]
  {
    NormalizeEmpty(tickers);
  }

  /** When the provider answers, every requested ticker has a record; the keys
      are the requested tickers and the provider's own symbols; a requested
      ticker the provider did not return gets the "not found" record, and every
      provider record is valid. */
  lemma ProviderAnswered(tickers: seq<string>, results: seq<ProviderItem>, draws: seq<Draw>)
    requires Normalize(tickers) != []
    ensures var r := GetCotacoes(tickers, Answered(results), draws);
            && (forall k :: k in r <==> k in Normalize(tickers) || k in AddProviderRecords(results))
            && (forall k :: k in AddProviderRecords(results) ==> r[k] == AddProviderRecords(results)[k])
            && (forall k :: k in r ==> (r[k].valid == Some(true) <==> k in AddProviderRecords(results)))
            && (forall k :: k in r && k !in AddProviderRecords(results) ==> r[k] == NotFoundRecord(k))
  {
    var provided := AddProviderRecords(results);
    forall k | k in provided ensures provided[k].valid == Some(true) {
      var _ := ProviderFrom(results, k);
    }
  }

  /** A requested ticker is reported as found exactly when some provider entry
      carries it as its symbol. */
  lemma AnsweredFound(tickers: seq<string>, results: seq<ProviderItem>, draws: seq<Draw>, t: string)
    requires t in Normalize(tickers)
    ensures var r := GetCotacoes(tickers, Answered(results), draws);
            && t in r
            && (r[t].valid == Some(true) <==> exists i :: 0 <= i < |results| && ItemKey(results[i]) == t)
  {
    ProviderAnswered(tickers, results, draws);
    ProviderKeys(results);
  }

  /** When the provider fails, the keys are exactly the normalised tickers and
      every record is a valid simulated quote in reais. */
  lemma Fallback(tickers: seq<string>, draws: seq<Draw>)
    requires |draws| == |Normalize(tickers)|
    ensures var r := GetCotacoes(tickers, Failed, draws);
            && (forall k :: k in r <==> k in Normalize(tickers))
            && (forall k :: k in r ==> r[k].valid == Some(true) && r[k].currency == Some(Brl))
  {
    var clean := Normalize(tickers);
    if clean != [] {
      var r := GetCotacoes(tickers, Failed, draws);
      assert r == Simulate(clean, draws);
      SimulateKeys(clean, draws);
      forall k | k in r ensures k in clean {
        var i :| 0 <= i < |clean| && Upper(clean[i]) == k;
        NormalizeClean(tickers, i);
      }
      forall k | k in clean ensures k in r {
        var i :| 0 <= i < |clean| && clean[i] == k;
        NormalizeClean(tickers, i);
        assert Upper(clean[i]) == k;
      }
      forall k | k in r ensures r[k].valid == Some(true) && r[k].currency == Some(Brl) {
        var _ := SimulateFrom(clean, draws, k);
      }
    }
  }
}

/** The two helpers of the page's script that repeat server logic in the
    browser: `validateTickerInput`, the live check of the ticker field, and
    `formatPercentage`, the change badge of a refreshed card. */
module Client {
  import opened Options
  import opened Text
  import opened Decimal
  import opened Service
  import opened Handlers
  import opened Formatters

  /** The pattern `^[A-Z0-9]{3,6}$`: three to six capital letters or digits. */
  predicate IsTicker(t: string) {
    3 <= |t| <= 6 && forall i :: 0 <= i < |t| ==> IsAlnum(t[i])
  }

  /** One comma-separated piece as the validator reads it: `t.trim().toUpperCase()`. */
  function Piece(p: string): string {
    Upper(Strip(JavaScript, p))
  }

  /** Every piece reads as a ticker. */
  predicate AllTickers(parts: seq<string>) {
    forall i :: 0 <= i < |parts| ==> IsTicker(Piece(parts[i]))
  }

  /** `validateTickerInput(input)`: an empty field is accepted; otherwise every
      comma-separated piece must read as a ticker. */
  function ValidateTickerInput(input: string): bool {
    input == "" || AllTickers(Split(input, ','))
  }

  /** A string is at least as long as the first piece it was joined from. */
  lemma JoinLength(parts: seq<string>, sep: char)
    requires |parts| >= 1
    ensures |Join(parts, sep)| >= |parts[0]|
  {
  }

  /** The pieces of two lists are accepted together exactly when each list's are. */
  lemma AllTickersAppend(a: seq<string>, b: seq<string>)
    ensures AllTickers(a + b) <==> AllTickers(a) && AllTickers(b)
  {
    assert forall i :: 0 <= i < |a| ==> (a + b)[i] == a[i];
    assert forall i :: 0 <= i < |b| ==> (a + b)[|a| + i] == b[i];
  }

  /** The pieces as the validator reads them, in order. */
  function Pieces(parts: seq<string>): (r: seq<string>)
    ensures |r| == |parts|
  {
    seq(|parts|, i requires 0 <= i < |parts| => Piece(parts[i]))
  }

  /** Without a comma the input is one piece: it is accepted exactly when it
      is empty or reads as a ticker, so seven characters are refused. */
  lemma ValidateSingle(s: string)
    requires ',' !in s
    ensures ValidateTickerInput(s) <==> s == "" || IsTicker(Piece(s))
  {
    SplitNoSep(s, ',');
    assert [s][0] == s;
  }

  /** Two non-empty inputs joined by a comma are accepted exactly when both are. */
  lemma ValidateJoin(a: string, b: string)
    requires a != "" && b != ""
    ensures ValidateTickerInput(a + "," + b) <==> ValidateTickerInput(a) && ValidateTickerInput(b)
  {
    assert a + "," + b == a + [','] + b;
    SplitConcat(a, b, ',');
    AllTickersAppend(Split(a, ','), Split(b, ','));
  }

  /** A leading or a trailing comma leaves an empty piece: always refused. */
  lemma ValidateEdgeComma(s: string)
    ensures !ValidateTickerInput(s + ",")
    ensures !ValidateTickerInput("," + s)
  {
    assert Split("", ',') == [""];
    assert Piece("") == "";
    assert [""][0] == "" && !IsTicker(Piece([""][0]));
    assert s + "," == s + [','] + "";
    SplitConcat(s, "", ',');
    AllTickersAppend(Split(s, ','), [""]);
    assert "," + s == "" + [','] + s;
    SplitConcat("", s, ',');
    AllTickersAppend([""], Split(s, ','));
  }

  /** Two commas in a row leave an empty piece: always refused. */
  lemma ValidateDoubleComma(a: string, b: string)
    ensures !ValidateTickerInput(a + ",," + b)
  {
    SplitConcat(a, "," + b, ',');
    assert a + ",," + b == a + [','] + ("," + b);
    SplitConcat("", b, ',');
    assert "," + b == "" + [','] + b;
    assert Piece("") == "";
    var l := Split(a, ',') + ([""] + Split(b, ','));
    assert !IsTicker(Piece(l[|Split(a, ',')|]));
  }

  /** The validator ignores case: a field and its upper-cased form get the
      same verdict. */
  lemma ValidateUpper(s: string)
    ensures ValidateTickerInput(Upper(s)) == ValidateTickerInput(s)
  {
    SplitUpper(s, ',');
    var parts, uparts := Split(s, ','), Split(Upper(s), ',');
    forall i | 0 <= i < |parts| ensures Piece(uparts[i]) == Piece(parts[i]) {
      StripUpper(JavaScript, parts[i]);
      UpperIdempotent(Strip(JavaScript, parts[i]));
    }
  }

  /** A comma-separated list of tickers is accepted: the tickers the server
      would show can always be typed back in. */
  lemma {:induction false} ValidateTickers(tickers: seq<string>)
    requires |tickers| >= 1
    requires forall i :: 0 <= i < |tickers| ==> IsTicker(tickers[i])
    ensures ValidateTickerInput(Join(tickers, ','))
  {
    forall i | 0 <= i < |tickers| ensures ',' !in tickers[i] && Piece(tickers[i]) == tickers[i] {
      AlnumFixed(JavaScript, tickers[i]);
    }
    SplitJoin(tickers, ',');
    JoinLength(tickers, ',');
  }

  /** A piece that reads as a ticker and holds no U+FEFF reaches the service
      as the same ticker: Python's `strip().upper()` agrees with the script. */
  lemma PieceKey(p: string)
    requires '\U{FEFF}' !in p && IsTicker(Piece(p))
    ensures !Blank(p) && Key(p) == Piece(p)
  {
    var r := Strip(JavaScript, p);
    var u := Upper(r);
    assert u[0] == UpperChar(r[0]) && u[|u| - 1] == UpperChar(r[|r| - 1]);
    UpperCharSpace(Python, r[0]);
    UpperCharSpace(Python, r[|r| - 1]);
    AlnumNotSpace(Python, u[0]);
    AlnumNotSpace(Python, u[|u| - 1]);
    StripAgree(p);
  }

  /** Pieces that read as tickers and hold no U+FEFF are normalised by the
      service into exactly the pieces the script checked. */
  lemma NormalizePieces(parts: seq<string>)
    requires forall i :: 0 <= i < |parts| ==> '\U{FEFF}' !in parts[i]
    requires AllTickers(parts)
    ensures Normalize(parts) == Pieces(parts)
  {
    forall i | 0 <= i < |parts| ensures !Blank(parts[i]) && Key(parts[i]) == Piece(parts[i]) {
      PieceKey(parts[i]);
    }
    NormalizeNoBlank(parts);
  }

  /** An input the script accepts, and that holds no U+FEFF, is fetched by the
      server as exactly the tickers the script checked, in order. */
  lemma AcceptedReachServer(s: string)
    requires s != "" && '\U{FEFF}' !in s && ValidateTickerInput(s)
    ensures Normalize(SplitTickers(s)) == Pieces(Split(s, ','))
    ensures forall i :: 0 <= i < |Split(s, ',')| ==> IsTicker(Normalize(SplitTickers(s))[i])
  {
    SplitWithout(s, ',', '\U{FEFF}');
    NormalizeStripDrop(Split(s, ','));
    NormalizePieces(Split(s, ','));
  }

  /** U+FEFF is trimmed by the script but not by the server: the script
      accepts a ticker behind it and checks the bare ticker, while the server
      asks the provider for the ticker with the U+FEFF still in front. */
  lemma ByteOrderMarkDiffers(t: string)
    requires IsTicker(t)
    ensures Piece("\U{FEFF}" + t) == t && ValidateTickerInput("\U{FEFF}" + t)
    ensures Normalize(SplitTickers("\U{FEFF}" + t)) == ["\U{FEFF}" + t]
  {
    var s := "\U{FEFF}" + t;
    assert ',' !in s by {
      forall k | 0 <= k < |s| ensures s[k] != ',' {
        if k > 0 {
          assert s[k] == t[k - 1];
        }
      }
    }
    ByteOrderMarkTrimmed(t);
    ValidateSingle(s);
    ByteOrderMarkKept(t);
    SplitNoSep(s, ',');
    assert [s][1..] == [];
    assert SplitTickers(s) == [s];
    NormalizeOne(s);
  }

  lemma ByteOrderMarkTrimmed(t: string)
    requires IsTicker(t)
    ensures Strip(JavaScript, "\U{FEFF}" + t) == t && Piece("\U{FEFF}" + t) == t
  {
    var s := "\U{FEFF}" + t;
    assert IsSpace(JavaScript, s[0]);
    AlnumNotSpace(JavaScript, t[0]);
    AlnumFixed(JavaScript, t);
    assert s[1..] == t;
    assert TrimStart(JavaScript, t) == t;
  }

  lemma ByteOrderMarkKept(t: string)
    requires IsTicker(t)
    ensures Strip(Python, "\U{FEFF}" + t) == "\U{FEFF}" + t && Key("\U{FEFF}" + t) == "\U{FEFF}" + t
  {
    var s := "\U{FEFF}" + t;
    assert !IsSpace(Python, s[0]);
    AlnumNotSpace(Python, t[|t| - 1]);
    assert s[|s| - 1] == t[|t| - 1];
    assert TrimStart(Python, s) == s;
    AlnumFixed(Python, t);
    UpperAppend("\U{FEFF}", t);
    assert Upper("\U{FEFF}") == "\U{FEFF}";
  }

  /** `formatPercentage(value)`: `toFixed(2)` and a percent sign, with a plus
      sign for every value that is not negative, zero included. The value
      arrives as a JSON number; a negative zero is not below zero and
      `toFixed` prints it unsigned, so it behaves as the real 0. */
  function FormatPercentage(v: real): string {
    (if v >= 0.0 then "+" else "") + Render(Round(v, 2, TiesAway), Plain) + "%"
  }

  /** The text starts with '+' exactly for values that are not negative, ends
      with '%', and between them reads back as the value rounded to two places
      with ties away from zero. */
  lemma FormatPercentageShape(v: real)
    ensures var s := FormatPercentage(v);
            var f := Round(v, 2, TiesAway);
            var lead := if v >= 0.0 then 1 else 0;
            && |s| >= 2 && s[|s| - 1] == '%'
            && (s[0] == '+' <==> v >= 0.0)
            && ParseFixed(s[lead..|s| - 1], 2, Plain) == Some(f)
  {
    var f := Round(v, 2, TiesAway);
    var body := Render(f, Plain);
    assert |body| >= 1 && body[0] != '+' by {
      RenderEnds(f, Plain);
    }
    assert ParseFixed(body, 2, Plain) == Some(f) by {
      ParseRender(f, Plain);
    }
    Framed(if v >= 0.0 then "+" else "", body);
  }

  /** Away from ties at the second decimal, the script's badge for a value is
      the page filter's text for it, except at zero, which the script always
      signs with '+': in front of the filter's "0.00%", or in place of the '-'
      of a negative zero's "-0.00%". */
  lemma PercentageAgree(f: Fixed)
    requires !IsTie(Shift(Magnitude(f), 2))
    ensures Value(f) != 0.0 ==> FormatPercentage(Value(f)) == PercentageFilter(f)
    ensures Value(f) == 0.0 && !f.negative ==> FormatPercentage(Value(f)) == "+" + PercentageFilter(f)
    ensures Value(f) == 0.0 && f.negative ==> FormatPercentage(Value(f)) == "+" + PercentageFilter(f)[1..]
  {
    ValueSign(f);
    if f.units > 0 {
      RoundValue(f, 2, TiesAway);
      RoundValue(f, 2, TiesToEven);
      RoundTieFree(Value(f), 2);
    } else {
      BadgeZero(f);
      FilterUnrounded(f);
      ZeroSigns(f.units, f.negative);
    }
  }

  /** At zero the script prints '+' and the digits of a positive zero. */
  lemma BadgeZero(f: Fixed)
    requires f.units == 0
    ensures FormatPercentage(Value(f)) == "+" + Render(Fixed(false, f.units, 2), Plain) + "%"
  {
    ValueSign(f);
    RoundValue(f, 2, TiesAway);
  }

  /** Where each formatter puts the sign of a zero around the same digits:
      the script's '+' goes in front of the page's unsigned text, or in place
      of its '-'. */
  lemma ZeroSigns(units: nat, negative: bool)
    ensures var badge := "+" + Render(Fixed(false, units, 2), Plain) + "%";
            var filter := Render(Fixed(negative, units, 2), Plain) + "%";
            && (!negative ==> badge == "+" + filter)
            && (negative ==> badge == "+" + filter[1..])
  {
    var body := Render(Fixed(false, units, 2), Plain);
    assert "+" + body + "%" == "+" + (body + "%");
    if negative {
      RenderSign(units, 2, Plain);
      var filter := "-" + body + "%";
      assert filter[1..] == body + "%";
    }
  }

  /** Every change a quote carries went through `round(x, 2)`, so it is never a
      tie at the second decimal: the script's badge and the page's filter show
      the same text, except for changes that round to zero, which the script
      always signs with '+'. */
  lemma ChangeBadge(x: real)
    ensures var f := Round2(x);
            && (x < -0.005 || x > 0.005 ==> FormatPercentage(Value(f)) == PercentageFilter(f))
            && (0.0 <= x <= 0.005 ==> FormatPercentage(Value(f)) == "+" + PercentageFilter(f))
            && (-0.005 <= x < 0.0 ==> FormatPercentage(Value(f)) == "+" + PercentageFilter(f)[1..])
  {
    var f := Round2(x);
    assert !IsTie(Shift(Magnitude(f), 2)) by {
      ReroundSame(f, TiesToEven);
    }
    PercentageAgree(f);
    Round2Zero(x);
  }

  /** On a tie whose lower neighbour is even, the two round apart: the script
      shows one hundredth more than the page. Such a value needs at least three
      decimals, so it never comes from a quote (see `ChangeBadge`). */
  lemma PercentageTieDiffers(f: Fixed)
    requires !f.negative && IsTie(Shift(Magnitude(f), 2)) && Shift(Magnitude(f), 2).Floor % 2 == 0
    ensures Round(Value(f), 2, TiesAway).units == Reround(f, 2, TiesToEven).units + 1
    ensures FormatPercentage(Value(f)) != PercentageFilter(f)
  {
    var x := Shift(Magnitude(f), 2);
    ValueSign(f);
    assert f.units > 0;
    RoundValue(f, 2, TiesAway);
    var e, a := Reround(f, 2, TiesToEven), Reround(f, 2, TiesAway);
    assert e.units == x.Floor && a.units == x.Floor + 1;
    ParseRender(e, Plain);
    ParseRender(a, Plain);
    var s1, s2 := FormatPercentage(Value(f)), PercentageFilter(f);
    assert s1[1..|s1| - 1] == Render(a, Plain);
    assert s2[1..|s2| - 1] == Render(e, Plain);
  }
}

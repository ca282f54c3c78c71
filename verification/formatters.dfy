/** The display formatters of the server: `format_currency` and
    `format_market_cap` of the service, and the page's `percentage` filter. */
module Formatters {
  import opened Options
  import opened Text
  import opened Decimal
  import opened Records

  /** The three `replace` calls that turn a Python grouping into the Brazilian
      one, passing the commas through the placeholder 'X'. */
  function BrazilianMarks(s: string): string {
    ReplaceChar(ReplaceChar(ReplaceChar(s, ',', 'X'), '.', ','), 'X', '.')
  }

  /** `format_currency(value, currency)`: two decimals with thousands grouping,
      rewritten with Brazilian marks and prefixed "R$ " for reais, and prefixed
      with the currency code otherwise. */
  function FormatCurrency(value: real, currency: string): string {
    var body := Render(Round(value, 2, TiesToEven), Grouped);
    if currency == Brl then "R$ " + BrazilianMarks(body) else currency + " " + body
  }

  /** A rendering in Python's grouping never holds the placeholder 'X'. */
  lemma RenderNoPlaceholder(f: Fixed)
    ensures 'X' !in Render(f, Grouped)
  {
    var s := Render(f, Grouped);
    RenderAlphabet(f, Grouped);
    forall i | 0 <= i < |s| ensures s[i] != 'X' {
      assert RenderChar(s[i], Grouped);
    }
  }

  /** The placeholder rewrite swaps the marks of any rendering, since a
      rendering never holds an 'X'. */
  lemma BrazilianMarksSwap(f: Fixed)
    ensures BrazilianMarks(Render(f, Grouped)) == Render(f, Brazilian)
  {
    var s := Render(f, Grouped);
    RenderNoPlaceholder(f);
    SwapViaPlaceholder(s, ',', '.', 'X');
    assert SwapChars(s, ',', '.') == Remark(s, Grouped, Brazilian);
    RenderRemark(f, Grouped, Brazilian);
  }

  /** An amount in reais is "R$ " and the amount rounded to cents in the
      Brazilian style, which reads back as that rounded amount. */
  lemma CurrencyBrl(value: real)
    ensures var f := Round(value, 2, TiesToEven);
            var s := FormatCurrency(value, Brl);
            && s == "R$ " + Render(f, Brazilian)
            && ParseFixed(s[3..], 2, Brazilian) == Some(f)
            && Abs(f.units as real - Shift(Abs(value), 2)) <= 0.5
  {
    var f := Round(value, 2, TiesToEven);
    BrazilianMarksSwap(f);
    ParseRender(f, Brazilian);
    assert FormatCurrency(value, Brl)[3..] == Render(f, Brazilian);
  }

  /** Any other currency is its code, a space and the amount rounded to cents
      in Python's grouping, which reads back as that rounded amount. */
  lemma CurrencyOther(value: real, currency: string)
    requires currency != Brl
    ensures var f := Round(value, 2, TiesToEven);
            var s := FormatCurrency(value, currency);
            && s == currency + " " + Render(f, Grouped)
            && ParseFixed(s[|currency| + 1..], 2, Grouped) == Some(f)
  {
    var f := Round(value, 2, TiesToEven);
    ParseRender(f, Grouped);
    assert FormatCurrency(value, currency)[|currency| + 1..] == Render(f, Grouped);
  }

  /** Python's grouping with every comma replaced by a dot. */
  const DotGrouped := Style('.', Some('.'))

  /** An amount in reais in some unit, with one decimal and the unit's letter. */
  function InUnits(v: real, unit: char): string {
    "R$ " + Render(Round(v, 1, TiesToEven), Plain) + [unit]
  }

  /** The text between "R$ " and the unit's letter reads back as the amount
      rounded to one decimal. */
  lemma InUnitsShape(v: real, unit: char)
    requires v >= 0.0
    ensures var f := Round(v, 1, TiesToEven);
            var s := InUnits(v, unit);
            && |s| >= 5 && s[..3] == "R$ " && s[|s| - 1] == unit
            && IsDigit(s[|s| - 2])
            && ParseFixed(s[3..|s| - 1], 1, Plain) == Some(f)
            && Abs(f.units as real - Shift(v, 1)) <= 0.5
  {
    assert Abs(v) == v;
    var f := Round(v, 1, TiesToEven);
    var body := Render(f, Plain);
    ParseRender(f, Plain);
    RenderEnds(f, Plain);
    var s := InUnits(v, unit);
    assert s == "R$ " + body + [unit];
    assert s[3..|s| - 1] == body;
    assert s[|s| - 2] == body[|body| - 1];
  }

  /** `format_market_cap(market_cap)`: "N/A" for none or zero; billions or
      millions with one decimal; anything smaller as the whole number grouped
      with dots. */
  function FormatMarketCap(m: Option<int>): string {
    if m.None? || m.value == 0 then "N/A"
    else if m.value >= 1_000_000_000 then InUnits(Ratio(m.value, 1_000_000_000), 'B')
    else if m.value >= 1_000_000 then InUnits(Ratio(m.value, 1_000_000), 'M')
    else "R$ " + DotWhole(m.value)
  }

  /** `m` in units of `unit`. */
  function Ratio(m: int, unit: nat): real
    requires unit > 0
  {
    m as real / unit as real
  }

  /** The whole number `m` in Python's grouping, with dots for commas. */
  function DotWhole(m: int): string {
    ReplaceChar(Render(Round(m as real, 0, TiesToEven), Grouped), ',', '.')
  }

  /** The branch a market value takes is told by the text: "N/A" exactly for
      none or zero, a trailing "B" exactly from one billion, a trailing "M"
      exactly from one million below one billion, and a trailing digit for
      everything else. */
  lemma MarketCapUnits(m: Option<int>)
    ensures var s := FormatMarketCap(m);
            && (s == "N/A" <==> m.None? || m.value == 0)
            && (s != "N/A" ==> |s| >= 4 && s[..3] == "R$ ")
            && (s != "N/A" ==> (s[|s| - 1] == 'B' <==> m.value >= 1_000_000_000))
            && (s != "N/A" ==> (s[|s| - 1] == 'M' <==> 1_000_000 <= m.value < 1_000_000_000))
            && (s != "N/A" ==> (IsDigit(s[|s| - 1]) <==> m.value < 1_000_000))
  {
    var s := FormatMarketCap(m);
    if m.Some? && m.value != 0 {
      var v := m.value;
      if v >= 1_000_000_000 {
        InUnitsShape(Ratio(v, 1_000_000_000), 'B');
      } else if v >= 1_000_000 {
        InUnitsShape(Ratio(v, 1_000_000), 'M');
      } else {
        var f := Round(v as real, 0, TiesToEven);
        var body := Render(f, Grouped);
        RenderEnds(f, Grouped);
        assert s == "R$ " + ReplaceChar(body, ',', '.');
        assert s[|s| - 1] == ReplaceChar(body, ',', '.')[|body| - 1];
      }
    }
  }

  /** From one billion up, the value is shown in billions: "R$ ", the value
      in billions rounded to one decimal, and 'B'. */
  lemma MarketCapBillions(m: int)
    requires m >= 1_000_000_000
    ensures var s := FormatMarketCap(Some(m));
            var f := Round(m as real / 1_000_000_000.0, 1, TiesToEven);
            && |s| >= 5 && s[..3] == "R$ " && s[|s| - 1] == 'B'
            && ParseFixed(s[3..|s| - 1], 1, Plain) == Some(f)
            && !f.negative && f.units >= 10
  {
    var v := Ratio(m, 1_000_000_000);
    assert v == m as real / 1_000_000_000.0 && v >= 1.0;
    assert FormatMarketCap(Some(m)) == InUnits(v, 'B');
    InUnitsShape(v, 'B');
    TenthsBounds(v, 1, m);
  }

  /** From one million below one billion, the value is shown in millions:
      "R$ ", the value in millions rounded to one decimal, and 'M'. */
  lemma MarketCapMillions(m: int)
    requires 1_000_000 <= m < 1_000_000_000
    ensures var s := FormatMarketCap(Some(m));
            var f := Round(m as real / 1_000_000.0, 1, TiesToEven);
            && |s| >= 5 && s[..3] == "R$ " && s[|s| - 1] == 'M'
            && ParseFixed(s[3..|s| - 1], 1, Plain) == Some(f)
            && !f.negative && 10 <= f.units <= 10_000
  {
    var v := Ratio(m, 1_000_000);
    assert v == m as real / 1_000_000.0 && 1.0 <= v < 1000.0;
    assert FormatMarketCap(Some(m)) == InUnits(v, 'M');
    InUnitsShape(v, 'M');
    TenthsBounds(v, 1, 1000);
  }

  /** Rounding a value in [lo, hi) to tenths, for whole bounds, gives
      between `10 * lo` and `10 * hi` tenths. */
  lemma TenthsBounds(v: real, lo: nat, hi: nat)
    requires lo as real <= v < hi as real
    ensures var f := Round(v, 1, TiesToEven);
            && !f.negative && 10 * lo <= f.units <= 10 * hi
  {
    var u := Round(v, 1, TiesToEven).units;
    assert Shift(Abs(v), 1) == v * 10.0;
    assert (10 * lo) as real - 0.5 <= u as real <= (10 * hi) as real + 0.5;
  }

  /** Below one million (negative values included) the whole number is shown
      exactly, grouped with dots: removing the dots reads back the value. */
  lemma MarketCapSmall(m: int)
    requires m != 0 && m < 1_000_000
    ensures var s := FormatMarketCap(Some(m));
            && s == "R$ " + Render(Fixed(m < 0, if m < 0 then -m else m, 0), DotGrouped)
            && ParseFixed(s[3..], 0, DotGrouped) == Some(Fixed(m < 0, if m < 0 then -m else m, 0))
  {
    var f := Fixed(m < 0, if m < 0 then -m else m, 0);
    RoundWhole(m, TiesToEven);
    var body := Render(f, Grouped);
    assert ReplaceChar(body, ',', '.') == Remark(body, Grouped, DotGrouped);
    RenderRemark(f, Grouped, DotGrouped);
    ParseRender(f, DotGrouped);
    var s := FormatMarketCap(Some(m));
    assert s[3..] == Render(f, DotGrouped);
  }

  /** The page's `percentage` filter on a decimal: two decimals and a percent
      sign, with a plus sign only for values greater than zero. The sign of a
      negative zero is kept: `round(-0.001, 2)` shows as "-0.00%". */
  function PercentageFilter(v: Fixed): string {
    var body := Render(Reround(v, 2, TiesToEven), Plain);
    if IsPositive(v) then "+" + body + "%" else body + "%"
  }

  /** `value > 0` on a decimal, read off its sign and digits (`ValueSign`
      relates it to the real the decimal denotes). */
  predicate IsPositive(v: Fixed) {
    !v.negative && v.units > 0
  }

  /** The filter's text starts with '+' exactly for positive values and with
      '-' exactly for negative ones (a negative zero included), ends with '%',
      and between them reads back as the value rounded to two places. */
  lemma PercentageFilterShape(v: Fixed)
    ensures var s := PercentageFilter(v);
            var f := Reround(v, 2, TiesToEven);
            var lead := if Value(v) > 0.0 then 1 else 0;
            && |s| >= 2 && s[|s| - 1] == '%'
            && (s[0] == '+' <==> Value(v) > 0.0)
            && (s[0] == '-' <==> v.negative)
            && ParseFixed(s[lead..|s| - 1], 2, Plain) == Some(f)
  {
    var f := Reround(v, 2, TiesToEven);
    var body := Render(f, Plain);
    assert |body| >= 1 && body[0] != '+' && (body[0] == '-' <==> v.negative) by {
      RenderEnds(f, Plain);
    }
    assert ParseFixed(body, 2, Plain) == Some(f) by {
      ParseRender(f, Plain);
    }
    assert IsPositive(v) <==> Value(v) > 0.0 by {
      ValueSign(v);
    }
    Framed(if IsPositive(v) then "+" else "", body);
  }

  /** A change rounded by `round(x, 2)` is shown with '-' exactly when `x` was
      negative, however small, and with '+' exactly from above half a
      hundredth; the digits read back as the rounded change. */
  lemma ChangeShown(x: real)
    ensures var s := PercentageFilter(Round2(x));
            var lead := if x > 0.005 then 1 else 0;
            && (s[0] == '-' <==> x < 0.0)
            && (s[0] == '+' <==> x > 0.005)
            && ParseFixed(s[lead..|s| - 1], 2, Plain) == Some(Round2(x))
  {
    var f := Round2(x);
    assert Reround(f, 2, TiesToEven) == f by {
      ReroundSame(f, TiesToEven);
    }
    assert Value(f) > 0.0 <==> x > 0.005 by {
      ValueSign(f);
      Round2Zero(x);
    }
    PercentageFilterShape(f);
  }

  /** A body that does not start with '+', behind an optional plus sign and
      before a percent sign, can be cut back out. */
  lemma Framed(sign: string, body: string)
    requires sign == "+" || sign == ""
    requires |body| >= 1 && body[0] != '+'
    ensures var s := sign + body + "%";
            && |s| >= 2 && s[|s| - 1] == '%'
            && s[0] == (if sign == "+" then '+' else body[0])
            && s[|sign|..|s| - 1] == body
  {
    var s := sign + body + "%";
    assert s[|sign|..|s| - 1] == body;
    assert s[0] == if sign == "+" then '+' else body[0];
  }

  /** The page prints a zero with its own sign: a negative zero keeps its
      minus sign. */
  lemma FilterUnrounded(f: Fixed)
    requires f.units == 0
    ensures PercentageFilter(f) == Render(Fixed(f.negative, f.units, 2), Plain) + "%"
  {
    ReroundZero(f, 2, TiesToEven);
  }
}

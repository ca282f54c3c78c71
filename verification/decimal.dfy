/** Fixed-point decimal rounding and rendering: Python's `round(x, n)` and
    `format(x, ",.nf")` and JavaScript's `toFixed(n)`, computed on exact reals. */
module Decimal {
  import opened Options
  import opened Text

  /** How a value exactly halfway between two candidates is rounded: Python's
      `round` and `format` pick the even neighbour, JavaScript's `toFixed` picks
      the one of larger magnitude. */
  datatype Tie = TiesToEven | TiesAway

  function Pow10(n: nat): (r: nat)
    ensures r >= 1
  {
    if n == 0 then 1 else 10 * Pow10(n - 1)
  }

  function Abs(x: real): real {
    if x < 0.0 then -x else x
  }

  /** The integer nearest to `x`; a tie is resolved by `tie`. */
  function RoundNearest(x: real, tie: Tie): (n: nat)
    requires x >= 0.0
    ensures Abs(n as real - x) <= 0.5
    ensures Abs(n as real - x) == 0.5 && tie == TiesToEven ==> n % 2 == 0
    ensures Abs(n as real - x) == 0.5 && tie == TiesAway ==> n as real > x
  {
    var k := x.Floor;
    var f := x - k as real;
    if f < 0.5 then k
    else if f > 0.5 then k + 1
    else if tie == TiesAway || k % 2 == 1 then k + 1
    else k
  }

  /** A decimal with `places` fractional digits, sign kept apart from the
      magnitude `units / 10^places` as the renderers print it: -0.001 rounds to
      a negative zero and prints "-0.00" in both languages. */
  datatype Fixed = Fixed(negative: bool, units: nat, places: nat)

  /** The signed value times `10^places`. */
  function Scaled(f: Fixed): int {
    if f.negative then -(f.units as int) else f.units
  }

  /** `x` times `10^places`. */
  function Shift(x: real, places: nat): real {
    x * (Pow10(places) as real)
  }

  /** `x` rounded to `places` fractional digits: the sign of `x`, and the
      magnitude nearest to `|x|`, a tie going to the even neighbour or away
      from zero as `tie` says. */
  function Round(x: real, places: nat, tie: Tie): (f: Fixed)
    ensures f.places == places && f.negative == (x < 0.0)
    ensures Abs(f.units as real - Shift(Abs(x), places)) <= 0.5
    ensures Abs(f.units as real - Shift(Abs(x), places)) == 0.5 && tie == TiesToEven ==> f.units % 2 == 0
    ensures Abs(f.units as real - Shift(Abs(x), places)) == 0.5 && tie == TiesAway ==>
              f.units as real > Shift(Abs(x), places)
  {
    assert Shift(Abs(x), places) >= 0.0;
    Fixed(x < 0.0, RoundNearest(Shift(Abs(x), places), tie), places)
  }

  /** `x` lies exactly halfway between two integers. */
  predicate IsTie(x: real) {
    x - x.Floor as real == 0.5
  }

  /** The two tie rules only differ on ties. */
  lemma RoundTieFree(x: real, places: nat)
    requires !IsTie(Shift(Abs(x), places))
    ensures Round(x, places, TiesToEven) == Round(x, places, TiesAway)
  {
    assert Shift(Abs(x), places) >= 0.0;
  }

  /** The signed value `units / 10^places`. */
  function Value(f: Fixed): real {
    Scaled(f) as real / Pow10(f.places) as real
  }

  /** The magnitude `units / 10^places`. */
  function Magnitude(f: Fixed): real {
    f.units as real / Pow10(f.places) as real
  }

  /** Python's `round(x, 2)` on a float: the nearest multiple of 0.01, ties to
      even, keeping the sign of `x` even when the result is zero. The zero is
      negative exactly for `x` in [-0.005, 0): `round(-0.001, 2)` is `-0.0`. */
  function Round2(x: real): (f: Fixed)
    ensures f.places == 2 && f.negative == (x < 0.0)
    ensures Abs(Value(f) - x) <= 0.005
    ensures f.negative && f.units == 0 <==> -0.005 <= x < 0.0
  {
    var f := Round(x, 2, TiesToEven);
    Hundredths(Scaled(f), x);
    assert Value(f) == Scaled(f) as real / 100.0;
    f
  }

  /** `round(x, 2)` is a zero exactly for `x` within half a hundredth of
      zero, a tie at 0.005 going to the even zero. */
  lemma Round2Zero(x: real)
    ensures Round2(x).units == 0 <==> -0.005 <= x <= 0.005
    ensures Value(Round2(x)) == 0.0 <==> -0.005 <= x <= 0.005
  {
    var f := Round2(x);
    assert Shift(Abs(x), 2) == Abs(x) * 100.0;
    ValueSign(f);
  }

  /** An integer within half a unit of `100 * x`, divided by 100, is within
      half a hundredth of `x`. */
  lemma Hundredths(n: int, x: real)
    requires Abs(n as real - Shift(x, 2)) <= 0.5
    ensures Abs(n as real / 100.0 - x) <= 0.005
  {
    assert Shift(x, 2) == x * 100.0;
    assert n as real / 100.0 * 100.0 == n as real;
  }

  /** A value already held as a decimal, rounded again to `places` digits: the
      sign is kept, so a negative zero stays negative. */
  function Reround(f: Fixed, places: nat, tie: Tie): (g: Fixed)
    ensures g.places == places && g.negative == f.negative
    ensures Abs(g.units as real - Shift(Magnitude(f), places)) <= 0.5
  {
    assert Shift(Magnitude(f), places) >= 0.0;
    Fixed(f.negative, RoundNearest(Shift(Magnitude(f), places), tie), places)
  }

  /** Rounding a decimal to the number of places it already has changes
      nothing, whatever the tie rule: a two-place value is never a tie. */
  lemma ReroundSame(f: Fixed, tie: Tie)
    ensures !IsTie(Shift(Magnitude(f), f.places))
    ensures Reround(f, f.places, tie) == f
  {
    var p := Pow10(f.places) as real;
    assert Shift(Magnitude(f), f.places) == f.units as real by {
      assert f.units as real / p * p == f.units as real;
    }
    assert (f.units as real).Floor == f.units;
  }

  /** The real a decimal denotes has the decimal's sign unless it is zero,
      and the decimal's magnitude. */
  lemma ValueSign(f: Fixed)
    ensures Value(f) > 0.0 <==> !f.negative && f.units > 0
    ensures Value(f) < 0.0 <==> f.negative && f.units > 0
    ensures Abs(Value(f)) == Magnitude(f)
  {
    var p := Pow10(f.places) as real;
    assert Value(f) == if f.negative then -Magnitude(f) else Magnitude(f);
    assert f.units > 0 ==> Magnitude(f) > 0.0;
  }

  /** A zero rounds to a zero of the same sign. */
  lemma ReroundZero(f: Fixed, places: nat, tie: Tie)
    requires f.units == 0
    ensures Reround(f, places, tie) == Fixed(f.negative, f.units, places)
  {
    var p := Pow10(f.places) as real;
    assert Magnitude(f) == 0.0 / p == 0.0;
    assert Shift(0.0, places) == 0.0;
  }

  /** A non-zero decimal rounds, as the real number it denotes, exactly as it
      rounds as a decimal; only a zero loses its sign on the way through the
      reals. */
  lemma RoundValue(f: Fixed, places: nat, tie: Tie)
    ensures f.units > 0 ==> Round(Value(f), places, tie) == Reround(f, places, tie)
    ensures f.units == 0 ==> Round(Value(f), places, tie) == Fixed(false, f.units, places)
  {
    ValueSign(f);
    if f.units == 0 {
      assert Value(f) == 0.0;
      assert Shift(0.0, places) == 0.0;
    }
  }

  /** The decimal point and the optional thousands separator of a rendering. */
  datatype Style = Style(point: char, group: Option<char>)

  /** Python's `format(x, ",.nf")`. */
  const Grouped := Style('.', Some(','))
  /** Python's `format(x, ".nf")` and JavaScript's `toFixed(n)`. */
  const Plain := Style('.', None)
  /** The Brazilian convention: decimal comma, dot between thousands. */
  const Brazilian := Style(',', Some('.'))

  /** A style can be read back when neither of its marks is a digit or a minus sign. */
  predicate Readable(st: Style) {
    && !IsDigit(st.point) && st.point != '-'
    && (st.group.Some? ==> !IsDigit(st.group.value) && st.group.value != '-')
  }

  predicate AllDigits(s: string) {
    forall i :: 0 <= i < |s| ==> IsDigit(s[i])
  }

  function DigitChar(d: nat): (c: char)
    requires d < 10
    ensures IsDigit(c)
  {
    ('0' as int + d) as char
  }

  function DigitValue(c: char): nat {
    if IsDigit(c) then c as int - '0' as int else 0
  }

  /** The decimal numeral of `n`, without leading zeros. */
  function NatToDigits(n: nat): (s: string)
    ensures |s| >= 1 && AllDigits(s)
    ensures s[0] == '0' ==> n == 0
    decreases n
  {
    if n < 10 then [DigitChar(n)] else NatToDigits(n / 10) + [DigitChar(n % 10)]
  }

  /** The value of a string of digits. */
  function DigitsToNat(s: string): nat
    decreases |s|
  {
    if s == [] then 0 else DigitsToNat(s[..|s| - 1]) * 10 + DigitValue(s[|s| - 1])
  }

  /** Reading a numeral back gives the number it was written from. */
  lemma {:induction false} DigitsOfNat(n: nat)
    ensures DigitsToNat(NatToDigits(n)) == n
    decreases n
  {
    if n >= 10 {
      DigitsOfNat(n / 10);
      var s := NatToDigits(n);
      assert s[..|s| - 1] == NatToDigits(n / 10);
    }
  }

  /** Writing the value of a numeral without leading zeros gives the numeral back. */
  lemma {:induction false} NatOfDigits(s: string)
    requires |s| >= 1 && AllDigits(s) && (s[0] == '0' ==> |s| == 1)
    ensures NatToDigits(DigitsToNat(s)) == s
    decreases |s|
  {
    if |s| > 1 {
      var p := s[..|s| - 1];
      NatOfDigits(p);
      DigitsLowerBound(p);
      assert s == p + [s[|s| - 1]];
    }
  }

  lemma {:induction false} DigitsLowerBound(s: string)
    requires |s| >= 1 && AllDigits(s) && s[0] != '0'
    ensures DigitsToNat(s) >= 1
    decreases |s|
  {
    if |s| > 1 {
      DigitsLowerBound(s[..|s| - 1]);
    }
  }

  lemma {:induction false} DigitsAppend(a: string, b: string)
    ensures DigitsToNat(a + b) == DigitsToNat(a) * Pow10(|b|) + DigitsToNat(b)
    decreases |b|
  {
    if b == [] {
      assert a + b == a;
    } else {
      var b' := b[..|b| - 1];
      assert (a + b)[..|a + b| - 1] == a + b';
      DigitsAppend(a, b');
      var x, p, y, d := DigitsToNat(a), Pow10(|b'|), DigitsToNat(b'), DigitValue(b[|b| - 1]);
      assert b[..|b| - 1] == b';
      assert DigitsToNat(b) == y * 10 + d;
      assert Pow10(|b|) == p * 10;
      assert DigitsToNat(a + b) == (x * p + y) * 10 + d;
      Distribute(x, p, y, d);
    }
  }

  lemma Distribute(x: int, p: int, y: int, d: int)
    ensures (x * p + y) * 10 + d == x * (p * 10) + (y * 10 + d)
  {
  }

  /** A number below `10^k` has at most `k` digits. */
  lemma {:induction false} DigitsLength(n: nat, k: nat)
    requires k >= 1 && n < Pow10(k)
    ensures |NatToDigits(n)| <= k
    decreases n
  {
    if n >= 10 {
      assert k >= 2;
      DigitsLength(n / 10, k - 1);
    }
  }

  function Zeros(k: nat): (s: string)
    ensures |s| == k && AllDigits(s)
  {
    seq(k, _ => '0')
  }

  lemma {:induction false} ZerosValue(k: nat)
    ensures DigitsToNat(Zeros(k)) == 0
    decreases k
  {
    if k > 0 {
      assert Zeros(k)[..k - 1] == Zeros(k - 1);
      ZerosValue(k - 1);
    }
  }

  /** `s` padded with leading zeros to width `w`. */
  function PadLeft(s: string, w: nat): (r: string)
    ensures |r| == if |s| >= w then |s| else w
    ensures AllDigits(s) ==> AllDigits(r)
    ensures DigitsToNat(r) == DigitsToNat(s)
  {
    if |s| >= w then s
    else
      DigitsAppend(Zeros(w - |s|), s);
      ZerosValue(w - |s|);
      Zeros(w - |s|) + s
  }

  /** Digits with `sep` between every group of three, counted from the right. */
  function Group(s: string, sep: char): (r: string)
    ensures |s| >= 1 ==> |r| >= 1 && r[0] == s[0] && r[|r| - 1] == s[|s| - 1]
    decreases |s|
  {
    if |s| <= 3 then s else Group(s[..|s| - 3], sep) + [sep] + s[|s| - 3..]
  }

  /** `s` with every `sep` removed. */
  function Ungroup(s: string, sep: char): (r: string)
    decreases |s|
  {
    if s == [] then [] else (if s[0] == sep then [] else [s[0]]) + Ungroup(s[1..], sep)
  }

  lemma {:induction false} UngroupAppend(a: string, b: string, sep: char)
    ensures Ungroup(a + b, sep) == Ungroup(a, sep) + Ungroup(b, sep)
    decreases |a|
  {
    if a == [] {
      assert a + b == b;
    } else {
      assert (a + b)[0] == a[0] && (a + b)[1..] == a[1..] + b;
      UngroupAppend(a[1..], b, sep);
    }
  }

  lemma {:induction false} UngroupNoSep(s: string, sep: char)
    requires sep !in s
    ensures Ungroup(s, sep) == s
    decreases |s|
  {
    if s != [] {
      UngroupNoSep(s[1..], sep);
      assert s == [s[0]] + s[1..];
    }
  }

  /** Removing the separators undoes the grouping. */
  lemma {:induction false} UngroupGroup(s: string, sep: char)
    requires sep !in s
    ensures Ungroup(Group(s, sep), sep) == s
    decreases |s|
  {
    if |s| <= 3 {
      UngroupNoSep(s, sep);
    } else {
      var p, t := s[..|s| - 3], s[|s| - 3..];
      assert s == p + t;
      assert sep !in p && sep !in t;
      var gp := Group(p, sep);
      assert Group(s, sep) == gp + [sep] + t;
      UngroupGroup(p, sep);
      UngroupAround(gp, t, sep);
    }
  }

  /** Ungrouping drops a separator between two parts and keeps a part free of separators. */
  lemma UngroupAround(a: string, t: string, sep: char)
    requires sep !in t
    ensures Ungroup(a + [sep] + t, sep) == Ungroup(a, sep) + t
  {
    assert Ungroup(a + [sep], sep) == Ungroup(a, sep) by {
      UngroupAppend(a, [sep], sep);
      UngroupSep(sep);
      assert Ungroup(a, sep) + [] == Ungroup(a, sep);
    }
    assert Ungroup(t, sep) == t by {
      UngroupNoSep(t, sep);
    }
    UngroupAppend(a + [sep], t, sep);
  }

  lemma UngroupSep(sep: char)
    ensures Ungroup([sep], sep) == []
  {
    assert [sep][1..] == [];
  }

  /** `parts` put together spell `s`; the first holds one to three
      characters and every other exactly three. */
  predicate ThreeByThree(parts: seq<string>, s: string) {
    && |parts| >= 1
    && Concat(parts) == s
    && 1 <= |parts[0]| <= 3
    && forall i :: 1 <= i < |parts| ==> |parts[i]| == 3
  }

  /** Grouping cuts `s` into pieces of three characters, except the first,
      which holds one to three: the separators sit every three places from the right. */
  lemma {:induction false} GroupShape(s: string, sep: char)
    requires |s| >= 1 && sep !in s
    ensures ThreeByThree(Split(Group(s, sep), sep), s)
    decreases |s|
  {
    if |s| <= 3 {
      SplitNoSep(s, sep);
      assert Concat([s]) == s + Concat([]);
    } else {
      var p, t := s[..|s| - 3], s[|s| - 3..];
      assert s == p + t;
      assert sep !in p && sep !in t;
      assert Group(s, sep) == Group(p, sep) + [sep] + t;
      GroupShape(p, sep);
      GroupShapeStep(Group(p, sep), p, t, sep);
    }
  }

  /** One more group of three behind a separator keeps the shape. */
  lemma GroupShapeStep(g: string, p: string, t: string, sep: char)
    requires |t| == 3 && sep !in t
    requires ThreeByThree(Split(g, sep), p)
    ensures ThreeByThree(Split(g + [sep] + t, sep), p + t)
  {
    var pp := Split(g, sep);
    var parts := pp + [t];
    assert Split(g + [sep] + t, sep) == parts by {
      SplitConcat(g, t, sep);
      SplitNoSep(t, sep);
    }
    assert Concat(parts) == p + t by {
      ConcatAppend(pp, [t]);
      assert Concat([t]) == t + Concat([]);
    }
    assert parts[0] == pp[0];
    forall i | 1 <= i < |parts| ensures |parts[i]| == 3 {
      if i < |pp| {
        assert parts[i] == pp[i];
      }
    }
  }

  function GroupBy(s: string, group: Option<char>): string {
    if group.Some? then Group(s, group.value) else s
  }

  function UngroupBy(s: string, group: Option<char>): string {
    if group.Some? then Ungroup(s, group.value) else s
  }

  /** Euclidean division by a positive divisor. */
  lemma DivMod(u: nat, p: nat)
    requires p >= 1
    ensures u / p >= 0 && 0 <= u % p < p
    ensures (u / p) * p + u % p == u
  {
  }

  /** The whole part of `units / 10^places`. */
  function WholePart(units: nat, places: nat): nat {
    DivMod(units, Pow10(places));
    units / Pow10(places)
  }

  /** The fractional part of `units / 10^places`, scaled by `10^places`. */
  function FracPart(units: nat, places: nat): (r: nat)
    ensures r < Pow10(places)
    ensures Compose(WholePart(units, places), r, places) == units
  {
    DivMod(units, Pow10(places));
    units % Pow10(places)
  }

  /** The fractional digits of `units / 10^places`, zero-padded to `places` characters. */
  function FracDigits(units: nat, places: nat): (r: string)
    ensures AllDigits(r)
    ensures places > 0 ==> |r| == places && DigitsToNat(r) == FracPart(units, places)
  {
    if places == 0 then ""
    else
      DigitsLength(FracPart(units, places), places);
      DigitsOfNat(FracPart(units, places));
      PadLeft(NatToDigits(FracPart(units, places)), places)
  }

  /** The magnitude `units / 10^places`: the whole part (grouped when the style
      says so), then the point and exactly `places` digits. */
  function RenderUnsigned(units: nat, places: nat, st: Style): string {
    GroupBy(NatToDigits(WholePart(units, places)), st.group)
    + (if places == 0 then "" else [st.point] + FracDigits(units, places))
  }

  /** The rendering of `f`: an optional minus sign, then its magnitude. */
  function Render(f: Fixed, st: Style): string {
    (if f.negative then "-" else "") + RenderUnsigned(f.units, f.places, st)
  }

  /** A negative rendering is the positive one behind a minus sign. */
  lemma RenderSign(units: nat, places: nat, st: Style)
    ensures Render(Fixed(true, units, places), st) == "-" + Render(Fixed(false, units, places), st)
  {
  }

  /** A rendering starts with a minus sign exactly when it is negative, and
      otherwise with a digit; it always ends with a digit. */
  lemma RenderEnds(f: Fixed, st: Style)
    ensures var s := Render(f, st);
            && |s| >= 1
            && (s[0] == '-' <==> f.negative)
            && (!f.negative ==> IsDigit(s[0]))
            && IsDigit(s[|s| - 1])
  {
    var whole := NatToDigits(WholePart(f.units, f.places));
    var g := GroupBy(whole, st.group);
    assert |g| >= 1 && g[0] == whole[0] && g[|g| - 1] == whole[|whole| - 1];
    if f.places > 0 {
      var fd := FracDigits(f.units, f.places);
      assert IsDigit(fd[|fd| - 1]);
    }
  }

  /** A whole number rounds to itself at zero places. */
  lemma RoundWhole(n: int, tie: Tie)
    ensures Round(n as real, 0, tie) == Fixed(n < 0, if n < 0 then -n else n, 0)
  {
    var m := if n < 0 then -n else n;
    assert Shift(Abs(n as real), 0) == m as real;
    assert (m as real).Floor == m;
  }

  /** Reads a magnitude back: the partner of `RenderUnsigned`. */
  function ParseUnsigned(body: string, places: nat, st: Style): Option<nat> {
    var cut := if places == 0 then |body| else |body| - places - 1;
    if cut < 0 then None
    else if places > 0 && body[cut] != st.point then None
    else ParseDigits(UngroupBy(body[..cut], st.group), if places == 0 then "" else body[cut + 1..], places)
  }

  /** The value of the whole digits `whole` and the fractional digits `frac`,
      scaled by `10^places`, if both are digit strings and `whole` is not empty. */
  function ParseDigits(whole: string, frac: string, places: nat): Option<nat> {
    if |whole| == 0 || !AllDigits(whole) || !AllDigits(frac) then None
    else Some(Compose(DigitsToNat(whole), DigitsToNat(frac), places))
  }

  /** The number `whole` followed by the `places` fractional digits of value `frac`, scaled by `10^places`. */
  function Compose(whole: nat, frac: nat, places: nat): nat {
    whole * Pow10(places) + frac
  }

  /** Reads a rendering back: the partner of `Render`. */
  function ParseFixed(s: string, places: nat, st: Style): Option<Fixed> {
    var negative := |s| > 0 && s[0] == '-';
    var body := if negative then s[1..] else s;
    match ParseUnsigned(body, places, st)
    case None => None
    case Some(u) => Some(Fixed(negative, u, places))
  }

  lemma GroupByDigits(s: string, group: Option<char>)
    requires |s| >= 1 && AllDigits(s)
    requires group.Some? ==> !IsDigit(group.value)
    ensures |GroupBy(s, group)| >= 1 && IsDigit(GroupBy(s, group)[0])
    ensures UngroupBy(GroupBy(s, group), group) == s
  {
    if group.Some? {
      assert group.value !in s;
      UngroupGroup(s, group.value);
    }
  }

  /** Every magnitude reads back as the number it was rendered from. */
  lemma ParseRenderUnsigned(units: nat, places: nat, st: Style)
    requires Readable(st)
    ensures var body := RenderUnsigned(units, places, st);
            && |body| >= 1 && IsDigit(body[0])
            && ParseUnsigned(body, places, st) == Some(units)
  {
    var whole := NatToDigits(WholePart(units, places));
    GroupByDigits(whole, st.group);
    if places == 0 {
      ParseWhole(units, st);
    } else {
      ParseWithFraction(units, places, st);
    }
  }

  lemma ParseWhole(units: nat, st: Style)
    requires Readable(st)
    ensures ParseUnsigned(RenderUnsigned(units, 0, st), 0, st) == Some(units)
  {
    var body := RenderUnsigned(units, 0, st);
    assert WholePart(units, 0) == units;
    var whole := NatToDigits(units);
    GroupByDigits(whole, st.group);
    DigitsOfNat(units);
    assert body == GroupBy(whole, st.group);
    assert body[..|body|] == body;
  }

  lemma ParseWithFraction(units: nat, places: nat, st: Style)
    requires Readable(st) && places > 0
    ensures ParseUnsigned(RenderUnsigned(units, places, st), places, st) == Some(units)
  {
    var whole := NatToDigits(WholePart(units, places));
    GroupByDigits(whole, st.group);
    DigitsOfNat(WholePart(units, places));
    var frac := FracDigits(units, places);
    ParseAround(GroupBy(whole, st.group), frac, places, st);
  }

  /** Parsing a whole part, the point and `places` digits. */
  lemma ParseAround(g: string, frac: string, places: nat, st: Style)
    requires places > 0 && |frac| == places && AllDigits(frac)
    requires |UngroupBy(g, st.group)| > 0 && AllDigits(UngroupBy(g, st.group))
    ensures ParseUnsigned(g + ([st.point] + frac), places, st)
            == Some(Compose(DigitsToNat(UngroupBy(g, st.group)), DigitsToNat(frac), places))
  {
    var body := g + ([st.point] + frac);
    assert |body| - places - 1 == |g|;
    assert body[|g|] == st.point;
    assert body[..|g|] == g;
    assert body[|g| + 1..] == frac;
    ParseAt(body, places, st);
  }

  /** A body whose point stands `places` characters from its end is parsed
      as the digits on either side of that point. */
  lemma ParseAt(body: string, places: nat, st: Style)
    requires places > 0 && |body| >= places + 1 && body[|body| - places - 1] == st.point
    ensures ParseUnsigned(body, places, st)
            == ParseDigits(UngroupBy(body[..|body| - places - 1], st.group), body[|body| - places..], places)
  {
  }

  /** Every rendering reads back as the decimal it was rendered from. */
  lemma ParseRender(f: Fixed, st: Style)
    requires Readable(st)
    ensures ParseFixed(Render(f, st), f.places, st) == Some(f)
  {
    var body := RenderUnsigned(f.units, f.places, st);
    ParseRenderUnsigned(f.units, f.places, st);
    var s := Render(f, st);
    if f.negative {
      assert s == "-" + body && s[1..] == body;
    } else {
      assert s == body;
    }
  }

  /** The mark of style `from` that `c` is, replaced by the same mark of style
      `to`; any other character is kept. */
  function RemarkChar(c: char, from: Style, to: Style): char {
    if c == from.point then to.point
    else if from.group.Some? && to.group.Some? && c == from.group.value then to.group.value
    else c
  }

  /** `s` with the marks of style `from` replaced by those of style `to`. */
  function Remark(s: string, from: Style, to: Style): (r: string)
    ensures |r| == |s|
  {
    seq(|s|, i requires 0 <= i < |s| => RemarkChar(s[i], from, to))
  }

  /** Replacing the marks of a rendering, and nothing else, gives the rendering
      of the same decimal in the other style. */
  lemma RenderRemark(f: Fixed, from: Style, to: Style)
    requires Readable(from) && (from.group.Some? <==> to.group.Some?)
    requires from.group.Some? ==> from.group.value != from.point
    ensures Remark(Render(f, from), from, to) == Render(f, to)
  {
    var sign := if f.negative then "-" else "";
    RemarkAppend(sign, RenderUnsigned(f.units, f.places, from), from, to);
    assert Remark(sign, from, to) == sign;
    RenderUnsignedRemark(f.units, f.places, from, to);
  }

  lemma RenderUnsignedRemark(units: nat, places: nat, from: Style, to: Style)
    requires Readable(from) && (from.group.Some? <==> to.group.Some?)
    requires from.group.Some? ==> from.group.value != from.point
    ensures Remark(RenderUnsigned(units, places, from), from, to) == RenderUnsigned(units, places, to)
  {
    var whole := NatToDigits(WholePart(units, places));
    var g := GroupBy(whole, from.group);
    var tail := if places == 0 then "" else [from.point] + FracDigits(units, places);
    assert RenderUnsigned(units, places, from) == g + tail;
    RemarkAppend(g, tail, from, to);
    WholeRemark(whole, from, to);
    TailRemark(units, places, from, to);
  }

  lemma WholeRemark(whole: string, from: Style, to: Style)
    requires Readable(from) && (from.group.Some? <==> to.group.Some?)
    requires from.group.Some? ==> from.group.value != from.point
    requires AllDigits(whole)
    ensures Remark(GroupBy(whole, from.group), from, to) == GroupBy(whole, to.group)
  {
    if from.group.Some? {
      GroupRemark(whole, from, to);
    } else {
      RemarkDigits(whole, from, to);
    }
  }

  lemma TailRemark(units: nat, places: nat, from: Style, to: Style)
    requires Readable(from)
    ensures Remark(if places == 0 then "" else [from.point] + FracDigits(units, places), from, to)
            == if places == 0 then "" else [to.point] + FracDigits(units, places)
  {
    if places > 0 {
      var fd := FracDigits(units, places);
      RemarkAppend([from.point], fd, from, to);
      RemarkDigits(fd, from, to);
    }
  }

  lemma RemarkAppend(a: string, b: string, from: Style, to: Style)
    ensures Remark(a + b, from, to) == Remark(a, from, to) + Remark(b, from, to)
  {
  }

  lemma RemarkDigits(s: string, from: Style, to: Style)
    requires Readable(from) && AllDigits(s)
    ensures Remark(s, from, to) == s
  {
  }

  lemma {:induction false} GroupRemark(s: string, from: Style, to: Style)
    requires Readable(from) && from.group.Some? && to.group.Some?
    requires from.group.value != from.point
    requires AllDigits(s)
    ensures Remark(Group(s, from.group.value), from, to) == Group(s, to.group.value)
    decreases |s|
  {
    var sep := from.group.value;
    if |s| <= 3 {
      RemarkDigits(s, from, to);
    } else {
      var p, t := s[..|s| - 3], s[|s| - 3..];
      GroupRemark(p, from, to);
      RemarkAppend(Group(p, sep) + [sep], t, from, to);
      RemarkAppend(Group(p, sep), [sep], from, to);
      RemarkDigits(t, from, to);
      assert Remark([sep], from, to) == [to.group.value];
    }
  }

  /** A character a rendering in style `st` may contain. */
  predicate RenderChar(c: char, st: Style) {
    IsDigit(c) || c == '-' || c == st.point || (st.group.Some? && c == st.group.value)
  }

  predicate InAlphabet(s: string, st: Style) {
    forall i :: 0 <= i < |s| ==> RenderChar(s[i], st)
  }

  lemma AlphabetAppend(a: string, b: string, st: Style)
    requires InAlphabet(a, st) && InAlphabet(b, st)
    ensures InAlphabet(a + b, st)
  {
  }

  /** A rendering holds only digits, the minus sign and the marks of its style. */
  lemma RenderAlphabet(f: Fixed, st: Style)
    ensures InAlphabet(Render(f, st), st)
  {
    var whole := NatToDigits(WholePart(f.units, f.places));
    var g := GroupBy(whole, st.group);
    if st.group.Some? {
      GroupAlphabet(whole, st.group.value);
    }
    assert InAlphabet(g, st);
    var tail := if f.places == 0 then "" else [st.point] + FracDigits(f.units, f.places);
    assert InAlphabet(tail, st);
    AlphabetAppend(g, tail, st);
    var sign := if f.negative then "-" else "";
    AlphabetAppend(sign, g + tail, st);
  }

  lemma {:induction false} GroupAlphabet(s: string, sep: char)
    requires AllDigits(s)
    ensures forall i :: 0 <= i < |Group(s, sep)| ==> IsDigit(Group(s, sep)[i]) || Group(s, sep)[i] == sep
    decreases |s|
  {
    if |s| > 3 {
      GroupAlphabet(s[..|s| - 3], sep);
    }
  }
}

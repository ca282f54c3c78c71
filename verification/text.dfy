/** The string built-ins the quote viewer relies on, with the semantics of
    Python (`str.strip`, `str.upper`, `str.split`, `str.replace`) and
    JavaScript (`String.prototype.trim`, `toUpperCase`, `split`). */
module Text {

  /** Whose notion of whitespace a trim uses: the two differ on a few code points. */
  datatype Lang = Python | JavaScript

  /** Python's `str.isspace()`: the characters `str.strip()` removes. */
  predicate IsPySpace(c: char) {
    || '\t' <= c <= '\r' || '\U{1C}' <= c <= ' '
    || c == '\U{85}' || c == '\U{A0}' || c == '\U{1680}'
    || '\U{2000}' <= c <= '\U{200A}'
    || c == '\U{2028}' || c == '\U{2029}' || c == '\U{202F}' || c == '\U{205F}' || c == '\U{3000}'
  }

  /** ECMAScript WhiteSpace and LineTerminator: the characters `trim()` removes. */
  predicate IsJsSpace(c: char) {
    || '\t' <= c <= '\r' || c == ' '
    || c == '\U{A0}' || c == '\U{1680}'
    || '\U{2000}' <= c <= '\U{200A}'
    || c == '\U{2028}' || c == '\U{2029}' || c == '\U{202F}' || c == '\U{205F}' || c == '\U{3000}'
    || c == '\U{FEFF}'
  }

  predicate IsSpace(lang: Lang, c: char) {
    match lang
    case Python => IsPySpace(c)
    case JavaScript => IsJsSpace(c)
  }

  predicate AllSpace(lang: Lang, s: string) {
    forall i :: 0 <= i < |s| ==> IsSpace(lang, s[i])
  }

  /** Drops leading whitespace. */
  function TrimStart(lang: Lang, s: string): (r: string)
    ensures |r| <= |s|
    decreases |s|
  {
    if s != [] && IsSpace(lang, s[0]) then TrimStart(lang, s[1..]) else s
  }

  /** Trimming the start removes a run of whitespace and stops at a non-space. */
  lemma {:induction false} TrimStartSpec(lang: Lang, s: string)
    ensures var r := TrimStart(lang, s);
            && r == s[|s| - |r|..]
            && (forall i :: 0 <= i < |s| - |r| ==> IsSpace(lang, s[i]))
            && (r != [] ==> !IsSpace(lang, r[0]))
    decreases |s|
  {
    if s != [] && IsSpace(lang, s[0]) {
      TrimStartSpec(lang, s[1..]);
      var r := TrimStart(lang, s);
      assert s[1..][|s| - 1 - |r|..] == s[|s| - |r|..];
      forall i | 1 <= i < |s| - |r| ensures IsSpace(lang, s[i]) {
        assert s[i] == s[1..][i - 1];
      }
    }
  }

  /** Drops trailing whitespace. */
  function TrimEnd(lang: Lang, s: string): (r: string)
    ensures |r| <= |s|
    decreases |s|
  {
    if s != [] && IsSpace(lang, s[|s| - 1]) then TrimEnd(lang, s[..|s| - 1]) else s
  }

  /** Trimming the end removes a run of whitespace and stops at a non-space. */
  lemma {:induction false} TrimEndSpec(lang: Lang, s: string)
    ensures var r := TrimEnd(lang, s);
            && r == s[..|r|]
            && (forall i :: |r| <= i < |s| ==> IsSpace(lang, s[i]))
            && (r != [] ==> !IsSpace(lang, r[|r| - 1]))
    decreases |s|
  {
    if s != [] && IsSpace(lang, s[|s| - 1]) {
      TrimEndSpec(lang, s[..|s| - 1]);
      var r := TrimEnd(lang, s);
      assert s[..|s| - 1][..|r|] == s[..|r|];
      forall i | |r| <= i < |s| - 1 ensures IsSpace(lang, s[i]) {
        assert s[i] == s[..|s| - 1][i];
      }
    }
  }

  /** `s.strip()` in Python, `s.trim()` in JavaScript: `s` without its leading
      and trailing whitespace. */
  function Strip(lang: Lang, s: string): (r: string)
    ensures |r| <= |s|
  {
    TrimEnd(lang, TrimStart(lang, s))
  }

  /** Stripping leaves nothing exactly when `s` is all whitespace, and otherwise
      leaves a string that starts and ends with a non-space. */
  lemma StripSpec(lang: Lang, s: string)
    ensures Strip(lang, s) == "" <==> AllSpace(lang, s)
    ensures Strip(lang, s) != "" ==>
              !IsSpace(lang, Strip(lang, s)[0]) && !IsSpace(lang, Strip(lang, s)[|Strip(lang, s)| - 1])
  {
    StripEmpty(lang, s);
    if Strip(lang, s) != "" {
      StripEnds(lang, s);
    }
  }

  lemma StripEmpty(lang: Lang, s: string)
    ensures Strip(lang, s) == "" <==> AllSpace(lang, s)
  {
    var t := TrimStart(lang, s);
    assert TrimEnd(lang, t) == "" <==> t == "" by {
      TrimEndSpec(lang, t);
      TrimStartSpec(lang, s);
    }
    assert t == "" <==> AllSpace(lang, s) by {
      TrimStartSpec(lang, s);
    }
  }

  lemma StripEnds(lang: Lang, s: string)
    requires Strip(lang, s) != ""
    ensures !IsSpace(lang, Strip(lang, s)[0]) && !IsSpace(lang, Strip(lang, s)[|Strip(lang, s)| - 1])
  {
    var t := TrimStart(lang, s);
    var r := TrimEnd(lang, t);
    assert r[0] == t[0] && !IsSpace(lang, r[|r| - 1]) by {
      TrimEndSpec(lang, t);
    }
    assert !IsSpace(lang, t[0]) by {
      TrimStartSpec(lang, s);
    }
  }

  /** The stripped string is an infix of `s` with only whitespace around it:
      stripping removes nothing else. */
  lemma StripIsInfix(lang: Lang, s: string) returns (i: nat)
    ensures i + |Strip(lang, s)| <= |s|
    ensures forall k :: 0 <= k < |Strip(lang, s)| ==> Strip(lang, s)[k] == s[i + k]
    ensures forall k :: 0 <= k < i ==> IsSpace(lang, s[k])
    ensures forall k :: i + |Strip(lang, s)| <= k < |s| ==> IsSpace(lang, s[k])
  {
    var t := TrimStart(lang, s);
    var r := TrimEnd(lang, t);
    i := |s| - |t|;
    assert (forall k :: 0 <= k < |t| ==> t[k] == s[i + k]) && (forall k :: 0 <= k < i ==> IsSpace(lang, s[k])) by {
      TrimStartSpec(lang, s);
    }
    assert (forall k :: 0 <= k < |r| ==> r[k] == t[k]) && (forall k :: |r| <= k < |t| ==> IsSpace(lang, t[k])) by {
      TrimEndSpec(lang, t);
    }
    forall k | i + |r| <= k < |s| ensures IsSpace(lang, s[k]) {
      assert s[k] == t[k - i];
    }
  }

  /** Stripping twice is stripping once. */
  lemma StripIdempotent(lang: Lang, s: string)
    ensures Strip(lang, Strip(lang, s)) == Strip(lang, s)
  {
    var r := Strip(lang, s);
    StripSpec(lang, s);
    if r != "" {
      assert TrimStart(lang, r) == r;
      assert TrimEnd(lang, r) == r;
    }
  }

  /** Apart from U+FEFF, which only JavaScript trims, every JavaScript space is a Python space. */
  lemma JsSpaceIsPySpace(c: char)
    requires c != '\U{FEFF}' && IsSpace(JavaScript, c)
    ensures IsSpace(Python, c)
  {
  }

  /** Without U+FEFF, trimming the start stops at the same place in both
      languages when JavaScript stops at a character Python keeps. */
  lemma {:induction false} TrimStartAgree(s: string)
    requires '\U{FEFF}' !in s
    requires TrimStart(JavaScript, s) != [] ==> !IsSpace(Python, TrimStart(JavaScript, s)[0])
    ensures TrimStart(Python, s) == TrimStart(JavaScript, s)
    decreases |s|
  {
    if s != [] && IsSpace(JavaScript, s[0]) {
      JsSpaceIsPySpace(s[0]);
      assert forall k :: 0 <= k < |s| - 1 ==> s[1..][k] == s[k + 1];
      TrimStartAgree(s[1..]);
    }
  }

  /** Without U+FEFF, trimming the end stops at the same place in both
      languages when JavaScript stops at a character Python keeps. */
  lemma {:induction false} TrimEndAgree(s: string)
    requires '\U{FEFF}' !in s
    requires TrimEnd(JavaScript, s) != [] ==> !IsSpace(Python, TrimEnd(JavaScript, s)[|TrimEnd(JavaScript, s)| - 1])
    ensures TrimEnd(Python, s) == TrimEnd(JavaScript, s)
    decreases |s|
  {
    if s != [] && IsSpace(JavaScript, s[|s| - 1]) {
      JsSpaceIsPySpace(s[|s| - 1]);
      var p := s[..|s| - 1];
      assert forall k :: 0 <= k < |p| ==> p[k] == s[k];
      TrimEndAgree(p);
    }
  }

  /** Without U+FEFF, `trim()` and `strip()` agree whenever what `trim()`
      leaves starts and ends with characters Python does not count as space. */
  lemma StripAgree(s: string)
    requires '\U{FEFF}' !in s
    requires Strip(JavaScript, s) != ""
    requires !IsSpace(Python, Strip(JavaScript, s)[0])
    requires !IsSpace(Python, Strip(JavaScript, s)[|Strip(JavaScript, s)| - 1])
    ensures Strip(Python, s) == Strip(JavaScript, s)
  {
    var t := TrimStart(JavaScript, s);
    var r := TrimEnd(JavaScript, t);
    TrimStartSpec(JavaScript, s);
    TrimEndSpec(JavaScript, t);
    assert r[0] == t[0];
    TrimStartAgree(s);
    assert forall k :: 0 <= k < |t| ==> t[k] == s[|s| - |t| + k];
    TrimEndAgree(t);
  }

  predicate IsLower(c: char) { 'a' <= c <= 'z' }

  predicate IsUpper(c: char) { 'A' <= c <= 'Z' }

  predicate IsDigit(c: char) { '0' <= c <= '9' }

  /** An ASCII capital letter or digit. */
  predicate IsAlnum(c: char) { IsUpper(c) || IsDigit(c) }

  /** Capital letters and digits are not whitespace in either language. */
  lemma AlnumNotSpace(lang: Lang, c: char)
    requires IsAlnum(c)
    ensures !IsSpace(lang, c)
  {
  }

  /** A string of capital letters and digits is left alone by stripping and upper-casing. */
  lemma AlnumFixed(lang: Lang, s: string)
    requires s != [] && forall i :: 0 <= i < |s| ==> IsAlnum(s[i])
    ensures Strip(lang, s) == s && Upper(s) == s
  {
    AlnumNotSpace(lang, s[0]);
    AlnumNotSpace(lang, s[|s| - 1]);
    assert TrimStart(lang, s) == s;
    assert TrimEnd(lang, s) == s;
  }

  function UpperChar(c: char): char {
    if IsLower(c) then (c as int - 32) as char else c
  }

  /** `s.upper()` / `s.toUpperCase()` restricted to the ASCII letters. */
  function Upper(s: string): (r: string)
    ensures |r| == |s|
    ensures forall i :: 0 <= i < |s| ==> !IsLower(r[i])
    ensures forall i :: 0 <= i < |s| && !IsLower(s[i]) ==> r[i] == s[i]
    ensures forall i :: 0 <= i < |s| && IsLower(s[i]) ==> IsUpper(r[i])
  {
    seq(|s|, i requires 0 <= i < |s| => UpperChar(s[i]))
  }

  /** Upper-casing is idempotent. */
  lemma UpperIdempotent(s: string)
    ensures Upper(Upper(s)) == Upper(s)
  {
  }

  /** Upper-casing commutes with concatenation. */
  lemma UpperAppend(a: string, b: string)
    ensures Upper(a + b) == Upper(a) + Upper(b)
  {
  }

  /** Upper-casing never turns a non-space into a space or back, so it commutes with trimming. */
  lemma {:induction false} StripUpper(lang: Lang, s: string)
    ensures Strip(lang, Upper(s)) == Upper(Strip(lang, s))
  {
    StripUpperStart(lang, s);
    StripUpperEnd(lang, TrimStart(lang, s));
  }

  lemma UpperCharSpace(lang: Lang, c: char)
    ensures IsSpace(lang, UpperChar(c)) == IsSpace(lang, c)
  {
    if IsLower(c) {
      assert 'A' <= UpperChar(c) <= 'Z';
    }
  }

  lemma {:induction false} StripUpperStart(lang: Lang, s: string)
    ensures TrimStart(lang, Upper(s)) == Upper(TrimStart(lang, s))
    decreases |s|
  {
    if s != [] {
      var u := Upper(s);
      assert u[1..] == Upper(s[1..]);
      assert IsSpace(lang, u[0]) == IsSpace(lang, s[0]) by {
        assert u[0] == UpperChar(s[0]);
        UpperCharSpace(lang, s[0]);
      }
      if IsSpace(lang, s[0]) {
        StripUpperStart(lang, s[1..]);
      }
    }
  }

  lemma {:induction false} StripUpperEnd(lang: Lang, s: string)
    ensures TrimEnd(lang, Upper(s)) == Upper(TrimEnd(lang, s))
    decreases |s|
  {
    if s != [] {
      var u, n := Upper(s), |s| - 1;
      assert u[..n] == Upper(s[..n]);
      assert IsSpace(lang, u[n]) == IsSpace(lang, s[n]) by {
        assert u[n] == UpperChar(s[n]);
        UpperCharSpace(lang, s[n]);
      }
      if IsSpace(lang, s[n]) {
        StripUpperEnd(lang, s[..n]);
      }
    }
  }

  /** `s.split(sep)` with a one-character separator, in Python and JavaScript alike:
      n separators give n + 1 pieces, and "" gives [""]. */
  function Split(s: string, sep: char): (r: seq<string>)
    ensures |r| >= 1
    ensures forall i :: 0 <= i < |r| ==> sep !in r[i]
    decreases |s|
  {
    if s == [] then [""]
    else
      var rest := Split(s[1..], sep);
      if s[0] == sep then [""] + rest
      else [[s[0]] + rest[0]] + rest[1..]
  }

  /** `sep.join(parts)`. */
  function Join(parts: seq<string>, sep: char): string
    decreases |parts|
  {
    if |parts| == 0 then ""
    else if |parts| == 1 then parts[0]
    else parts[0] + [sep] + Join(parts[1..], sep)
  }

  /** The pieces concatenated without any separator. */
  function Concat(parts: seq<string>): string
    decreases |parts|
  {
    if parts == [] then "" else parts[0] + Concat(parts[1..])
  }

  /** A character missing from `s` is missing from every piece of its split. */
  lemma {:induction false} SplitWithout(s: string, sep: char, c: char)
    requires c !in s
    ensures forall i :: 0 <= i < |Split(s, sep)| ==> c !in Split(s, sep)[i]
    decreases |s|
  {
    if s != [] {
      assert c !in s[1..] by {
        forall k | 0 <= k < |s| - 1 ensures s[1..][k] != c {
          assert s[1..][k] == s[k + 1];
        }
      }
      SplitWithout(s[1..], sep, c);
    }
  }

  /** Upper-casing before splitting on a character that is not a letter
      upper-cases every piece. */
  lemma {:induction false} SplitUpper(s: string, sep: char)
    requires !IsLower(sep) && !IsUpper(sep)
    ensures |Split(Upper(s), sep)| == |Split(s, sep)|
    ensures forall i :: 0 <= i < |Split(s, sep)| ==> Split(Upper(s), sep)[i] == Upper(Split(s, sep)[i])
    decreases |s|
  {
    if s != [] {
      var u := Upper(s);
      assert u[1..] == Upper(s[1..]);
      assert u[0] == UpperChar(s[0]);
      assert u[0] == sep <==> s[0] == sep;
      SplitUpper(s[1..], sep);
      var rest, urest := Split(s[1..], sep), Split(u[1..], sep);
      if s[0] == sep {
        SplitUpperSep(rest, urest);
      } else {
        UpperAppend([s[0]], rest[0]);
        assert Upper([s[0]]) == [u[0]];
        SplitUpperGlue(u[0], s[0], rest, urest);
      }
    }
  }

  lemma SplitUpperSep(rest: seq<string>, urest: seq<string>)
    requires |urest| == |rest|
    requires forall i :: 0 <= i < |rest| ==> urest[i] == Upper(rest[i])
    ensures forall i :: 0 <= i < |rest| + 1 ==> ([""] + urest)[i] == Upper(([""] + rest)[i])
  {
    forall i | 0 <= i < |rest| + 1 ensures ([""] + urest)[i] == Upper(([""] + rest)[i]) {
      if i > 0 {
        assert ([""] + urest)[i] == urest[i - 1] && ([""] + rest)[i] == rest[i - 1];
      }
    }
  }

  lemma SplitUpperGlue(uc: char, c: char, rest: seq<string>, urest: seq<string>)
    requires |urest| == |rest| >= 1 && Upper([c]) == [uc]
    requires forall i :: 0 <= i < |rest| ==> urest[i] == Upper(rest[i])
    requires Upper([c] + rest[0]) == Upper([c]) + Upper(rest[0])
    ensures forall i :: 0 <= i < |rest| ==>
              ([[uc] + urest[0]] + urest[1..])[i] == Upper(([[c] + rest[0]] + rest[1..])[i])
  {
    forall i | 0 <= i < |rest|
      ensures ([[uc] + urest[0]] + urest[1..])[i] == Upper(([[c] + rest[0]] + rest[1..])[i])
    {
      if i > 0 {
        assert ([[uc] + urest[0]] + urest[1..])[i] == urest[i];
        assert ([[c] + rest[0]] + rest[1..])[i] == rest[i];
      }
    }
  }

  /** Joining the pieces of a split gives back the string. */
  lemma {:induction false} JoinSplit(s: string, sep: char)
    ensures Join(Split(s, sep), sep) == s
    decreases |s|
  {
    if s != [] {
      var rest := Split(s[1..], sep);
      assert Join(rest, sep) == s[1..] by {
        JoinSplit(s[1..], sep);
      }
      if s[0] == sep {
        assert Split(s, sep) == [""] + rest;
        JoinCons("", rest, sep);
        assert s == [sep] + s[1..];
      } else if |rest| == 1 {
        assert Split(s, sep) == [[s[0]] + rest[0]];
        assert s == [s[0]] + s[1..];
      } else {
        assert Split(s, sep) == [[s[0]] + rest[0]] + rest[1..];
        assert rest == [rest[0]] + rest[1..];
        JoinCons(rest[0], rest[1..], sep);
        JoinCons([s[0]] + rest[0], rest[1..], sep);
        assert s == [s[0]] + s[1..];
      }
    }
  }

  /** Joining a piece in front of at least one more puts a separator after it. */
  lemma JoinCons(p: string, ps: seq<string>, sep: char)
    requires |ps| >= 1
    ensures Join([p] + ps, sep) == p + [sep] + Join(ps, sep)
  {
    assert ([p] + ps)[0] == p && ([p] + ps)[1..] == ps;
  }

  /** A string without the separator is a single piece. */
  lemma {:induction false} SplitNoSep(s: string, sep: char)
    requires sep !in s
    ensures Split(s, sep) == [s]
    decreases |s|
  {
    if s != [] {
      SplitNoSep(s[1..], sep);
      assert s == [s[0]] + s[1..];
    }
  }

  /** Concatenation is associative; stated once so that proofs can name it. */
  lemma AppendAssoc<T>(x: seq<T>, y: seq<T>, z: seq<T>)
    ensures x + (y + z) == (x + y) + z
  {
  }

  /** Splitting around one separator splits both sides independently. */
  lemma {:induction false} SplitConcat(a: string, b: string, sep: char)
    ensures Split(a + [sep] + b, sep) == Split(a, sep) + Split(b, sep)
    decreases |a|
  {
    if a == [] {
      assert [sep] + b == a + [sep] + b;
      assert ([sep] + b)[1..] == b;
    } else {
      var s := a + [sep] + b;
      assert s[0] == a[0] && s[1..] == a[1..] + [sep] + b;
      SplitConcat(a[1..], b, sep);
      var r1, r2 := Split(a[1..], sep), Split(b, sep);
      if a[0] == sep {
        AppendAssoc([""], r1, r2);
      } else {
        assert (r1 + r2)[0] == r1[0] && (r1 + r2)[1..] == r1[1..] + r2;
        AppendAssoc([[a[0]] + r1[0]], r1[1..], r2);
      }
    }
  }

  /** Splitting is the inverse of joining pieces that do not contain the separator. */
  lemma {:induction false} SplitJoin(parts: seq<string>, sep: char)
    requires |parts| >= 1
    requires forall i :: 0 <= i < |parts| ==> sep !in parts[i]
    ensures Split(Join(parts, sep), sep) == parts
    decreases |parts|
  {
    if |parts| == 1 {
      SplitNoSep(parts[0], sep);
    } else {
      SplitJoin(parts[1..], sep);
      SplitNoSep(parts[0], sep);
      SplitConcat(parts[0], Join(parts[1..], sep), sep);
      assert parts == [parts[0]] + parts[1..];
    }
  }

  lemma {:induction false} ConcatAppend(a: seq<string>, b: seq<string>)
    ensures Concat(a + b) == Concat(a) + Concat(b)
    decreases |a|
  {
    if a != [] {
      assert (a + b)[0] == a[0];
      assert (a + b)[1..] == a[1..] + b;
      ConcatAppend(a[1..], b);
      calc {
        Concat(a + b);
        a[0] + Concat(a[1..] + b);
        a[0] + (Concat(a[1..]) + Concat(b));
        (a[0] + Concat(a[1..])) + Concat(b);
      }
    } else {
      assert a + b == b;
    }
  }

  /** `s.replace(a, b)` for single characters. */
  function ReplaceChar(s: string, a: char, b: char): (r: string)
    ensures |r| == |s|
    ensures forall i :: 0 <= i < |s| ==> r[i] == (if s[i] == a then b else s[i])
    ensures a != b ==> a !in r
    decreases |s|
  {
    if s == [] then []
    else [if s[0] == a then b else s[0]] + ReplaceChar(s[1..], a, b)
  }

  /** Exchanges two characters everywhere. */
  function SwapChars(s: string, a: char, b: char): (r: string)
    ensures |r| == |s|
  {
    seq(|s|, i requires 0 <= i < |s| => if s[i] == a then b else if s[i] == b then a else s[i])
  }

  /** The three-step `replace` through a placeholder swaps the two characters,
      provided the placeholder does not already occur. */
  lemma SwapViaPlaceholder(s: string, a: char, b: char, x: char)
    requires x != a && x != b && a != b
    requires x !in s
    ensures ReplaceChar(ReplaceChar(ReplaceChar(s, a, x), b, a), x, b) == SwapChars(s, a, b)
  {
  }

  /** If the placeholder does occur, it comes out as the second character: the
      three-step `replace` is not a swap in general. */
  lemma SwapViaPlaceholderClobbers(a: char, b: char, x: char)
    requires x != a && x != b && a != b
    ensures ReplaceChar(ReplaceChar(ReplaceChar([x], a, x), b, a), x, b) == [b]
    ensures SwapChars([x], a, b) == [x]
  {
  }
}

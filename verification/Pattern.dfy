/** LIKE and GLOB: a backtracking matcher and the language it decides. */
module Pattern {

  /** A character; 0 ends a string and so is never part of one. */
  type Code = c: nat | c > 0 witness 1

  /** The special characters of a kind of pattern; a `matchSet` of 0 means none. */
  datatype CompareInfo = CompareInfo(matchAll: Code, matchOne: Code, matchSet: nat, noCase: bool)

  const CARET: Code := 94
  const BRACKET: Code := 93
  const HYPHEN: Code := 45

  const GLOB := CompareInfo(42, 63, 91, false)
  const LIKE := CompareInfo(37, 95, 0, true)

  /** ASCII letters compare without case. */
  function Lower(c: nat): nat {
    if 65 <= c <= 90 then c + 32 else c
  }

  predicate Same(noCase: bool, a: nat, b: nat) {
    if noCase then Lower(a) == Lower(b) else a == b
  }

  // ---- the language of a pattern ----

  datatype Range = Range(lo: nat, hi: nat)

  /** `Never` matches nothing: a set that is not closed. */
  datatype Element = Any | One | Char(c: Code) | OneOf(items: seq<Range>, invert: bool) | Never

  predicate InSet(items: seq<Range>, c: nat) {
    exists i :: 0 <= i < |items| && items[i].lo <= c <= items[i].hi
  }

  predicate Accepts(e: Element, noCase: bool, c: Code) {
    match e
    case Any => true
    case One => true
    case Char(d) => Same(noCase, c, d)
    case OneOf(items, invert) => InSet(items, c) != invert
    case Never => false
  }

  /** Whether a string is in the language of a sequence of elements. */
  ghost predicate Matches(es: seq<Element>, s: seq<Code>, noCase: bool) {
    if es == [] then s == []
    else if es[0] == Any then exists k :: 0 <= k <= |s| && Matches(es[1..], s[k..], noCase)
    else s != [] && Accepts(es[0], noCase, s[0]) && Matches(es[1..], s[1..], noCase)
  }

  /** A set as written after its opening bracket: its ranges and what follows it. */
  datatype SetText = Open | Closed(items: seq<Range>, invert: bool, rest: seq<Code>)

  function ScanSet(p: seq<Code>, prior: nat, items: seq<Range>, invert: bool): (t: SetText)
    ensures t.Closed? ==> |t.rest| < |p|
    decreases |p|
  {
    if p == [] then Open
    else if p[0] == BRACKET then Closed(items, invert, p[1..])
    else if p[0] == HYPHEN && |p| > 1 && p[1] != BRACKET && prior > 0 then ScanSet(p[2..], 0, items + [Range(prior, p[1])], invert)
    else ScanSet(p[1..], p[0], items + [Range(p[0], p[0])], invert)
  }

  function ParseSet(p: seq<Code>): (t: SetText)
    ensures t.Closed? ==> |t.rest| < |p|
  {
    var invert := p != [] && p[0] == CARET;
    var q := if invert then p[1..] else p;
    if q != [] && q[0] == BRACKET then ScanSet(q[1..], 0, [Range(BRACKET, BRACKET)], invert) else ScanSet(q, 0, [], invert)
  }

  /** The elements a pattern denotes. An escape character with nothing after it
      stands for nothing, except behind a wildcard, where nothing matches. */
  function Elements(p: seq<Code>, info: CompareInfo, esc: nat, afterAny: bool): seq<Element>
    decreases |p|
  {
    if p == [] then []
    else if p[0] == info.matchAll then [Any] + Elements(p[1..], info, esc, true)
    else if p[0] == info.matchOne then [One] + Elements(p[1..], info, esc, afterAny)
    else if p[0] == info.matchSet then
      var t := ParseSet(p[1..]);
      if t.Open? then [Never] else [OneOf(t.items, t.invert)] + Elements(t.rest, info, esc, false)
    else if p[0] == esc then
      if |p| == 1 then (if afterAny then [Never] else []) else [Char(p[1])] + Elements(p[2..], info, esc, false)
    else [Char(p[0])] + Elements(p[1..], info, esc, false)
  }

  /** What is left of a pattern, the first character being escaped. */
  function Remaining(p: seq<Code>, info: CompareInfo, esc: nat, prevEscape: bool): seq<Element> {
    if !prevEscape then Elements(p, info, esc, false)
    else if p == [] then [] else [Char(p[0])] + Elements(p[1..], info, esc, false)
  }

  ghost predicate Language(p: seq<Code>, info: CompareInfo, esc: nat, s: seq<Code>) {
    Matches(Elements(p, info, esc, false), s, info.noCase)
  }

  // ---- wildcards ----

  lemma AnyAny(es: seq<Element>, s: seq<Code>, noCase: bool)
    ensures Matches([Any, Any] + es, s, noCase) <==> Matches([Any] + es, s, noCase)
  {
    AnyMeans([Any] + es, s, noCase);
    AnyMeans(es, s, noCase);
    assert [Any] + ([Any] + es) == [Any, Any] + es;
    if Matches([Any, Any] + es, s, noCase) {
      var k :| 0 <= k <= |s| && Matches([Any] + es, s[k..], noCase);
      AnyMeans(es, s[k..], noCase);
      var m :| 0 <= m <= |s[k..]| && Matches(es, s[k..][m..], noCase);
      assert s[k..][m..] == s[k + m..];
    }
    if Matches([Any] + es, s, noCase) {
      assert s[0..] == s;
    }
  }

  lemma AnyMeans(es: seq<Element>, s: seq<Code>, noCase: bool)
    ensures Matches([Any] + es, s, noCase) <==> exists k :: 0 <= k <= |s| && Matches(es, s[k..], noCase)
  {
    assert ([Any] + es)[1..] == es;
  }

  lemma StepMeans(e: Element, es: seq<Element>, s: seq<Code>, noCase: bool)
    requires e != Any
    ensures Matches([e] + es, s, noCase) <==> s != [] && Accepts(e, noCase, s[0]) && Matches(es, s[1..], noCase)
  {
    assert ([e] + es)[1..] == es;
  }

  /** A wildcard may give a character to the single-character wildcard first. */
  lemma AnyOne(es: seq<Element>, s: seq<Code>, noCase: bool)
    ensures Matches([Any, One] + es, s, noCase) <==> s != [] && Matches([Any] + es, s[1..], noCase)
  {
    AnyMeans([One] + es, s, noCase);
    assert [Any] + ([One] + es) == [Any, One] + es;
    if Matches([Any, One] + es, s, noCase) {
      var k :| 0 <= k <= |s| && Matches([One] + es, s[k..], noCase);
      StepMeans(One, es, s[k..], noCase);
      assert s[k..][1..] == s[1..][k..];
      AnyMeans(es, s[1..], noCase);
    }
    if s != [] && Matches([Any] + es, s[1..], noCase) {
      AnyMeans(es, s[1..], noCase);
      var k :| 0 <= k <= |s[1..]| && Matches(es, s[1..][k..], noCase);
      assert s[k..][1..] == s[1..][k..];
      StepMeans(One, es, s[k..], noCase);
    }
  }

  /** Before any other element, a wildcard skips or does not. */
  lemma AnySkips(es: seq<Element>, s: seq<Code>, noCase: bool)
    ensures Matches([Any] + es, s, noCase) <==> Matches(es, s, noCase) || (s != [] && Matches([Any] + es, s[1..], noCase))
  {
    AnyMeans(es, s, noCase);
    assert s[0..] == s;
    if s != [] {
      AnyMeans(es, s[1..], noCase);
      forall k | 0 <= k < |s| ensures s[1..][k..] == s[k + 1..] {
      }
      if Matches([Any] + es, s, noCase) && !Matches(es, s, noCase) {
        var k :| 0 <= k <= |s| && Matches(es, s[k..], noCase);
        assert s[1..][k - 1..] == s[k..];
      }
    }
  }

  // ---- the matcher ----

  /** Compares one character with a set; `n` characters of the pattern are used. */
  method CompareSet(p: seq<Code>, c: Code) returns (ok: bool, n: nat)
    ensures var t := ParseSet(p); (ok <==> t.Closed? && InSet(t.items, c) != t.invert) && (ok ==> n <= |p| && p[n..] == t.rest)
  {
    hide InSet, ScanSet;
    var seen, invert := false, false;
    var prior: nat := 0;
    ghost var items: seq<Range> := [];
    n := 0;
    NoItems(c);
    if n < |p| && p[n] == CARET {
      invert, n := true, n + 1;
    }
    SetStart(p, n, invert);
    if n < |p| && p[n] == BRACKET {
      OneItem([], BRACKET, BRACKET, c);
      items := [Range(BRACKET, BRACKET)];
      assert [] + items == items;
      if c == BRACKET { seen := true; }
      n := n + 1;
    }
    while n < |p| && p[n] != BRACKET
      invariant 0 <= n <= |p| && ParseSet(p) == ScanSet(p[n..], prior, items, invert)
      invariant seen <==> InSet(items, c)
      decreases |p| - n
    {
      SetStep(p, n, prior, items, invert);
      if p[n] == HYPHEN && n + 1 < |p| && p[n + 1] != BRACKET && prior > 0 {
        OneItem(items, prior, p[n + 1], c);
        items := items + [Range(prior, p[n + 1])];
        if prior <= c <= p[n + 1] { seen := true; }
        n, prior := n + 2, 0;
      } else {
        OneItem(items, p[n], p[n], c);
        items := items + [Range(p[n], p[n])];
        if c == p[n] { seen := true; }
        n, prior := n + 1, p[n];
      }
    }
    SetEnd(p, n, prior, items, invert);
    ok := n < |p| && seen != invert;
    if n < |p| { n := n + 1; }
  }

  lemma SetStart(p: seq<Code>, n: nat, invert: bool)
    requires invert == (p != [] && p[0] == CARET) && n == if invert then 1 else 0
    ensures ParseSet(p) == if n < |p| && p[n] == BRACKET then ScanSet(p[n + 1..], 0, [Range(BRACKET, BRACKET)], invert)
                           else ScanSet(p[n..], 0, [], invert)
  {
    assert p[0..] == p;
    if invert && |p| > 1 { assert p[1..][1..] == p[2..]; }
  }

  lemma SetStep(p: seq<Code>, n: nat, prior: nat, items: seq<Range>, invert: bool)
    requires n < |p| && p[n] != BRACKET
    ensures ScanSet(p[n..], prior, items, invert)
         == if p[n] == HYPHEN && n + 1 < |p| && p[n + 1] != BRACKET && prior > 0 then ScanSet(p[n + 2..], 0, items + [Range(prior, p[n + 1])], invert)
            else ScanSet(p[n + 1..], p[n], items + [Range(p[n], p[n])], invert)
  {
    assert p[n..][1..] == p[n + 1..];
    if n + 1 < |p| { assert p[n..][2..] == p[n + 2..] && p[n..][1] == p[n + 1]; }
  }

  lemma SetEnd(p: seq<Code>, n: nat, prior: nat, items: seq<Range>, invert: bool)
    requires n <= |p| && (n < |p| ==> p[n] == BRACKET)
    ensures ScanSet(p[n..], prior, items, invert) == if n < |p| then Closed(items, invert, p[n + 1..]) else Open
  {
    if n < |p| { assert p[n..][1..] == p[n + 1..]; }
  }

  lemma NoItems(c: nat)
    ensures !InSet([], c)
  {
  }

  lemma OneItem(items: seq<Range>, lo: nat, hi: nat, c: nat)
    ensures InSet(items + [Range(lo, hi)], c) <==> InSet(items, c) || lo <= c <= hi
  {
    var more := items + [Range(lo, hi)];
    if InSet(items, c) {
      var i :| 0 <= i < |items| && items[i].lo <= c <= items[i].hi;
      assert more[i] == items[i];
    }
    assert more[|items|] == Range(lo, hi);
  }

  /** Decides whether a string is in the language of a pattern. */
  method PatternCompare(p: seq<Code>, s: seq<Code>, info: CompareInfo, esc: nat) returns (r: bool)
    requires info.matchSet != 0 ==> esc == 0
    ensures r <==> Language(p, info, esc, s)
    decreases |p|, 0
  {
    hide Matches, Elements, Accepts;
    var i, j, prevEscape := 0, 0, false;
    assert p[0..] == p && s[0..] == s;
    while i < |p|
      invariant 0 <= i <= |p| && 0 <= j <= |s| && (prevEscape ==> esc != 0)
      invariant Language(p, info, esc, s) <==> Matches(Remaining(p[i..], info, esc, prevEscape), s[j..], info.noCase)
      decreases |p| - i
    {
      var c := p[i];
      ghost var rest, str := p[i..], s[j..];
      assert rest[0] == c && rest[1..] == p[i + 1..] && (j < |s| ==> str[0] == s[j] && str[1..] == s[j + 1..]);
      i := i + 1;
      if !prevEscape && c == info.matchAll {
        AllFirst(rest, info, esc);
        r := MatchAll(p[i..], s[j..], info, esc);
        return;
      } else if !prevEscape && c == info.matchOne {
        OneFirst(rest, str, info, esc);
        if j == |s| { return false; }
        j := j + 1;
      } else if c == info.matchSet {
        SetFirst(rest, str, info, esc);
        if j == |s| { return false; }
        var ok, n := CompareSet(p[i..], s[j]);
        if !ok { return false; }
        assert p[i..][n..] == p[i + n..];
        i, j := i + n, j + 1;
      } else if c == esc && !prevEscape {
        EscapeFirst(rest, info, esc);
        prevEscape := true;
      } else {
        CharFirst(rest, str, info, esc, prevEscape);
        if j == |s| || !Same(info.noCase, s[j], c) { return false; }
        j, prevEscape := j + 1, false;
      }
    }
    AtEnd(p[i..], s[j..], info, esc, prevEscape);
    return j == |s|;
  }

  /** Continues behind a wildcard, trying every place where the rest may match. */
  method MatchAll(p: seq<Code>, s: seq<Code>, info: CompareInfo, esc: nat) returns (r: bool)
    requires info.matchSet != 0 ==> esc == 0
    ensures r <==> Matches([Any] + Elements(p, info, esc, true), s, info.noCase)
    decreases |p|, 2
  {
    hide Matches, Elements, Accepts;
    var i, j := 0, 0;
    assert p[0..] == p && s[0..] == s;
    while i < |p| && (p[i] == info.matchAll || p[i] == info.matchOne)
      invariant 0 <= i <= |p| && 0 <= j <= |s|
      invariant Matches([Any] + Elements(p, info, esc, true), s, info.noCase)
           <==> Matches([Any] + Elements(p[i..], info, esc, true), s[j..], info.noCase)
    {
      assert p[i..][1..] == p[i + 1..] && (j < |s| ==> s[j..][1..] == s[j + 1..]);
      WildFirst(p[i..], s[j..], info, esc);
      if p[i] == info.matchOne && p[i] != info.matchAll {
        if j == |s| { return false; }
        j := j + 1;
      }
      i := i + 1;
    }
    if i == |p| {
      AnyAtEnd(p[i..], s[j..], info, esc);
      return true;
    }
    var c := p[i];
    ghost var rest := p[i..];
    assert rest[1..] == p[i + 1..] && (i + 2 <= |p| ==> rest[2..] == p[i + 2..]);
    i := i + 1;
    if c == esc {
      EscapeAfterAny(rest, s[j..], info, esc);
      if i == |p| { return false; }
      c, i := p[i], i + 1;
    } else if c == info.matchSet {
      SetAfterAny(rest, info, esc);
      r := SearchSet(p[i - 1..], s[j..], info, esc);
      return;
    } else {
      CharAfterAny(rest, info, esc);
    }
    r := SearchChar(c, p[i..], s[j..], info, esc);
  }

  /** Tries the rest of the pattern behind every occurrence of a character. */
  method SearchChar(c: Code, p: seq<Code>, s: seq<Code>, info: CompareInfo, esc: nat) returns (r: bool)
    requires info.matchSet != 0 ==> esc == 0
    ensures r <==> Matches([Any, Char(c)] + Elements(p, info, esc, false), s, info.noCase)
    decreases |p|, 1
  {
    hide Matches, Elements;
    ghost var es := Elements(p, info, esc, false);
    var j := 0;
    assert s[0..] == s;
    while j < |s|
      invariant 0 <= j <= |s|
      invariant Matches([Any, Char(c)] + es, s, info.noCase) <==> Matches([Any, Char(c)] + es, s[j..], info.noCase)
    {
      CharSearch(c, es, s[j..], info.noCase);
      assert s[j..][1..] == s[j + 1..];
      if Same(info.noCase, s[j], c) {
        r := PatternCompare(p, s[j + 1..], info, esc);
        if r { return; }
      }
      j := j + 1;
    }
    assert s[j..] == [];
    CharSearch(c, es, [], info.noCase);
    return false;
  }

  /** Tries a pattern that begins with a set at every position. */
  method SearchSet(p: seq<Code>, s: seq<Code>, info: CompareInfo, esc: nat) returns (r: bool)
    requires (info.matchSet != 0 ==> esc == 0) && p != [] && p[0] == info.matchSet != info.matchAll && p[0] != info.matchOne
    ensures r <==> Matches([Any] + Elements(p, info, esc, false), s, info.noCase)
    decreases |p|, 1
  {
    hide Matches, Elements;
    ghost var es := Elements(p, info, esc, false);
    var j := 0;
    assert s[0..] == s;
    while j < |s|
      invariant 0 <= j <= |s|
      invariant Matches([Any] + es, s, info.noCase) <==> Matches([Any] + es, s[j..], info.noCase)
    {
      r := PatternCompare(p, s[j..], info, esc);
      AnySkips(es, s[j..], info.noCase);
      assert s[j..][1..] == s[j + 1..];
      if r { return; }
      j := j + 1;
    }
    assert s[j..] == [];
    SetNeedsOne(p, info, esc);
    AnySkips(es, [], info.noCase);
    return false;
  }

  // ---- one step of the matcher ----

  lemma AllFirst(p: seq<Code>, info: CompareInfo, esc: nat)
    requires p != [] && p[0] == info.matchAll
    ensures Elements(p, info, esc, false) == [Any] + Elements(p[1..], info, esc, true)
  {
  }

  lemma OneFirst(p: seq<Code>, s: seq<Code>, info: CompareInfo, esc: nat)
    requires p != [] && p[0] == info.matchOne != info.matchAll
    ensures Matches(Elements(p, info, esc, false), s, info.noCase) <==> s != [] && Matches(Elements(p[1..], info, esc, false), s[1..], info.noCase)
  {
    StepMeans(One, Elements(p[1..], info, esc, false), s, info.noCase);
  }

  lemma SetFirst(p: seq<Code>, s: seq<Code>, info: CompareInfo, esc: nat)
    requires p != [] && p[0] == info.matchSet && p[0] != info.matchOne && p[0] != info.matchAll
    ensures var t := ParseSet(p[1..]);
            Matches(Elements(p, info, esc, false), s, info.noCase)
            <==> t.Closed? && s != [] && InSet(t.items, s[0]) != t.invert && Matches(Elements(t.rest, info, esc, false), s[1..], info.noCase)
  {
    var t := ParseSet(p[1..]);
    if t.Closed? {
      StepMeans(OneOf(t.items, t.invert), Elements(t.rest, info, esc, false), s, info.noCase);
    } else {
      StepMeans(Never, [], s, info.noCase);
      assert [Never] + [] == [Never];
    }
  }

  lemma EscapeFirst(p: seq<Code>, info: CompareInfo, esc: nat)
    requires p != [] && p[0] == esc && p[0] != info.matchSet && p[0] != info.matchOne && p[0] != info.matchAll
    ensures Elements(p, info, esc, false) == Remaining(p[1..], info, esc, true)
  {
    if |p| > 1 { assert p[1..][1..] == p[2..]; }
  }

  lemma CharFirst(p: seq<Code>, s: seq<Code>, info: CompareInfo, esc: nat, prevEscape: bool)
    requires p != [] && (prevEscape || (p[0] != info.matchAll && p[0] != info.matchOne && p[0] != info.matchSet && p[0] != esc))
    ensures Matches(Remaining(p, info, esc, prevEscape), s, info.noCase)
       <==> s != [] && Same(info.noCase, s[0], p[0]) && Matches(Elements(p[1..], info, esc, false), s[1..], info.noCase)
  {
    StepMeans(Char(p[0]), Elements(p[1..], info, esc, false), s, info.noCase);
  }

  lemma AtEnd(p: seq<Code>, s: seq<Code>, info: CompareInfo, esc: nat, prevEscape: bool)
    requires p == []
    ensures Matches(Remaining(p, info, esc, prevEscape), s, info.noCase) <==> s == []
  {
  }

  lemma WildFirst(p: seq<Code>, s: seq<Code>, info: CompareInfo, esc: nat)
    requires p != [] && (p[0] == info.matchAll || p[0] == info.matchOne)
    ensures var es := Elements(p[1..], info, esc, true);
            Matches([Any] + Elements(p, info, esc, true), s, info.noCase)
            <==> if p[0] == info.matchAll then Matches([Any] + es, s, info.noCase) else s != [] && Matches([Any] + es, s[1..], info.noCase)
  {
    var es := Elements(p[1..], info, esc, true);
    assert [Any] + ([Any] + es) == [Any, Any] + es && [Any] + ([One] + es) == [Any, One] + es;
    AnyAny(es, s, info.noCase);
    AnyOne(es, s, info.noCase);
  }

  lemma AnyAtEnd(p: seq<Code>, s: seq<Code>, info: CompareInfo, esc: nat)
    requires p == []
    ensures Matches([Any] + Elements(p, info, esc, true), s, info.noCase)
  {
    AnyMeans([], s, info.noCase);
    assert s[|s|..] == [];
  }

  lemma EscapeAfterAny(p: seq<Code>, s: seq<Code>, info: CompareInfo, esc: nat)
    requires p != [] && p[0] == esc && p[0] != info.matchSet && p[0] != info.matchOne && p[0] != info.matchAll
    ensures |p| == 1 ==> !Matches([Any] + Elements(p, info, esc, true), s, info.noCase)
    ensures |p| > 1 ==> [Any] + Elements(p, info, esc, true) == [Any, Char(p[1])] + Elements(p[2..], info, esc, false)
  {
    if |p| == 1 {
      AnyMeans([Never], s, info.noCase);
      forall k | 0 <= k <= |s| ensures !Matches([Never], s[k..], info.noCase) {
        StepMeans(Never, [], s[k..], info.noCase);
        assert [Never] + [] == [Never];
      }
    }
  }

  lemma SetAfterAny(p: seq<Code>, info: CompareInfo, esc: nat)
    requires p != [] && p[0] == info.matchSet && p[0] != info.matchOne && p[0] != info.matchAll
    ensures Elements(p, info, esc, true) == Elements(p, info, esc, false)
  {
  }

  lemma CharAfterAny(p: seq<Code>, info: CompareInfo, esc: nat)
    requires p != [] && p[0] != info.matchAll && p[0] != info.matchOne && p[0] != info.matchSet && p[0] != esc
    ensures [Any] + Elements(p, info, esc, true) == [Any, Char(p[0])] + Elements(p[1..], info, esc, false)
  {
  }

  lemma CharSearch(c: Code, es: seq<Element>, s: seq<Code>, noCase: bool)
    ensures Matches([Any, Char(c)] + es, s, noCase)
       <==> s != [] && ((Same(noCase, s[0], c) && Matches(es, s[1..], noCase)) || Matches([Any, Char(c)] + es, s[1..], noCase))
  {
    assert [Any] + ([Char(c)] + es) == [Any, Char(c)] + es;
    AnySkips([Char(c)] + es, s, noCase);
    StepMeans(Char(c), es, s, noCase);
  }

  lemma SetNeedsOne(p: seq<Code>, info: CompareInfo, esc: nat)
    requires p != [] && p[0] == info.matchSet && p[0] != info.matchOne && p[0] != info.matchAll
    ensures !Matches(Elements(p, info, esc, false), [], info.noCase)
  {
    SetFirst(p, [], info, esc);
  }

  // ---- escapes ----

  /** An escape character that is also a wildcard has no effect: the wildcard
      reading wins. */
  lemma {:induction false} EscapeShadowed(p: seq<Code>, info: CompareInfo, esc: nat, afterAny: bool)
    requires esc == info.matchAll || esc == info.matchOne
    ensures Elements(p, info, esc, afterAny) == Elements(p, info, 0, afterAny)
    decreases |p|
  {
    if p != [] {
      EscapeShadowed(p[1..], info, esc, true);
      EscapeShadowed(p[1..], info, esc, false);
      if p[0] == info.matchSet && ParseSet(p[1..]).Closed? { EscapeShadowed(ParseSet(p[1..]).rest, info, esc, false); }
    }
  }

  /** The pattern ends in an escape character that escapes nothing. */
  predicate Dangling(p: seq<Code>, esc: nat)
    decreases |p|
  {
    p != [] && if p[0] == esc then |p| == 1 || Dangling(p[2..], esc) else Dangling(p[1..], esc)
  }

  /** What the standard lets an escape character stand before. */
  predicate Escapable(c: Code, info: CompareInfo, esc: nat) {
    c == esc || c == info.matchAll || c == info.matchOne
  }

  /** Every escape character stands before a wildcard or another one. */
  predicate ProperEscapes(p: seq<Code>, info: CompareInfo, esc: nat)
    decreases |p|
  {
    p == [] || if p[0] == esc then |p| > 1 && Escapable(p[1], info, esc) && ProperEscapes(p[2..], info, esc) else ProperEscapes(p[1..], info, esc)
  }

  /** The reading of LIKE patterns in the SQL standard: escapes first; Invalid for
      one that stands before anything else, or before nothing. */
  datatype Reading = Invalid | Valid(es: seq<Element>)

  function Prepend(e: Element, r: Reading): Reading {
    if r.Invalid? then Invalid else Valid([e] + r.es)
  }

  function StandardReading(p: seq<Code>, info: CompareInfo, esc: nat): Reading
    decreases |p|
  {
    if p == [] then Valid([])
    else if p[0] == esc then
      if |p| > 1 && Escapable(p[1], info, esc) then Prepend(Char(p[1]), StandardReading(p[2..], info, esc)) else Invalid
    else if p[0] == info.matchAll then Prepend(Any, StandardReading(p[1..], info, esc))
    else if p[0] == info.matchOne then Prepend(One, StandardReading(p[1..], info, esc))
    else Prepend(Char(p[0]), StandardReading(p[1..], info, esc))
  }

  /** What a character that is no escape stands for. */
  function Simple(c: Code, info: CompareInfo): Element {
    if c == info.matchAll then Any else if c == info.matchOne then One else Char(c)
  }

  lemma PrependSame(e: Element, r: Reading, es: seq<Element>)
    ensures Prepend(e, r) == Valid([e] + es) <==> r == Valid(es)
  {
    assert ([e] + es)[1..] == es;
    if r.Valid? { assert ([e] + r.es)[1..] == r.es; }
  }

  /** A LIKE pattern is read as the standard says exactly if every escape stands
      before a wildcard or an escape, and the escape is no wildcard that occurs in
      it. */
  lemma {:induction false} LikeIsStandard(p: seq<Code>, info: CompareInfo, esc: nat, afterAny: bool)
    requires info.matchSet == 0
    ensures StandardReading(p, info, esc) == Valid(Elements(p, info, esc, afterAny))
       <==> ProperEscapes(p, info, esc) && (esc == info.matchAll || esc == info.matchOne ==> esc !in p)
    ensures StandardReading(p, info, esc) == Invalid <==> !ProperEscapes(p, info, esc)
    decreases |p|
  {
    if p != [] {
      if p[0] != esc {
        var after := p[0] == info.matchAll || (p[0] == info.matchOne && afterAny);
        LikeIsStandard(p[1..], info, esc, after);
        assert p == [p[0]] + p[1..];
        PrependSame(Simple(p[0], info), StandardReading(p[1..], info, esc), Elements(p[1..], info, esc, after));
      } else {
        if |p| > 1 {
          LikeIsStandard(p[2..], info, esc, false);
          PrependSame(Char(p[1]), StandardReading(p[2..], info, esc), Elements(p[2..], info, esc, false));
        }
        if esc == info.matchAll || esc == info.matchOne {
          assert !Elements(p, info, esc, afterAny)[0].Char?;
        }
      }
    }
  }

  /** An escape before an ordinary letter: an error in the standard, the letter
      here. */
  lemma LetterEscaped()
    ensures StandardReading([33, 98], LIKE, 33) == Invalid && Elements([33, 98], LIKE, 33, false) == [Char(98)]
    ensures !Dangling([33, 98], 33)
  {
    var p: seq<Code> := [33, 98];
    assert p[2..] == [];
  }

  /** A doubled percent sign as its own escape: a percent sign in the standard, two
      wildcards here, so that every string matches. */
  lemma WildcardEscape(s: seq<Code>)
    ensures StandardReading([37, 37], LIKE, 37) == Valid([Char(37)])
    ensures Language([37, 37], LIKE, 37, s) && (Matches([Char(37)], s, true) ==> s == [37])
  {
    var p: seq<Code> := [37, 37];
    assert p[1..] == [37] && p[2..] == [] && p[1..][1..] == [];
    assert Elements(p[1..], LIKE, 37, true) == [Any];
    AllFirst(p, LIKE, 37);
    AnyAny([], s, true);
    AnyMeans([], s, true);
    assert s[|s|..] == [];
    assert [Any] + [Any] == [Any, Any] + [];
    assert [Char(37)] + [] == [Char(37)];
    StepMeans(Char(37), [], s, true);
  }

  /** Elements that end in a wildcard, or in single wildcards behind one. */
  predicate EndsWild(es: seq<Element>, afterAny: bool) {
    if es == [] then afterAny else EndsWild(es[1..], es[0] == Any || (es[0] == One && afterAny))
  }

  lemma {:induction false} DanglingElements(p: seq<Code>, info: CompareInfo, esc: Code, afterAny: bool)
    requires info.matchSet == 0 && esc != info.matchAll && esc != info.matchOne && !Dangling(p, esc)
    ensures var es := Elements(p, info, esc, afterAny);
            Elements(p + [esc], info, esc, afterAny) == es + if EndsWild(es, afterAny) then [Never] else []
    decreases |p|
  {
    if p != [] {
      if p[0] == esc {
        assert (p + [esc])[2..] == p[2..] + [esc];
        DanglingElements(p[2..], info, esc, false);
        EndsWildFirst(Char(p[1]), Elements(p[2..], info, esc, false), afterAny);
      } else {
        var after := p[0] == info.matchAll || (p[0] == info.matchOne && afterAny);
        assert (p + [esc])[1..] == p[1..] + [esc];
        DanglingElements(p[1..], info, esc, after);
        EndsWildFirst(Simple(p[0], info), Elements(p[1..], info, esc, after), afterAny);
        hide EndsWild;
      }
    }
  }

  lemma EndsWildFirst(e: Element, es: seq<Element>, afterAny: bool)
    ensures EndsWild([e] + es, afterAny) == EndsWild(es, e == Any || (e == One && afterAny))
    ensures forall more: seq<Element> :: [e] + es + more == [e] + (es + more)
  {
    assert ([e] + es)[1..] == es;
  }

  lemma {:induction false} DanglingLast(p: seq<Code>, esc: nat)
    requires Dangling(p, esc)
    ensures p != [] && p[|p| - 1] == esc && !Dangling(p[..|p| - 1], esc)
    decreases |p|
  {
    var q := p[..|p| - 1];
    if p[0] != esc {
      DanglingLast(p[1..], esc);
      assert q[1..] == p[1..][..|p| - 2];
    } else if |p| > 1 {
      DanglingLast(p[2..], esc);
      assert q[2..] == p[2..][..|p| - 3];
    }
  }

  lemma {:induction false} NeverLast(es: seq<Element>, s: seq<Code>, noCase: bool)
    ensures !Matches(es + [Never], s, noCase)
    decreases |es|
  {
    if es != [] {
      assert (es + [Never])[1..] == es[1..] + [Never];
      forall k | 0 <= k <= |s| ensures !Matches(es[1..] + [Never], s[k..], noCase) {
        NeverLast(es[1..], s[k..], noCase);
      }
    }
  }

  /** What becomes of a dangling escape depends on what is before it: it stands for
      nothing, but behind a wildcard it makes every match fail. */
  lemma DanglingEscape(p: seq<Code>, info: CompareInfo, esc: Code, s: seq<Code>)
    requires info.matchSet == 0 && esc != info.matchAll && esc != info.matchOne && Dangling(p, esc)
    ensures var q := p[..|p| - 1];
            Language(p, info, esc, s) <==> Language(q, info, esc, s) && !EndsWild(Elements(q, info, esc, false), false)
  {
    DanglingLast(p, esc);
    var q := p[..|p| - 1];
    assert p == q + [esc];
    DanglingElements(q, info, esc, false);
    var es := Elements(q, info, esc, false);
    NeverLast(es, s, info.noCase);
    assert es + [] == es;
  }

  // ---- what matching means ----

  /** Case folding joins exactly the two cases of an ASCII letter. */
  lemma SameMeans(a: nat, b: nat)
    ensures Same(false, a, b) <==> a == b
    ensures Same(true, a, b) <==> a == b || (65 <= a <= 90 && b == a + 32) || (65 <= b <= 90 && a == b + 32)
  {
  }

  /** What an element may stand for: any text, one character, or nothing at all. */
  predicate Fills(e: Element, piece: seq<Code>, noCase: bool) {
    match e
    case Any => true
    case One => |piece| == 1
    case Char(c) => |piece| == 1 && Same(noCase, piece[0], c)
    case OneOf(items, invert) => |piece| == 1 && (invert <==> forall i :: 0 <= i < |items| ==> !(items[i].lo <= piece[0] <= items[i].hi))
    case Never => false
  }

  function Joined(pieces: seq<seq<Code>>): seq<Code> {
    if pieces == [] then [] else pieces[0] + Joined(pieces[1..])
  }

  ghost predicate Cut(es: seq<Element>, s: seq<Code>, noCase: bool, pieces: seq<seq<Code>>) {
    |pieces| == |es| && Joined(pieces) == s && forall i :: 0 <= i < |es| ==> Fills(es[i], pieces[i], noCase)
  }

  /** A string matches exactly if it can be cut into pieces, one for each element. */
  lemma {:induction false} MatchesPieces(es: seq<Element>, s: seq<Code>, noCase: bool)
    ensures Matches(es, s, noCase) <==> exists pieces :: Cut(es, s, noCase, pieces)
    decreases |es|
  {
    if Matches(es, s, noCase) {
      var pieces := Pieces(es, s, noCase);
    }
    forall pieces | Cut(es, s, noCase, pieces) ensures Matches(es, s, noCase) {
      PiecesMatch(es, s, noCase, pieces);
    }
  }

  lemma {:induction false} Pieces(es: seq<Element>, s: seq<Code>, noCase: bool) returns (pieces: seq<seq<Code>>)
    requires Matches(es, s, noCase)
    ensures Cut(es, s, noCase, pieces)
    decreases |es|
  {
    if es == [] {
      pieces := [];
    } else {
      var k: nat := 1;
      if es[0] == Any {
        k :| 0 <= k <= |s| && Matches(es[1..], s[k..], noCase);
      }
      var rest := Pieces(es[1..], s[k..], noCase);
      pieces := [s[..k]] + rest;
      assert pieces[1..] == rest && s == s[..k] + s[k..];
      forall i | 0 <= i < |es| ensures Fills(es[i], pieces[i], noCase) {
        if i > 0 { assert es[i] == es[1..][i - 1] && pieces[i] == rest[i - 1]; }
      }
    }
  }

  lemma {:induction false} PiecesMatch(es: seq<Element>, s: seq<Code>, noCase: bool, pieces: seq<seq<Code>>)
    requires Cut(es, s, noCase, pieces)
    ensures Matches(es, s, noCase)
    decreases |es|
  {
    if es != [] {
      var k, rest := |pieces[0]|, pieces[1..];
      assert s[..k] == pieces[0] && s[k..] == Joined(rest);
      forall i | 0 <= i < |rest| ensures Fills(es[1..][i], rest[i], noCase) {
        assert Fills(es[i + 1], pieces[i + 1], noCase);
      }
      PiecesMatch(es[1..], s[k..], noCase, rest);
      assert Fills(es[0], pieces[0], noCase);
      hide Matches, Fills, Joined;
      assert es == [es[0]] + es[1..];
      if es[0] == Any {
        AnyMeans(es[1..], s, noCase);
      } else {
        FillsOne(es[0], pieces[0], noCase);
        StepMeans(es[0], es[1..], s, noCase);
        assert s[0] == s[..k][0];
      }
    }
  }

  lemma FillsOne(e: Element, piece: seq<Code>, noCase: bool)
    requires Fills(e, piece, noCase) && e != Any
    ensures |piece| == 1 && Accepts(e, noCase, piece[0])
  {
  }

  // ---- how sets are written ----

  datatype Item = Single(c: Code) | Span(lo: Code, hi: Code)

  predicate Plain(c: Code) {
    c != BRACKET && c != HYPHEN && c != CARET
  }

  predicate Writable(items: seq<Item>) {
    forall i :: 0 <= i < |items| ==> match items[i] { case Single(c) => Plain(c) case Span(lo, hi) => Plain(lo) && Plain(hi) }
  }

  function ItemText(item: Item): seq<Code> {
    match item
    case Single(c) => [c]
    case Span(lo, hi) => [lo, HYPHEN, hi]
  }

  function ItemsText(items: seq<Item>): seq<Code> {
    if items == [] then [] else ItemText(items[0]) + ItemsText(items[1..])
  }

  /** A range holds its first character even if it is upside down. */
  predicate Listed(items: seq<Item>, c: nat) {
    exists i :: 0 <= i < |items| && match items[i] { case Single(x) => c == x case Span(lo, hi) => c == lo || lo <= c <= hi }
  }

  lemma {:induction false} ScanItems(items: seq<Item>, rest: seq<Code>, prior: nat, acc: seq<Range>, invert: bool, c: nat)
    requires Writable(items)
    ensures var t := ScanSet(ItemsText(items) + [BRACKET] + rest, prior, acc, invert);
            t.Closed? && t.rest == rest && t.invert == invert && (InSet(t.items, c) <==> InSet(acc, c) || Listed(items, c))
    decreases |items|
  {
    var p := ItemsText(items) + [BRACKET] + rest;
    if items == [] {
      assert p == [BRACKET] + rest;
    } else {
      var item, more := items[0], ItemsText(items[1..]) + [BRACKET] + rest;
      assert p == ItemText(item) + more;
      assert Writable(items[1..]) by { forall i | 0 <= i < |items[1..]| ensures items[1..][i] == items[i + 1] { } }
      ListedFirst(items, c);
      match item
      case Single(x) =>
        assert p[1..] == more;
        OneItem(acc, x, x, c);
        ScanItems(items[1..], rest, x, acc + [Range(x, x)], invert, c);
      case Span(lo, hi) =>
        assert p[1..] == [HYPHEN, hi] + more && p[1..][2..] == more;
        OneItem(acc, lo, lo, c);
        OneItem(acc + [Range(lo, lo)], lo, hi, c);
        ScanItems(items[1..], rest, 0, acc + [Range(lo, lo)] + [Range(lo, hi)], invert, c);
    }
  }

  lemma ListedFirst(items: seq<Item>, c: nat)
    requires items != []
    ensures Listed(items, c) <==> (match items[0] { case Single(x) => c == x case Span(lo, hi) => c == lo || lo <= c <= hi }) || Listed(items[1..], c)
  {
    var rest := items[1..];
    if i :| 0 <= i < |rest| && match rest[i] { case Single(x) => c == x case Span(lo, hi) => c == lo || lo <= c <= hi } {
      assert items[i + 1] == rest[i];
    }
    if i :| 0 <= i < |items| && match items[i] { case Single(x) => c == x case Span(lo, hi) => c == lo || lo <= c <= hi } {
      if i > 0 { assert items[i] == rest[i - 1]; }
    }
  }

  /** A set as it is written, with a caret in front for its complement: it accepts
      exactly the characters listed, or exactly the others. */
  lemma SetMeans(items: seq<Item>, invert: bool, rest: seq<Code>, noCase: bool, c: Code)
    requires Writable(items) && items != []
    ensures var t := ParseSet((if invert then [CARET] else []) + ItemsText(items) + [BRACKET] + rest);
            t.Closed? && t.rest == rest && (Accepts(OneOf(t.items, t.invert), noCase, c) <==> (Listed(items, c) != invert))
  {
    var body := ItemsText(items) + [BRACKET] + rest;
    var p := (if invert then [CARET] else []) + ItemsText(items) + [BRACKET] + rest;
    FirstPlain(items);
    hide ItemsText, ScanSet, InSet, Listed, Writable;
    Bracketed(ItemsText(items), rest, invert);
    BodySet(p, body, invert);
    hide ParseSet;
    NoItems(c);
    ScanItems(items, rest, 0, [], invert, c);
  }

  lemma Bracketed(text: seq<Code>, rest: seq<Code>, invert: bool)
    requires text != []
    ensures var p, body := (if invert then [CARET] else []) + text + [BRACKET] + rest, text + [BRACKET] + rest;
            body != [] && body[0] == text[0] && (if invert then p == [CARET] + body else p == body)
  {
  }

  lemma BodySet(p: seq<Code>, body: seq<Code>, invert: bool)
    requires body != [] && Plain(body[0]) && (if invert then p == [CARET] + body else p == body)
    ensures ParseSet(p) == ScanSet(body, 0, [], invert)
  {
    hide ScanSet;
    assert invert ==> p[1..] == body;
  }

  lemma FirstPlain(items: seq<Item>)
    requires Writable(items) && items != []
    ensures ItemsText(items) != [] && Plain(ItemsText(items)[0])
  {
    var text := ItemText(items[0]);
    assert Plain(text[0]);
    assert ItemsText(items)[0] == text[0];
  }

  /** The pattern `x[b-d]*` of GLOB against `xcz` and `xez`. */
  method GlobSample() returns (yes: bool, no: bool)
    ensures yes && !no
  {
    hide Matches, Elements;
    var p: seq<Code> := [120, 91, 98, 45, 100, 93, 42];
    yes := PatternCompare(p, [120, 99, 122], GLOB, 0);
    no := PatternCompare(p, [120, 101, 122], GLOB, 0);
    SampleElements(p);
    SampleMatches();
  }

  lemma SampleElements(p: seq<Code>)
    requires p == [120, 91, 98, 45, 100, 93, 42]
    ensures Elements(p, GLOB, 0, false) == [Char(120), OneOf([Range(98, 98), Range(98, 100)], false), Any]
  {
    var set': seq<Code> := [98, 45, 100, 93, 42];
    assert p[1..] == [91, 98, 45, 100, 93, 42] && p[1..][1..] == set';
    assert set'[1..] == [45, 100, 93, 42] && set'[1..][2..] == [93, 42] && [93, 42][1..] == [42];
    assert ScanSet([93, 42], 0, [Range(98, 98)] + [Range(98, 100)], false) == Closed([Range(98, 98), Range(98, 100)], false, [42]);
    assert ScanSet(set'[1..], 98, [Range(98, 98)], false) == Closed([Range(98, 98), Range(98, 100)], false, [42]);
    assert ParseSet(set') == Closed([Range(98, 98), Range(98, 100)], false, [42]);
    assert Elements([42], GLOB, 0, false) == [Any] + Elements([42][1..], GLOB, 0, true);
    assert Elements(p[1..], GLOB, 0, false) == [OneOf([Range(98, 98), Range(98, 100)], false)] + [Any];
  }

  lemma SampleMatches()
    ensures var es := [Char(120), OneOf([Range(98, 98), Range(98, 100)], false), Any];
            Matches(es, [120, 99, 122], false) && !Matches(es, [120, 101, 122], false)
  {
    hide Matches;
    var x, set', any := Char(120), OneOf([Range(98, 98), Range(98, 100)], false), [Any];
    assert [x] + ([set'] + any) == [x, set', Any];
    StepMeans(x, [set'] + any, [120, 99, 122], false);
    StepMeans(x, [set'] + any, [120, 101, 122], false);
    StepMeans(set', any, [99, 122], false);
    StepMeans(set', any, [101, 122], false);
    AnyMeans([], [122], false);
    assert [122][1..] == [] && [Any] + [] == any;
    assert Matches([], [], false) by { AtEnd([], [], GLOB, 0, false); }
    assert InSet(set'.items, 99) by { assert set'.items[1].lo <= 99 <= set'.items[1].hi; }
  }
}

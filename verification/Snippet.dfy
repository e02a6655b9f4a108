/** The best-snippet search: only windows ending on a hit, and the first one,
    are tried, yet the result is the best of all windows. */
module Snippet {

  /** The positions of a phrase in the column, and its length in tokens. */
  datatype Phrase = Phrase(list: seq<nat>, nToken: nat)

  const INT_MAX := 0x7FFFFFFF

  predicate Ascending(list: seq<nat>) {
    forall i, j :: 0 <= i < j < |list| ==> list[i] < list[j]
  }

  predicate WellFormed(phrases: seq<Phrase>) {
    forall i :: 0 <= i < |phrases| ==> Ascending(phrases[i].list) && forall k :: 0 <= k < |phrases[i].list| ==> phrases[i].list[k] < INT_MAX
  }

  // ---- scores ----

  /** How many positions lie in the window from `lo` to `hi`. */
  function Hits(list: seq<nat>, lo: int, hi: int): nat {
    if list == [] then 0 else (if lo <= list[0] < hi then 1 else 0) + Hits(list[1..], lo, hi)
  }

  /** One point per hit, and a thousand for the first of a phrase not covered. */
  function PhraseScore(list: seq<nat>, covered: bool, lo: int, hi: int): nat {
    var n := Hits(list, lo, hi);
    if n == 0 || covered then n else n + 999
  }

  /** The score of the window, counting the first `k` phrases. */
  function Score(phrases: seq<Phrase>, covered: set<nat>, lo: int, hi: int, k: nat): nat
    requires k <= |phrases|
  {
    if k == 0 then 0
    else Score(phrases, covered, lo, hi, k - 1) + PhraseScore(phrases[k - 1].list, k - 1 in covered, lo, hi)
  }

  function WindowScore(phrases: seq<Phrase>, covered: set<nat>, start: int, n: nat): nat {
    Score(phrases, covered, start, start + n, |phrases|)
  }

  /** Every hit in one window is also in the other. */
  predicate Covers(phrases: seq<Phrase>, lo: int, hi: int, lo': int, hi': int) {
    forall i :: 0 <= i < |phrases| ==> ListCovers(phrases[i].list, lo, hi, lo', hi')
  }

  predicate ListCovers(list: seq<nat>, lo: int, hi: int, lo': int, hi': int) {
    forall k :: 0 <= k < |list| && lo <= list[k] < hi ==> lo' <= list[k] < hi'
  }

  lemma {:induction false} HitsMono(list: seq<nat>, lo: int, hi: int, lo': int, hi': int)
    requires ListCovers(list, lo, hi, lo', hi')
    ensures Hits(list, lo, hi) <= Hits(list, lo', hi')
  {
    if list != [] {
      forall k | 0 <= k < |list[1..]| && lo <= list[1..][k] < hi ensures lo' <= list[1..][k] < hi' {
        assert list[1..][k] == list[k + 1];
      }
      HitsMono(list[1..], lo, hi, lo', hi');
    }
  }

  lemma {:induction false} ScoreMono(phrases: seq<Phrase>, covered: set<nat>, lo: int, hi: int, lo': int, hi': int, k: nat)
    requires k <= |phrases| && Covers(phrases, lo, hi, lo', hi')
    ensures Score(phrases, covered, lo, hi, k) <= Score(phrases, covered, lo', hi', k)
  {
    if k > 0 {
      ScoreMono(phrases, covered, lo, hi, lo', hi', k - 1);
      HitsMono(phrases[k - 1].list, lo, hi, lo', hi');
    }
  }

  // ---- what a score counts ----

  /** A phrase by its number. */
  datatype PhraseNo = PhraseNo(i: nat)

  /** A position of a phrase. */
  datatype Place = Place(i: nat, x: nat)

  /** The phrase has a position in the window. */
  ghost predicate Present(phrases: seq<Phrase>, i: nat, lo: int, hi: int)
    requires i < |phrases|
  {
    exists k :: 0 <= k < |phrases[i].list| && lo <= phrases[i].list[k] < hi
  }

  /** Everything the first `k` phrases have in a window. */
  ghost function Places(phrases: seq<Phrase>, lo: int, hi: int, k: nat): set<Place>
    requires k <= |phrases|
  {
    set i: nat, x: nat | i < k && x in phrases[i].list && lo <= x < hi :: Place(i, x)
  }

  /** Those of them that are there and not covered. */
  ghost function NewPhrases(phrases: seq<Phrase>, covered: set<nat>, lo: int, hi: int, k: nat): set<PhraseNo>
    requires k <= |phrases|
  {
    set i: nat | i < k && i !in covered && Present(phrases, i, lo, hi) :: PhraseNo(i)
  }

  ghost function PlacesOf(i: nat, list: seq<nat>, lo: int, hi: int): set<Place> {
    set x: nat | x in list && lo <= x < hi :: Place(i, x)
  }

  lemma {:induction false} HitsCount(i: nat, list: seq<nat>, lo: int, hi: int)
    requires Ascending(list)
    ensures Hits(list, lo, hi) == |PlacesOf(i, list, lo, hi)|
  {
    if list != [] {
      var x, rest := list[0], list[1..];
      assert list == [x] + rest;
      assert x !in rest;
      HitsCount(i, rest, lo, hi);
      if lo <= x < hi {
        assert PlacesOf(i, list, lo, hi) == PlacesOf(i, rest, lo, hi) + {Place(i, x)};
      } else {
        assert PlacesOf(i, list, lo, hi) == PlacesOf(i, rest, lo, hi);
      }
    }
  }

  lemma Union<T>(a: set<T>, b: set<T>)
    requires a !! b
    ensures |a + b| == |a| + |b|
  {
  }

  lemma {:induction false} ScoreCounts(phrases: seq<Phrase>, covered: set<nat>, lo: int, hi: int, k: nat)
    requires WellFormed(phrases) && k <= |phrases|
    ensures Score(phrases, covered, lo, hi, k) == |Places(phrases, lo, hi, k)| + 999 * |NewPhrases(phrases, covered, lo, hi, k)|
  {
    if k > 0 {
      var i := k - 1;
      var list := phrases[i].list;
      var before, more := Places(phrases, lo, hi, i), PlacesOf(i, list, lo, hi);
      ScoreCounts(phrases, covered, lo, hi, i);
      HitsCount(i, list, lo, hi);
      Union(before, more);
      assert Places(phrases, lo, hi, k) == before + more;
      NewPhrase(phrases, covered, lo, hi, i);
    }
  }

  lemma NewPhrase(phrases: seq<Phrase>, covered: set<nat>, lo: int, hi: int, i: nat)
    requires i < |phrases|
    ensures var n := if i in covered || PlacesOf(i, phrases[i].list, lo, hi) == {} then 0 else 1;
            |NewPhrases(phrases, covered, lo, hi, i + 1)| == |NewPhrases(phrases, covered, lo, hi, i)| + n
  {
    PresentMeans(phrases, lo, hi, i);
    hide Present, PlacesOf;
    var before, now := NewPhrases(phrases, covered, lo, hi, i), NewPhrases(phrases, covered, lo, hi, i + 1);
    if i in covered || !Present(phrases, i, lo, hi) {
      assert now == before;
    } else {
      assert now == before + {PhraseNo(i)};
    }
  }

  lemma PresentMeans(phrases: seq<Phrase>, lo: int, hi: int, i: nat)
    requires i < |phrases|
    ensures Present(phrases, i, lo, hi) <==> PlacesOf(i, phrases[i].list, lo, hi) != {}
  {
    var list, there := phrases[i].list, PlacesOf(i, phrases[i].list, lo, hi);
    if there != {} {
      var p :| p in there;
      var k :| 0 <= k < |list| && list[k] == p.x;
    }
    if k :| 0 <= k < |list| && lo <= list[k] < hi {
      assert Place(i, list[k]) in there;
    }
  }

  /** The score of a window: one point for each position in it and 999 more for each
      phrase that is there and not covered. */
  lemma WindowScoreCounts(phrases: seq<Phrase>, covered: set<nat>, start: int, n: nat)
    requires WellFormed(phrases)
    ensures var places := set i: nat, x: nat | i < |phrases| && x in phrases[i].list && start <= x < start + n :: Place(i, x);
            var uncovered := set i: nat | i < |phrases| && i !in covered && Present(phrases, i, start, start + n) :: PhraseNo(i);
            WindowScore(phrases, covered, start, n) == |places| + 999 * |uncovered|
  {
    hide Present;
    var lo, hi := start, start + n;
    ScoreCounts(phrases, covered, lo, hi, |phrases|);
    assert Places(phrases, lo, hi, |phrases|) == set i: nat, x: nat | i < |phrases| && x in phrases[i].list && start <= x < start + n :: Place(i, x);
    assert NewPhrases(phrases, covered, lo, hi, |phrases|)
        == set i: nat | i < |phrases| && i !in covered && Present(phrases, i, start, start + n) :: PhraseNo(i);
  }

  /** `more` has one position in the window that `phrases` has not: `x`, of phrase
      `i`. */
  ghost predicate OneMore(phrases: seq<Phrase>, more: seq<Phrase>, i: nat, x: nat) {
    && |more| == |phrases| && i < |phrases| && x !in phrases[i].list
    && (forall j, y :: 0 <= j < |phrases| ==> (y in more[j].list <==> y in phrases[j].list || (j == i && y == x)))
  }

  /** One more hit adds a thousand points if it is the first of a phrase that is not
      covered, and one point otherwise. */
  lemma OneMoreHit(phrases: seq<Phrase>, more: seq<Phrase>, covered: set<nat>, start: int, n: nat, i: nat, x: nat)
    requires WellFormed(phrases) && WellFormed(more) && OneMore(phrases, more, i, x) && start <= x < start + n
    ensures var first := i !in covered && forall k :: 0 <= k < |phrases[i].list| ==> !(start <= phrases[i].list[k] < start + n);
            WindowScore(more, covered, start, n) == WindowScore(phrases, covered, start, n) + if first then 1000 else 1
  {
    hide Score, Places, WellFormed;
    var lo, hi, k := start, start + n, |phrases|;
    ScoreCounts(phrases, covered, lo, hi, k);
    ScoreCounts(more, covered, lo, hi, k);
    MorePlaces(phrases, more, lo, hi, i, x);
    MorePresent(phrases, more, lo, hi, i, x);
    hide Present, OneMore;
    var before, now := NewPhrases(phrases, covered, lo, hi, k), NewPhrases(more, covered, lo, hi, k);
    if i !in covered && !Present(phrases, i, lo, hi) {
      assert PhraseNo(i) !in before;
      assert now == before + {PhraseNo(i)};
    } else {
      assert now == before;
    }
  }

  lemma MorePlaces(phrases: seq<Phrase>, more: seq<Phrase>, lo: int, hi: int, i: nat, x: nat)
    requires OneMore(phrases, more, i, x) && lo <= x < hi
    ensures |Places(more, lo, hi, |more|)| == |Places(phrases, lo, hi, |phrases|)| + 1
  {
    var k := |phrases|;
    assert Places(more, lo, hi, k) == Places(phrases, lo, hi, k) + {Place(i, x)};
    assert Place(i, x) !in Places(phrases, lo, hi, k);
  }

  lemma MorePresent(phrases: seq<Phrase>, more: seq<Phrase>, lo: int, hi: int, i: nat, x: nat)
    requires OneMore(phrases, more, i, x) && lo <= x < hi
    ensures |more| == |phrases| && i < |phrases| && Present(more, i, lo, hi)
    ensures Present(phrases, i, lo, hi) <==> !forall k :: 0 <= k < |phrases[i].list| ==> !(lo <= phrases[i].list[k] < hi)
    ensures forall j: nat :: j < |phrases| && j != i ==> (Present(more, j, lo, hi) <==> Present(phrases, j, lo, hi))
  {
    assert x in more[i].list;
    forall j: nat | j < |phrases| && j != i ensures Present(more, j, lo, hi) <==> Present(phrases, j, lo, hi) {
      var a, b := phrases[j].list, more[j].list;
      if k :| 0 <= k < |a| && lo <= a[k] < hi { assert a[k] in b; }
      if k :| 0 <= k < |b| && lo <= b[k] < hi { assert b[k] in a; }
    }
  }

  // ---- candidates ----

  predicate IsHit(phrases: seq<Phrase>, h: int) {
    exists i :: 0 <= i < |phrases| && h in phrases[i].list
  }

  /** The first window, and those that end on a hit. */
  predicate Candidate(phrases: seq<Phrase>, n: nat, c: int) {
    c == 0 || (c > 0 && IsHit(phrases, c + n - 1))
  }

  /** The last hit of a window, or -1. */
  lemma {:induction false} LastHit(phrases: seq<Phrase>, lo: nat, hi: nat) returns (h: int)
    ensures h == -1 || (lo <= h < hi && IsHit(phrases, h))
    ensures forall x: nat :: lo <= x < hi && IsHit(phrases, x) ==> x <= h
    decreases hi
  {
    if hi <= lo {
      h := -1;
    } else if IsHit(phrases, hi - 1) {
      h := hi - 1;
    } else {
      h := LastHit(phrases, lo, hi - 1);
    }
  }

  /** Some candidate, no later, scores at least as much as any given window. */
  lemma Dominated(phrases: seq<Phrase>, covered: set<nat>, start: nat, n: nat) returns (c: nat)
    ensures Candidate(phrases, n, c) && c <= start && WindowScore(phrases, covered, start, n) <= WindowScore(phrases, covered, c, n)
  {
    var h := LastHit(phrases, start, start + n);
    c := if h >= n then h - n + 1 else 0;
    forall i, k | 0 <= i < |phrases| && 0 <= k < |phrases[i].list| && start <= phrases[i].list[k] < start + n
      ensures c <= phrases[i].list[k] < c + n
    {
      assert IsHit(phrases, phrases[i].list[k]);
    }
    ScoreMono(phrases, covered, start, start + n, c, c + n, |phrases|);
  }

  // ---- the search ----

  class SnippetIter {
    const phrases: seq<Phrase>
    const nSnippet: nat
    var iCurrent: int
    /** Per phrase, the first position not yet passed by the end, and by the
        start, of the window. */
    var heads: seq<nat>
    var tails: seq<nat>

    ghost predicate Valid()
      reads this
    {
      && WellFormed(phrases) && |heads| == |tails| == |phrases| && iCurrent >= -1
      && (iCurrent >= 0 ==> At(heads, iCurrent + nSnippet) && At(tails, iCurrent))
      && (iCurrent < 0 ==> At(heads, 0) && At(tails, 0))
    }

    /** Each index is that of the first position at `x` or later. */
    ghost predicate At(index: seq<nat>, x: int)
      requires |index| == |phrases|
    {
      forall i :: 0 <= i < |phrases| ==> FirstFrom(phrases[i].list, index[i], x)
    }

    constructor (phrases: seq<Phrase>, nSnippet: nat)
      requires WellFormed(phrases)
      ensures Valid() && iCurrent == -1 && this.phrases == phrases && this.nSnippet == nSnippet
    {
      this.phrases, this.nSnippet, iCurrent := phrases, nSnippet, -1;
      heads, tails := seq(|phrases|, i => 0), seq(|phrases|, i => 0);
    }

    /** Moves to the next candidate window; false if there is none. */
    method NextCandidate() returns (more: bool)
      requires Valid()
      modifies this
      ensures Valid()
      ensures old(iCurrent) < 0 ==> more && iCurrent == 0
      ensures more ==> old(iCurrent) < iCurrent && Candidate(phrases, nSnippet, iCurrent)
      ensures old(iCurrent) >= 0 ==>
                forall c :: c > old(iCurrent) && Candidate(phrases, nSnippet, c) ==> more && c >= iCurrent
      ensures !more ==> iCurrent == old(iCurrent)
    {
      hide WellFormed;
      if iCurrent < 0 {
        iCurrent := 0;
        heads := AdvanceAll(phrases, heads, 0, nSnippet);
        return true;
      }
      var iEnd := MinHead();
      if iEnd == INT_MAX { return false; }
      var iStart := iEnd - nSnippet + 1;
      heads := AdvanceAll(phrases, heads, iCurrent + nSnippet, iEnd + 1);
      tails := AdvanceAll(phrases, tails, iCurrent, iStart);
      iCurrent := iStart;
      return true;
    }

    /** The earliest hit at or after the end of the window. */
    method MinHead() returns (iEnd: nat)
      requires Valid() && iCurrent >= 0
      ensures iEnd == INT_MAX || (iEnd >= iCurrent + nSnippet && IsHit(phrases, iEnd))
      ensures forall h :: h >= iCurrent + nSnippet && IsHit(phrases, h) ==> iEnd != INT_MAX && iEnd <= h
    {
      iEnd := INT_MAX;
      var i := 0;
      while i < |phrases|
        invariant 0 <= i <= |phrases| && iEnd <= INT_MAX
        invariant iEnd == INT_MAX || (iEnd >= iCurrent + nSnippet && IsHit(phrases, iEnd))
        invariant forall j, k :: 0 <= j < i && 0 <= k < |phrases[j].list| && phrases[j].list[k] >= iCurrent + nSnippet ==> iEnd <= phrases[j].list[k]
      {
        var list := phrases[i].list;
        assert FirstFrom(list, heads[i], iCurrent + nSnippet);
        if heads[i] < |list| && list[heads[i]] < iEnd {
          iEnd := list[heads[i]];
          assert iEnd in list;
        }
        i := i + 1;
      }
      forall h | h >= iCurrent + nSnippet && IsHit(phrases, h) ensures iEnd != INT_MAX && iEnd <= h {
        var j :| 0 <= j < |phrases| && h in phrases[j].list;
        var k :| 0 <= k < |phrases[j].list| && phrases[j].list[k] == h;
      }
    }

    /** The score of the current window, the phrases it contains and the tokens
        to highlight. */
    method Details(covered: set<nat>) returns (score: nat, cover: set<nat>, highlight: set<nat>)
      requires Valid() && iCurrent >= 0
      ensures score == WindowScore(phrases, covered, iCurrent, nSnippet)
      ensures Describes(phrases, iCurrent, nSnippet, cover, highlight)
    {
      hide Highlights, Highlighted, FirstFrom, Hits, PhraseScore;
      score, cover, highlight := 0, {}, {};
      var i := 0;
      forall p ensures !Highlighted(phrases, iCurrent, nSnippet, 0, p) { NothingHighlighted(phrases, iCurrent, nSnippet, p); }
      while i < |phrases|
        invariant 0 <= i <= |phrases|
        invariant score == Score(phrases, covered, iCurrent, iCurrent + nSnippet, i)
        invariant forall j :: j in cover <==> 0 <= j < i && Hits(phrases[j].list, iCurrent, iCurrent + nSnippet) > 0
        invariant forall p :: p in highlight <==> Highlighted(phrases, iCurrent, nSnippet, i, p)
      {
        assert FirstFrom(phrases[i].list, tails[i], iCurrent);
        var points, found, marks := PhraseDetails(phrases[i], tails[i], iCurrent, nSnippet, i in covered);
        HighlightedStep(phrases, iCurrent, nSnippet, i);
        score := score + points;
        if found { cover := cover + {i}; }
        highlight := highlight + marks;
        i := i + 1;
      }
    }
  }

  /** Token `p` of the window belongs to a hit of the phrase. */
  ghost predicate Highlights(phrase: Phrase, start: nat, n: nat, p: int) {
    exists k :: 0 <= k < |phrase.list| && Marks(phrase, start, n, k, p)
  }

  /** Token `p` belongs to the hit that is position `k` of the phrase. */
  predicate Marks(phrase: Phrase, start: nat, n: nat, k: nat, p: int)
    requires k < |phrase.list|
  {
    start <= phrase.list[k] < start + n && 0 <= phrase.list[k] - start - p < phrase.nToken
  }

  ghost predicate Highlighted(phrases: seq<Phrase>, start: nat, n: nat, count: nat, p: int)
    requires count <= |phrases|
  {
    p >= 0 && exists i :: 0 <= i < count && Highlights(phrases[i], start, n, p)
  }

  lemma NothingHighlighted(phrases: seq<Phrase>, start: nat, n: nat, p: int)
    ensures !Highlighted(phrases, start, n, 0, p)
  {
  }

  lemma HighlightedStep(phrases: seq<Phrase>, start: nat, n: nat, i: nat)
    requires i < |phrases|
    ensures forall p :: Highlighted(phrases, start, n, i + 1, p) <==> Highlighted(phrases, start, n, i, p) || (p >= 0 && Highlights(phrases[i], start, n, p))
  {
    hide Highlights;
  }

  /** The contribution of one phrase: `k` is its first position in or after the
      window. */
  method PhraseDetails(phrase: Phrase, k: nat, start: nat, n: nat, covered: bool) returns (score: nat, found: bool, marks: set<nat>)
    requires Ascending(phrase.list) && FirstFrom(phrase.list, k, start)
    ensures score == PhraseScore(phrase.list, covered, start, start + n) && (found <==> Hits(phrase.list, start, start + n) > 0)
    ensures forall p :: p in marks <==> p >= 0 && Highlights(phrase, start, n, p)
  {
    score, found, marks := 0, false, {};
    var m := k;
    while m < |phrase.list| && phrase.list[m] < start + n
      invariant k <= m <= |phrase.list| && forall j :: k <= j < m ==> phrase.list[j] < start + n
      invariant found == (m > k) && score == (if m == k || covered then m - k else m - k + 999)
      invariant forall p :: p in marks <==> p >= 0 && exists j :: k <= j < m && Marks(phrase, start, n, j, p)
    {
      score := score + if found || covered then 1 else 1000;
      found := true;
      var more := MarkHit(phrase.list[m] - start, phrase.nToken);
      assert forall p :: p >= 0 ==> (p in more <==> Marks(phrase, start, n, m, p));
      marks := marks + more;
      m := m + 1;
    }
    assert FirstFrom(phrase.list, m, start + n);
    HitsRange(phrase.list, k, m, start, start + n);
    hide Hits;
    assert forall j :: 0 <= j < |phrase.list| && start <= phrase.list[j] < start + n ==> k <= j < m;
  }

  /** The tokens of a phrase whose last one is at `offset`, as far as they are in
      the window. */
  method MarkHit(offset: nat, nToken: nat) returns (marks: set<nat>)
    ensures forall p :: p in marks <==> p >= 0 && 0 <= offset - p < nToken
  {
    marks := {};
    var j := 0;
    while j < nToken
      invariant 0 <= j <= nToken && forall p :: p in marks <==> p >= 0 && 0 <= offset - p < j
    {
      if j <= offset { marks := marks + {offset - j}; }
      j := j + 1;
    }
  }

  // ---- the best snippet ----

  /** The phrases in a window and the tokens to highlight there. */
  ghost predicate Describes(phrases: seq<Phrase>, start: nat, n: nat, cover: set<nat>, highlight: set<nat>) {
    && (forall i :: i in cover <==> 0 <= i < |phrases| && Hits(phrases[i].list, start, start + n) > 0)
    && (forall p :: p in highlight <==> Highlighted(phrases, start, n, |phrases|, p))
  }

  /** Of the candidates before `limit`, `iPos` is the earliest with the best
      score. */
  ghost predicate Leads(phrases: seq<Phrase>, covered: set<nat>, n: nat, iPos: nat, best: int, limit: int) {
    forall c: nat :: Candidate(phrases, n, c) && c < limit ==>
      WindowScore(phrases, covered, c, n) <= best && (c < iPos ==> WindowScore(phrases, covered, c, n) < best)
  }

  lemma LeadsStep(phrases: seq<Phrase>, covered: set<nat>, n: nat, iPos: nat, best: int, now: nat, limit: int)
    requires Leads(phrases, covered, n, iPos, best, now) && iPos <= now
    requires forall c: nat :: Candidate(phrases, n, c) && c > now ==> c >= limit
    ensures var s := WindowScore(phrases, covered, now, n);
            if s > best then Leads(phrases, covered, n, now, s, limit) else Leads(phrases, covered, n, iPos, best, limit)
  {
    hide Candidate, WindowScore;
  }

  lemma LeadsAll(phrases: seq<Phrase>, covered: set<nat>, n: nat, iPos: nat, best: int)
    requires WellFormed(phrases) && Leads(phrases, covered, n, iPos, best, INT_MAX + 1)
    ensures forall s: nat :: WindowScore(phrases, covered, s, n) <= best && (s < iPos ==> WindowScore(phrases, covered, s, n) < best)
  {
    CandidateBound(phrases, n);
    hide Candidate, WindowScore, WellFormed;
    forall s: nat ensures WindowScore(phrases, covered, s, n) <= best && (s < iPos ==> WindowScore(phrases, covered, s, n) < best) {
      var c := Dominated(phrases, covered, s, n);
    }
  }

  lemma CandidateBound(phrases: seq<Phrase>, n: nat)
    requires WellFormed(phrases)
    ensures forall c :: Candidate(phrases, n, c) ==> 0 <= c <= INT_MAX
  {
  }

  /** Finds the snippet: of all windows of `nSnippet` tokens the earliest with the
      greatest score, whether or not it was tried. */
  method BestSnippet(phrases: seq<Phrase>, nSnippet: nat, covered: set<nat>) returns (iPos: nat, score: nat, cover: set<nat>, highlight: set<nat>)
    requires WellFormed(phrases)
    ensures score == WindowScore(phrases, covered, iPos, nSnippet)
    ensures forall s: nat :: WindowScore(phrases, covered, s, nSnippet) <= score
    ensures forall s: nat :: s < iPos ==> WindowScore(phrases, covered, s, nSnippet) < score
    ensures Describes(phrases, iPos, nSnippet, cover, highlight)
  {
    hide Candidate, WindowScore, Describes, Leads;
    CandidateBound(phrases, nSnippet);
    var iter := new SnippetIter(phrases, nSnippet);
    var best: int := -1;
    iPos, cover, highlight := 0, {}, {};
    var more := iter.NextCandidate();
    LeadsNone(phrases, covered, nSnippet);
    while more
      invariant iter.Valid() && fresh(iter) && iter.phrases == phrases && iter.nSnippet == nSnippet && iPos <= iter.iCurrent
      invariant more ==> Candidate(phrases, nSnippet, iter.iCurrent)
      invariant best < 0 ==> more
      invariant best >= 0 ==> best == WindowScore(phrases, covered, iPos, nSnippet) && Describes(phrases, iPos, nSnippet, cover, highlight)
      invariant Leads(phrases, covered, nSnippet, iPos, best, if more then iter.iCurrent else INT_MAX + 1)
      decreases INT_MAX + 1 - iter.iCurrent, more
    {
      var s, c, h := iter.Details(covered);
      ghost var now, oldPos, oldBest := iter.iCurrent, iPos, best;
      if s > best {
        iPos, best, cover, highlight := iter.iCurrent, s, c, h;
      }
      more := iter.NextCandidate();
      LeadsStep(phrases, covered, nSnippet, oldPos, oldBest, now, if more then iter.iCurrent else INT_MAX + 1);
    }
    score := best;
    LeadsAll(phrases, covered, nSnippet, iPos, best);
  }

  lemma LeadsNone(phrases: seq<Phrase>, covered: set<nat>, n: nat)
    ensures Leads(phrases, covered, n, 0, -1, 0)
  {
  }

  lemma {:induction false} HitsRange(list: seq<nat>, k: nat, m: nat, lo: int, hi: int)
    requires FirstFrom(list, k, lo) && FirstFrom(list, m, hi) && k <= m
    ensures Hits(list, lo, hi) == m - k
  {
    if list != [] {
      var rest := list[1..];
      if k > 0 {
        HitsRange(rest, k - 1, m - 1, lo, hi);
      } else if m > 0 {
        HitsRange(rest, 0, m - 1, lo, hi);
      } else {
        HitsRange(rest, 0, 0, lo, hi);
      }
    }
  }

  /** `k` is the index of the first position at `x` or later. */
  ghost predicate FirstFrom(list: seq<nat>, k: nat, x: int) {
    && k <= |list| && (forall j :: 0 <= j < k ==> list[j] < x) && (forall j :: k <= j < |list| ==> list[j] >= x)
  }

  /** Steps an index forward to the first position at `iNext` or later. */
  method Advance(list: seq<nat>, k: nat, ghost x: int, iNext: int) returns (r: nat)
    requires Ascending(list) && FirstFrom(list, k, x) && x <= iNext
    ensures FirstFrom(list, r, iNext)
  {
    r := k;
    while r < |list| && list[r] < iNext
      invariant k <= r <= |list| && forall j :: 0 <= j < r ==> list[j] < iNext
    {
      r := r + 1;
    }
  }

  method AdvanceAll(phrases: seq<Phrase>, index: seq<nat>, ghost x: int, iNext: int) returns (r: seq<nat>)
    requires |index| == |phrases| && WellFormed(phrases) && x <= iNext
    requires forall i :: 0 <= i < |phrases| ==> FirstFrom(phrases[i].list, index[i], x)
    ensures |r| == |phrases| && forall i :: 0 <= i < |phrases| ==> FirstFrom(phrases[i].list, r[i], iNext)
  {
    hide FirstFrom;
    r := index;
    var i := 0;
    while i < |phrases|
      invariant 0 <= i <= |phrases| == |r|
      invariant forall j :: 0 <= j < i ==> FirstFrom(phrases[j].list, r[j], iNext)
      invariant forall j :: i <= j < |phrases| ==> r[j] == index[j]
    {
      var k := Advance(phrases[i].list, r[i], x, iNext);
      r := r[i := k];
      i := i + 1;
    }
  }

  // ---- what a result describes ----

  /** The phrases reported are those with a position in the window; the tokens to
      highlight are those of phrases that end in it. */
  lemma DescribesMeans(phrases: seq<Phrase>, start: nat, n: nat, cover: set<nat>, highlight: set<nat>)
    requires WellFormed(phrases) && Describes(phrases, start, n, cover, highlight)
    ensures forall i: nat :: i in cover <==> i < |phrases| && exists k :: 0 <= k < |phrases[i].list| && start <= phrases[i].list[k] < start + n
    ensures forall p: nat :: p in highlight <==>
              exists i: nat, k :: i < |phrases| && 0 <= k < |phrases[i].list| && start <= phrases[i].list[k] < start + n
                                  && phrases[i].list[k] - phrases[i].nToken < start + p <= phrases[i].list[k]
  {
    forall i: nat | i < |phrases|
      ensures Hits(phrases[i].list, start, start + n) > 0 <==> exists k :: 0 <= k < |phrases[i].list| && start <= phrases[i].list[k] < start + n
    {
      HitsCount(i, phrases[i].list, start, start + n);
      PresentMeans(phrases, start, start + n, i);
    }
    forall p: nat
      ensures p in highlight <==>
              exists i: nat, k :: i < |phrases| && 0 <= k < |phrases[i].list| && start <= phrases[i].list[k] < start + n
                                  && phrases[i].list[k] - phrases[i].nToken < start + p <= phrases[i].list[k]
    {
      if p in highlight {
        var i :| 0 <= i < |phrases| && Highlights(phrases[i], start, n, p);
        var k :| 0 <= k < |phrases[i].list| && Marks(phrases[i], start, n, k, p);
      }
      if i: nat, k :| i < |phrases| && 0 <= k < |phrases[i].list| && start <= phrases[i].list[k] < start + n
                      && phrases[i].list[k] - phrases[i].nToken < start + p <= phrases[i].list[k] {
        assert Marks(phrases[i], start, n, k, p);
        assert Highlights(phrases[i], start, n, p);
      }
    }
  }

  /** Two phrases next to each other win over three hits of one of them. */
  method TwoPhrases() returns (iPos: nat, score: nat, cover: set<nat>, highlight: set<nat>)
    ensures iPos == 19 && score == 2000 && (forall i :: i in cover <==> i == 0 || i == 1) && forall p :: p in highlight <==> p == 1 || p == 2
  {
    hide WindowScore, Describes;
    var phrases := [Phrase([0, 1, 2, 20], 1), Phrase([21], 1)];
    iPos, score, cover, highlight := BestSnippet(phrases, 3, {});
    forall s: nat ensures WindowScore(phrases, {}, s, 3) <= 2000 && (s < 19 ==> WindowScore(phrases, {}, s, 3) < 2000) { TwoScores(s); }
    TwoScores(19);
    DescribesMeans(phrases, 19, 3, cover, highlight);
    TwoPlaces(phrases);
  }

  lemma TwoPlaces(phrases: seq<Phrase>)
    requires phrases == [Phrase([0, 1, 2, 20], 1), Phrase([21], 1)]
    ensures forall i: nat, k :: i < 2 && 0 <= k < |phrases[i].list| && 19 <= phrases[i].list[k] < 22 ==> k == if i == 0 then 3 else 0
    ensures |phrases| == 2 && phrases[0].list[3] == 20 && phrases[1].list[0] == 21 && |phrases[0].list| == 4 && |phrases[1].list| == 1
    ensures phrases[0].nToken == 1 == phrases[1].nToken
  {
  }

  lemma HitsFirst(x: nat, rest: seq<nat>, lo: int, hi: int)
    ensures Hits([x] + rest, lo, hi) == (if lo <= x < hi then 1 else 0) + Hits(rest, lo, hi)
    ensures rest == [] ==> Hits(rest, lo, hi) == 0
  {
    assert ([x] + rest)[1..] == rest;
  }

  lemma TwoScores(s: nat)
    ensures var phrases := [Phrase([0, 1, 2, 20], 1), Phrase([21], 1)];
            && WindowScore(phrases, {}, s, 3) <= 2000 && (s < 19 ==> WindowScore(phrases, {}, s, 3) < 2000)
            && (s == 19 ==> WindowScore(phrases, {}, s, 3) == 2000)
  {
    var a: seq<nat> := [0, 1, 2, 20];
    var phrases := [Phrase(a, 1), Phrase([21], 1)];
    var n, m := Hits(a, s, s + 3), Hits([21], s, s + 3);
    HitsFirst(20, [], s, s + 3);
    HitsFirst(21, [], s, s + 3);
    HitsFirst(2, [20], s, s + 3);
    HitsFirst(1, [2, 20], s, s + 3);
    HitsFirst(0, [1, 2, 20], s, s + 3);
    assert [20] + [] == [20] && [21] + [] == [21] && [2] + [20] == [2, 20] && [1] + [2, 20] == [1, 2, 20] && [0] + [1, 2, 20] == a;
    assert m == if s <= 21 < s + 3 then 1 else 0;
    assert n <= 3 && (s >= 19 ==> n <= 1) && (s == 19 ==> n == 1);
    assert Score(phrases, {}, s, s + 3, 1) == PhraseScore(a, false, s, s + 3);
    assert Score(phrases, {}, s, s + 3, 2) == Score(phrases, {}, s, s + 3, 1) + PhraseScore([21], false, s, s + 3);
  }
}

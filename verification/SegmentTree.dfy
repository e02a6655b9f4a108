/** Descending a segment b-tree: which leaves may hold a term, or terms it is a
    prefix of. */
module SegmentTree {
  import opened Varint
  import opened Doclist
  import opened DoclistScan

  type Term = seq<Byte>

  // ---- the order of terms ----

  predicate Before(a: Term, b: Term) {
    b != [] && (a == [] || a[0] < b[0] || (a[0] == b[0] && Before(a[1..], b[1..])))
  }

  /** The terms differ within their common length, and `a` is the smaller. */
  predicate Diverges(a: Term, b: Term) {
    a != [] && b != [] && (a[0] < b[0] || (a[0] == b[0] && Diverges(a[1..], b[1..])))
  }

  predicate IsPrefix(a: Term, t: Term) {
    |a| <= |t| && t[..|a|] == a
  }

  lemma {:induction false} DivergesBefore(a: Term, b: Term)
    requires Diverges(a, b)
    ensures Before(a, b)
  {
    if a[0] == b[0] { DivergesBefore(a[1..], b[1..]); }
  }

  /** Nothing that begins with `a` comes before `a`. */
  lemma {:induction false} PrefixNotAfter(a: Term, t: Term)
    requires IsPrefix(a, t)
    ensures !Before(t, a)
  {
    if a != [] {
      assert t[1..][..|a| - 1] == a[1..];
      PrefixNotAfter(a[1..], t[1..]);
    }
  }

  /** Once a term has diverged, so has everything it is a prefix of. */
  lemma {:induction false} DivergesExtends(a: Term, t: Term, b: Term)
    requires IsPrefix(a, t) && Diverges(a, b)
    ensures Before(t, b)
  {
    assert t[0] == a[0];
    if a[0] == b[0] {
      assert t[1..][..|a| - 1] == a[1..];
      DivergesExtends(a[1..], t[1..], b[1..]);
    }
  }

  lemma {:induction false} NotBeforeTrans(a: Term, b: Term, c: Term)
    requires !Before(a, b) && !Before(b, c)
    ensures !Before(a, c)
  {
    if a != [] && b != [] && c != [] && a[0] == b[0] == c[0] { NotBeforeTrans(a[1..], b[1..], c[1..]); }
  }

  /** Compares as far as both terms go. */
  method Memcmp(a: Term, b: Term) returns (cmp: int)
    ensures cmp < 0 <==> Diverges(a, b)
    ensures cmp < 0 || (cmp == 0 && |b| > |a|) <==> Before(a, b)
  {
    var i := 0;
    assert a[0..] == a && b[0..] == b;
    while i < |a| && i < |b|
      invariant 0 <= i <= |a| && i <= |b|
      invariant Diverges(a, b) <==> Diverges(a[i..], b[i..])
      invariant Before(a, b) <==> Before(a[i..], b[i..])
    {
      assert a[i..][1..] == a[i + 1..] && b[i..][1..] == b[i + 1..];
      if a[i] != b[i] { return a[i] as int - b[i] as int; }
      i := i + 1;
    }
    return 0;
  }

  // ---- nodes and trees ----

  /** A term of an interior node: how much it shares with the one before. */
  datatype Entry = Entry(prefix: nat, suffix: seq<Byte>)

  /** The child blocks of an inner node are numbered consecutively from `left`. */
  datatype Tree =
    | Leaf(id: int, terms: seq<Term>)
    | Inner(height: nat, left: int, entries: seq<Entry>, children: seq<Tree>)

  function TermOf(prev: Term, e: Entry): Term {
    (if e.prefix <= |prev| then prev[..e.prefix] else prev) + e.suffix
  }

  /** The terms of the entries that follow `prev`. */
  function Terms(entries: seq<Entry>, prev: Term): seq<Term> {
    if entries == [] then [] else [TermOf(prev, entries[0])] + Terms(entries[1..], TermOf(prev, entries[0]))
  }

  function EncodeEntry(e: Entry, first: bool): seq<Byte> {
    (if first then [] else Encode(e.prefix)) + Encode(|e.suffix|) + e.suffix
  }

  function EncodeEntries(entries: seq<Entry>, first: bool): seq<Byte> {
    if entries == [] then [] else EncodeEntry(entries[0], first) + EncodeEntries(entries[1..], false)
  }

  predicate EntriesOk(entries: seq<Entry>, prev: Term, first: bool) {
    entries == []
    || (entries[0].prefix <= |prev| < TWO_63 && |entries[0].suffix| < TWO_63 && (first ==> entries[0].prefix == 0)
        && EntriesOk(entries[1..], TermOf(prev, entries[0]), false))
  }

  function NodeBytes(t: Tree): seq<Byte>
    requires t.Inner? && 0 <= t.left < TWO_63
  {
    Encode(t.height) + (Encode(t.left) + EncodeEntries(t.entries, true))
  }

  // ---- which child ----

  /** The child that heads the subtree the term would be in: behind every node
      term that is not greater. */
  function FirstChild(terms: seq<Term>, term: Term): (k: nat)
    ensures k <= |terms|
  {
    if terms == [] || Before(term, terms[0]) then 0 else 1 + FirstChild(terms[1..], term)
  }

  /** The last child that may head terms beginning with `term`. */
  function LastChild(terms: seq<Term>, term: Term): (k: nat)
    ensures k <= |terms|
  {
    if terms == [] || Diverges(term, terms[0]) then 0 else 1 + LastChild(terms[1..], term)
  }

  lemma {:induction false} FirstBeforeLast(terms: seq<Term>, term: Term)
    ensures FirstChild(terms, term) <= LastChild(terms, term)
  {
    if terms != [] {
      if Diverges(term, terms[0]) { DivergesBefore(term, terms[0]); }
      FirstBeforeLast(terms[1..], term);
    }
  }

  lemma {:induction false} FirstChildMeans(terms: seq<Term>, term: Term, j: nat)
    requires j < FirstChild(terms, term)
    ensures !Before(term, terms[j])
  {
    if j > 0 { FirstChildMeans(terms[1..], term, j - 1); }
  }

  lemma {:induction false} LastChildMeans(terms: seq<Term>, term: Term)
    requires LastChild(terms, term) < |terms|
    ensures Diverges(term, terms[LastChild(terms, term)])
  {
    if !Diverges(term, terms[0]) { LastChildMeans(terms[1..], term); }
  }

  /** Scans an interior node for the two children. */
  method ScanInteriorNode(term: Term, a: seq<Byte>, ghost node: Tree) returns (first: int, last: int)
    requires node.Inner? && 0 <= node.left < TWO_63 && node.height < TWO_63 && EntriesOk(node.entries, [], true) && a == NodeBytes(node)
    ensures first == node.left + FirstChild(Terms(node.entries, []), term)
    ensures last == node.left + LastChild(Terms(node.entries, []), term)
  {
    hide Tail, Encode, Before, Diverges, EncodeEntry;
    var p: nat := 0;
    TailStart(a);
    var height, q := ReadVarint(a, p, node.height, Encode(node.left) + EncodeEntries(node.entries, true));
    var iChild: int;
    iChild, p := ReadVarint(a, q, node.left, EncodeEntries(node.entries, true));
    var isFirst, wantFirst, wantLast := true, true, true;
    var buffer: Term := [];
    ghost var rest := node.entries;
    first, last := 0, 0;
    while p < |a| && (wantFirst || wantLast)
      invariant p <= |a| && Tail(a, p, EncodeEntries(rest, isFirst)) && EntriesOk(rest, buffer, isFirst)
      invariant if wantFirst then iChild + FirstChild(Terms(rest, buffer), term) == node.left + FirstChild(Terms(node.entries, []), term)
                else first == node.left + FirstChild(Terms(node.entries, []), term)
      invariant if wantLast then iChild + LastChild(Terms(rest, buffer), term) == node.left + LastChild(Terms(node.entries, []), term)
                else last == node.left + LastChild(Terms(node.entries, []), term)
      decreases |rest|
    {
      NotDone(a, p, rest, isFirst);
      var nPrefix, suffix, r := ReadEntry(a, p, isFirst, rest[0], EncodeEntries(rest[1..], false));
      buffer := (if nPrefix <= |buffer| then buffer[..nPrefix] else buffer) + suffix;
      p, isFirst := r, false;
      var cmp := Memcmp(term, buffer);
      if wantFirst && (cmp < 0 || (cmp == 0 && |buffer| > |term|)) {
        first, wantFirst := iChild, false;
      }
      if wantLast && cmp < 0 {
        last, wantLast := iChild, false;
      }
      rest := rest[1..];
      iChild := iChild + 1;
    }
    if p == |a| { AllDone(a, p, rest, isFirst); }
    if wantFirst { first := iChild; }
    if wantLast { last := iChild; }
  }

  lemma TailStart(a: seq<Byte>)
    ensures Tail(a, 0, a)
  {
  }

  lemma NotDone(a: seq<Byte>, p: nat, rest: seq<Entry>, first: bool)
    requires p < |a| && Tail(a, p, EncodeEntries(rest, first))
    ensures rest != [] && Tail(a, p, EncodeEntry(rest[0], first) + EncodeEntries(rest[1..], false))
  {
  }

  lemma AllDone(a: seq<Byte>, p: nat, rest: seq<Entry>, first: bool)
    requires p == |a| && Tail(a, p, EncodeEntries(rest, first))
    ensures rest == []
  {
    SomeBytes(rest, first);
  }

  lemma SomeBytes(rest: seq<Entry>, first: bool)
    ensures rest != [] ==> |EncodeEntries(rest, first)| > 0
  {
  }

  /** Reads one entry: the first of a node has no prefix length. */
  method ReadEntry(a: seq<Byte>, p: nat, first: bool, ghost e: Entry, ghost rest: seq<Byte>) returns (nPrefix: nat, suffix: seq<Byte>, q: nat)
    requires Tail(a, p, EncodeEntry(e, first) + rest) && e.prefix < TWO_63 && |e.suffix| < TWO_63 && (first ==> e.prefix == 0)
    ensures nPrefix == e.prefix && suffix == e.suffix && q <= |a| && Tail(a, q, rest)
  {
    hide Tail, Encode;
    nPrefix, q := 0, p;
    ghost var text := Encode(|e.suffix|) + (e.suffix + rest);
    if !first {
      assert EncodeEntry(e, first) + rest == Encode(e.prefix) + text;
      var v;
      v, q := ReadVarint(a, p, e.prefix, text);
      nPrefix := v;
    } else {
      assert EncodeEntry(e, first) + rest == text;
    }
    var n: int;
    n, q := ReadVarint(a, q, |e.suffix|, e.suffix + rest);
    TailDrop(a, q, e.suffix, rest);
    suffix := a[q..q + n];
    q := q + n;
  }

  // ---- whole trees ----

  /** The leaves of a tree, from left to right. */
  function Leaves(t: Tree): seq<Tree> {
    if t.Leaf? then [t] else LeavesOf(t.children)
  }

  function LeavesOf(ts: seq<Tree>): seq<Tree> {
    if ts == [] then [] else Leaves(ts[0]) + LeavesOf(ts[1..])
  }

  ghost predicate AllBefore(t: Tree, bound: Term) {
    forall l, i :: l in Leaves(t) && l.Leaf? && 0 <= i < |l.terms| ==> Before(l.terms[i], bound)
  }

  ghost predicate NoneBefore(t: Tree, bound: Term) {
    forall l, i :: l in Leaves(t) && l.Leaf? && 0 <= i < |l.terms| ==> !Before(l.terms[i], bound)
  }

  ghost predicate IdsBelow(t: Tree, u: Tree) {
    forall l, m :: l in Leaves(t) && m in Leaves(u) && l.Leaf? && m.Leaf? ==> l.id < m.id
  }

  /** A stored segment: the node terms separate the subtrees, leaves are numbered
      from left to right, and every child is in the block its number says. */
  ghost predicate Stored(t: Tree, blocks: map<int, seq<Byte>>)
    decreases t, 1
  {
    t.Inner? ==>
      var terms := Terms(t.entries, []);
      && 0 <= t.left < TWO_63 && 1 <= t.height < TWO_63 && EntriesOk(t.entries, [], true) && |t.children| == |t.entries| + 1
      && (forall i, j :: 0 <= i < j < |terms| ==> !Before(terms[j], terms[i]))
      && (forall k :: 0 <= k < |terms| && k < |t.children| ==> AllBefore(t.children[k], terms[k]))
      && (forall k, j :: 0 <= k < |terms| && k < j < |t.children| ==> NoneBefore(t.children[j], terms[k]))
      && (forall i, j :: 0 <= i < j < |t.children| ==> IdsBelow(t.children[i], t.children[j]))
      && (forall k :: 0 <= k < |t.children| ==> ChildStored(t, k, blocks))
  }

  ghost predicate ChildStored(t: Tree, k: nat, blocks: map<int, seq<Byte>>)
    requires t.Inner? && k < |t.children|
    decreases t, 0
  {
    var c := t.children[k];
    if t.height == 1 then c.Leaf? && c.id == t.left + k
    else c.Inner? && c.height == t.height - 1 && Stored(c, blocks) && t.left + k in blocks && blocks[t.left + k] == NodeBytes(c)
  }

  lemma {:induction false} TermsLength(entries: seq<Entry>, prev: Term)
    ensures |Terms(entries, prev)| == |entries|
    decreases entries
  {
    if entries != [] { TermsLength(entries[1..], TermOf(prev, entries[0])); }
  }

  /** The block of the leaf that the term, or the last term it begins, would be
      in. */
  function SelectedLeaf(t: Tree, term: Term, last: bool): int
    decreases t
  {
    if t.Leaf? then t.id
    else
      var terms := Terms(t.entries, []);
      var k := if last then LastChild(terms, term) else FirstChild(terms, term);
      if k < |t.children| then SelectedLeaf(t.children[k], term, last) else 0
  }

  lemma {:induction false} LeafOfChild(ts: seq<Tree>, l: Tree) returns (k: nat)
    requires l in LeavesOf(ts)
    ensures k < |ts| && l in Leaves(ts[k])
  {
    if l in Leaves(ts[0]) {
      k := 0;
    } else {
      var j := LeafOfChild(ts[1..], l);
      k := j + 1;
    }
  }

  lemma {:induction false} ChildLeaf(ts: seq<Tree>, k: nat, l: Tree)
    requires k < |ts| && l in Leaves(ts[k])
    ensures l in LeavesOf(ts)
  {
    if k > 0 { ChildLeaf(ts[1..], k - 1, l); }
  }

  /** The chosen leaf is one of the tree's. */
  lemma {:induction false} SelectedIsLeaf(t: Tree, blocks: map<int, seq<Byte>>, term: Term, last: bool) returns (l: Tree)
    requires Stored(t, blocks)
    ensures l in Leaves(t) && l.Leaf? && l.id == SelectedLeaf(t, term, last)
    decreases t
  {
    if t.Leaf? {
      l := t;
    } else {
      var k := Chosen(t, blocks, term, last);
      l := SelectedIsLeaf(t.children[k], blocks, term, last);
      ChildLeaf(t.children, k, l);
    }
  }

  /** The child descended to. */
  lemma Chosen(t: Tree, blocks: map<int, seq<Byte>>, term: Term, last: bool) returns (k: nat)
    requires t.Inner? && Stored(t, blocks)
    ensures k < |t.children| && Stored(t.children[k], blocks)
    ensures k == if last then LastChild(Terms(t.entries, []), term) else FirstChild(Terms(t.entries, []), term)
    ensures SelectedLeaf(t, term, last) == SelectedLeaf(t.children[k], term, last)
  {
    TermsLength(t.entries, []);
    k := if last then LastChild(Terms(t.entries, []), term) else FirstChild(Terms(t.entries, []), term);
    assert ChildStored(t, k, blocks);
  }

  /** The range of leaves is never empty. */
  lemma {:induction false} RangeOrdered(t: Tree, blocks: map<int, seq<Byte>>, term: Term)
    requires Stored(t, blocks)
    ensures SelectedLeaf(t, term, false) <= SelectedLeaf(t, term, true)
    decreases t
  {
    if t.Inner? {
      hide Leaves, SelectedLeaf;
      var f := Chosen(t, blocks, term, false);
      var g := Chosen(t, blocks, term, true);
      FirstBeforeLast(Terms(t.entries, []), term);
      if f == g {
        RangeOrdered(t.children[f], blocks, term);
      } else {
        ChildrenApart(t, blocks, f, g, term);
      }
    }
  }

  lemma ChildrenApart(t: Tree, blocks: map<int, seq<Byte>>, f: nat, g: nat, term: Term)
    requires t.Inner? && Stored(t, blocks) && f < g < |t.children| && Stored(t.children[f], blocks) && Stored(t.children[g], blocks)
    ensures SelectedLeaf(t.children[f], term, false) < SelectedLeaf(t.children[g], term, true)
  {
    hide Leaves, SelectedLeaf;
    var l := SelectedIsLeaf(t.children[f], blocks, term, false);
    var m := SelectedIsLeaf(t.children[g], blocks, term, true);
    assert IdsBelow(t.children[f], t.children[g]);
  }

  /** A subtree holding a matching term is neither before the first child nor
      behind the last. */
  lemma ChildInRange(t: Tree, blocks: map<int, seq<Byte>>, term: Term, j: nat, l: Tree, i: nat)
    requires t.Inner? && Stored(t, blocks) && j < |t.children| && l in Leaves(t.children[j]) && l.Leaf? && i < |l.terms| && IsPrefix(term, l.terms[i])
    ensures var terms := Terms(t.entries, []); FirstChild(terms, term) <= j <= LastChild(terms, term)
  {
    hide Leaves;
    var terms, x := Terms(t.entries, []), l.terms[i];
    TermsLength(t.entries, []);
    PrefixNotAfter(term, x);
    if j < FirstChild(terms, term) {
      assert AllBefore(t.children[j], terms[j]);
      FirstChildMeans(terms, term, j);
      NotBeforeTrans(x, term, terms[j]);
    }
    var g := LastChild(terms, term);
    if j > g {
      assert NoneBefore(t.children[j], terms[g]);
      LastChildMeans(terms, term);
      DivergesExtends(term, x, terms[g]);
    }
  }

  /** Every leaf that holds the term, or a term it is a prefix of, is in the
      selected range. */
  lemma {:induction false} RangeCovers(t: Tree, blocks: map<int, seq<Byte>>, term: Term, l: Tree, i: nat)
    requires Stored(t, blocks) && l in Leaves(t) && l.Leaf? && i < |l.terms| && IsPrefix(term, l.terms[i])
    ensures SelectedLeaf(t, term, false) <= l.id <= SelectedLeaf(t, term, true)
    decreases t
  {
    if t.Inner? {
      var j := LeafOfChild(t.children, l);
      hide Leaves, SelectedLeaf, IsPrefix, FirstChild, LastChild;
      ChildInRange(t, blocks, term, j, l, i);
      var f := Chosen(t, blocks, term, false);
      var g := Chosen(t, blocks, term, true);
      if f == j || g == j {
        assert ChildStored(t, j, blocks);
        RangeCovers(t.children[j], blocks, term, l, i);
      }
      if f < j {
        var a := SelectedIsLeaf(t.children[f], blocks, term, false);
        assert IdsBelow(t.children[f], t.children[j]);
      }
      if j < g {
        var b := SelectedIsLeaf(t.children[g], blocks, term, true);
        assert IdsBelow(t.children[j], t.children[g]);
      }
    }
  }

  /** Finds the first and the last leaf for a term, each if wanted. */
  method SelectLeaf(blocks: map<int, seq<Byte>>, term: Term, a: seq<Byte>, wantFirst: bool, wantLast: bool, ghost t: Tree) returns (first: int, last: int)
    requires t.Inner? && Stored(t, blocks) && a == NodeBytes(t) && (wantFirst || wantLast)
    ensures wantFirst ==> first == SelectedLeaf(t, term, false)
    ensures wantLast ==> last == SelectedLeaf(t, term, true)
    decreases t
  {
    hide Tail, Encode, FirstChild, LastChild;
    TailStart(a);
    var height, q := ReadVarint(a, 0, t.height, Encode(t.left) + EncodeEntries(t.entries, true));
    first, last := ScanInteriorNode(term, a, t);
    ghost var f := Chosen(t, blocks, term, false);
    ghost var g := Chosen(t, blocks, term, true);
    assert ChildStored(t, f, blocks) && ChildStored(t, g, blocks);
    if height > 1 {
      var needFirst := wantFirst;
      if wantFirst && wantLast && first != last {
        var ignored;
        first, ignored := SelectLeaf(blocks, term, blocks[first], true, false, t.children[f]);
        needFirst := false;
      }
      if needFirst {
        first, last := SelectLeaf(blocks, term, blocks[first], true, wantLast, t.children[f]);
      } else {
        var ignored;
        ignored, last := SelectLeaf(blocks, term, blocks[last], false, true, t.children[g]);
      }
    }
  }

  // ---- the order of terms, spelled out ----

  /** Terms are ordered by their first difference, and a term comes after those it
      extends. */
  lemma {:induction false} BeforeMeans(a: Term, b: Term)
    ensures Before(a, b) <==> exists i: nat :: i <= |a| && i < |b| && a[..i] == b[..i] && (i == |a| || a[i] < b[i])
  {
    if a != [] && b != [] && a[0] == b[0] {
      var a', b' := a[1..], b[1..];
      BeforeMeans(a', b');
      if i: nat :| i <= |a'| && i < |b'| && a'[..i] == b'[..i] && (i == |a'| || a'[i] < b'[i]) {
        assert a[..i + 1] == [a[0]] + a'[..i] && b[..i + 1] == [b[0]] + b'[..i];
        assert i + 1 <= |a| && i + 1 < |b| && a[..i + 1] == b[..i + 1] && (i + 1 == |a| || a[i + 1] < b[i + 1]);
      }
      if i: nat :| i <= |a| && i < |b| && a[..i] == b[..i] && (i == |a| || a[i] < b[i]) {
        assert i > 0;
        assert a'[..i - 1] == a[..i][1..] && b'[..i - 1] == b[..i][1..];
        assert i - 1 <= |a'| && i - 1 < |b'| && a'[..i - 1] == b'[..i - 1] && (i - 1 == |a'| || a'[i - 1] < b'[i - 1]);
      }
    } else if b != [] {
      assert a[..0] == b[..0] == [];
      forall i: nat | 0 < i <= |a| && i < |b| && a != [] ensures a[..i] != b[..i] {
        assert a[..i][0] == a[0] && b[..i][0] == b[0];
      }
      assert a == [] || a[0] < b[0] ==> 0 <= |a| && 0 < |b| && a[..0] == b[..0] && (0 == |a| || a[0] < b[0]);
    }
  }

  /** A term diverges from a greater one that it is not a prefix of. */
  lemma {:induction false} DivergesMeans(a: Term, b: Term)
    ensures Diverges(a, b) <==> Before(a, b) && !IsPrefix(a, b)
  {
    if a != [] && b != [] && a[0] == b[0] {
      DivergesMeans(a[1..], b[1..]);
      assert |a| <= |b| ==> b[..|a|] == [b[0]] + b[1..][..|a| - 1] && a == [a[0]] + a[1..];
    } else if a != [] && |a| <= |b| {
      assert b[..|a|][0] == b[0];
    } else if a == [] {
      assert b[..0] == [];
    }
  }

  /** The two children are chosen exactly: the first stands before the first node
      term that is greater, the last before the first that is greater and does not
      begin with the term. */
  lemma {:induction false} ChildrenMean(terms: seq<Term>, term: Term)
    ensures var k := FirstChild(terms, term); (forall j :: 0 <= j < k ==> !Before(term, terms[j])) && (k < |terms| ==> Before(term, terms[k]))
    ensures var k := LastChild(terms, term);
            && (forall j :: 0 <= j < k ==> !Before(term, terms[j]) || IsPrefix(term, terms[j]))
            && (k < |terms| ==> Before(term, terms[k]) && !IsPrefix(term, terms[k]))
  {
    hide IsPrefix, Before, Diverges;
    if terms != [] {
      DivergesMeans(term, terms[0]);
      ChildrenMean(terms[1..], term);
      forall j | 0 <= j < |terms| ensures j > 0 ==> terms[j] == terms[1..][j - 1] { }
    }
  }

  lemma OneEntry(e: Entry, prev: Term, first: bool)
    ensures Terms([e], prev) == [TermOf(prev, e)] && EncodeEntries([e], first) == EncodeEntry(e, first)
  {
    assert [e][1..] == [];
  }

  /** A term that shares its first byte with its predecessor. */
  lemma TermsSample()
    ensures Terms([Entry(0, [97, 98]), Entry(1, [99])], []) == [[97, 98], [97, 99]]
    ensures EncodeEntries([Entry(0, [97, 98]), Entry(1, [99])], true) == [2, 97, 98, 1, 1, 99]
  {
    var e1, e2 := Entry(0, [97, 98]), Entry(1, [99]);
    assert [e1, e2][1..] == [e2];
    var ab: Term := [97, 98];
    assert ab[..1] == [97];
    assert TermOf([], e1) == ab && TermOf(ab, e2) == [97, 99];
    assert Encode(2) == [2] && Encode(1) == [1];
    hide Encode, TermOf;
    OneEntry(e2, ab, false);
    assert EncodeEntry(e1, true) == [2, 97, 98] && EncodeEntry(e2, false) == [1, 1, 99];
  }
}

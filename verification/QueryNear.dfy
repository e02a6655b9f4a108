/** The test of a NEAR query in one row: position lists are cut down from left to
    right and back, and what remains lies on a chain of phrases close together. */
module QueryNear {
  import opened Varint
  import opened Doclist
  import opened DoclistScan
  import opened DoclistNear
  import opened DoclistPhraseMerge

  /** A column and a position in it. */
  type Hit = (nat, nat)

  /** The phrases of a NEAR query in one row: their position lists, their numbers of
      tokens, and the distances allowed between neighbours. */
  datatype Cluster = Cluster(lists: seq<seq<Column>>, tokens: seq<nat>, nears: seq<nat>)

  ghost predicate Sound(q: Cluster) {
    && |q.lists| == |q.tokens| == |q.nears| + 1
    && (forall i :: 0 <= i < |q.lists| ==> ValidColumns(q.lists[i], -1) && q.lists[i] != [])
    && (forall i :: 0 <= i < |q.tokens| ==> q.tokens[i] > 0)
  }

  /** A hit of phrase `i` and one of the next phrase are close enough. */
  ghost predicate Beside(q: Cluster, i: nat, g: Hit, h: Hit)
    requires Sound(q) && i + 1 < |q.lists|
  {
    g.0 == h.0 && (g.1 < h.1 <= g.1 + q.nears[i] + q.tokens[i + 1] || h.1 < g.1 <= h.1 + q.nears[i] + q.tokens[i])
  }

  /** One hit of every phrase, neighbours being close enough. */
  ghost predicate Chain(q: Cluster, hs: seq<Hit>)
    requires Sound(q)
  {
    && |hs| == |q.lists| && (forall i :: 0 <= i < |hs| ==> hs[i] in ColumnHits(q.lists[i]))
    && forall i :: 0 <= i < |hs| - 1 ==> Beside(q, i, hs[i], hs[i + 1])
  }

  ghost predicate NearMatch(q: Cluster)
    requires Sound(q)
  {
    exists hs :: Chain(q, hs)
  }

  /** A hit of phrase `i` that lies on a chain. */
  ghost predicate OnChain(q: Cluster, i: nat, h: Hit)
    requires Sound(q) && i < |q.lists|
  {
    exists hs :: Chain(q, hs) && hs[i] == h
  }

  // ---- chains from either side ----

  /** A step of a chain from phrase `i`, and one to phrase `j`. */
  ghost predicate Step(q: Cluster, i: nat, g: Hit, h: Hit)
    requires Sound(q) && i + 1 < |q.lists|
  {
    g in ColumnHits(q.lists[i]) && h in ColumnHits(q.lists[i + 1]) && Beside(q, i, g, h)
  }

  ghost predicate StepTo(q: Cluster, j: nat, g: Hit, h: Hit)
    requires Sound(q) && 0 < j < |q.lists|
  {
    Step(q, j - 1, g, h)
  }

  ghost predicate FromLeft(q: Cluster, j: nat, h: Hit)
    requires Sound(q) && j < |q.lists|
    decreases j
  {
    && h in ColumnHits(q.lists[j])
    && (j == 0 || exists g :: StepTo(q, j, g, h) && FromLeft(q, j - 1, g))
  }

  ghost predicate FromRight(q: Cluster, j: nat, h: Hit)
    requires Sound(q) && j < |q.lists|
    decreases |q.lists| - j
  {
    && h in ColumnHits(q.lists[j])
    && (j + 1 == |q.lists| || exists g :: Step(q, j, h, g) && FromRight(q, j + 1, g))
  }

  ghost predicate Through(q: Cluster, j: nat, h: Hit)
    requires Sound(q) && j < |q.lists|
  {
    FromLeft(q, j, h) && FromRight(q, j, h)
  }

  lemma {:induction false} LeftPart(q: Cluster, j: nat, h: Hit) returns (hs: seq<Hit>)
    requires Sound(q) && j < |q.lists| && FromLeft(q, j, h)
    ensures |hs| == j + 1 && hs[j] == h && (forall i :: 0 <= i <= j ==> hs[i] in ColumnHits(q.lists[i]))
    ensures forall i :: 0 <= i < j ==> Beside(q, i, hs[i], hs[i + 1])
    decreases j
  {
    if j == 0 {
      hs := [h];
    } else {
      var g :| StepTo(q, j, g, h) && FromLeft(q, j - 1, g);
      hs := LeftPart(q, j - 1, g);
      hs := hs + [h];
    }
  }

  lemma {:induction false} RightPart(q: Cluster, j: nat, h: Hit) returns (hs: seq<Hit>)
    requires Sound(q) && j < |q.lists| && FromRight(q, j, h)
    ensures |hs| == |q.lists| - j && hs[0] == h && (forall i :: 0 <= i < |hs| ==> hs[i] in ColumnHits(q.lists[j + i]))
    ensures forall i :: 0 <= i < |hs| - 1 ==> Beside(q, j + i, hs[i], hs[i + 1])
    decreases |q.lists| - j
  {
    if j + 1 == |q.lists| {
      hs := [h];
    } else {
      var g :| Step(q, j, h, g) && FromRight(q, j + 1, g);
      var rest := RightPart(q, j + 1, g);
      hs := [h] + rest;
      forall i | 0 <= i < |hs| ensures hs[i] in ColumnHits(q.lists[j + i]) {
        if i > 0 { assert rest[i - 1] in ColumnHits(q.lists[j + 1 + (i - 1)]); }
      }
      forall i | 0 <= i < |hs| - 1 ensures Beside(q, j + i, hs[i], hs[i + 1]) {
        if i > 0 { assert Beside(q, j + 1 + (i - 1), rest[i - 1], rest[i]); }
      }
    }
  }

  lemma {:induction false} ChainLeft(q: Cluster, hs: seq<Hit>, j: nat)
    requires Sound(q) && Chain(q, hs) && j < |hs|
    ensures FromLeft(q, j, hs[j])
    decreases j
  {
    if j > 0 {
      ChainLeft(q, hs, j - 1);
      assert StepTo(q, j, hs[j - 1], hs[j]);
    }
  }

  lemma {:induction false} ChainRight(q: Cluster, hs: seq<Hit>, j: nat)
    requires Sound(q) && Chain(q, hs) && j < |hs|
    ensures FromRight(q, j, hs[j])
    decreases |hs| - j
  {
    if j + 1 < |hs| {
      ChainRight(q, hs, j + 1);
      assert Step(q, j, hs[j], hs[j + 1]);
    }
  }

  /** A hit is reached from both sides exactly if it lies on a chain. */
  lemma ThroughIsChain(q: Cluster, j: nat, h: Hit)
    requires Sound(q) && j < |q.lists|
    ensures Through(q, j, h) <==> OnChain(q, j, h)
  {
    if Through(q, j, h) {
      var l := LeftPart(q, j, h);
      var r := RightPart(q, j, h);
      var hs := l + r[1..];
      Joined(q, j, l, r);
      assert Chain(q, hs) && hs[j] == h;
    }
    forall hs | Chain(q, hs) && hs[j] == h ensures Through(q, j, h) {
      ChainLeft(q, hs, j);
      ChainRight(q, hs, j);
    }
  }

  lemma Joined(q: Cluster, j: nat, l: seq<Hit>, r: seq<Hit>)
    requires Sound(q) && j < |q.lists| && |l| == j + 1 && |r| == |q.lists| - j && l[j] == r[0]
    requires forall i :: 0 <= i <= j ==> l[i] in ColumnHits(q.lists[i])
    requires forall i :: 0 <= i < j ==> Beside(q, i, l[i], l[i + 1])
    requires forall i :: 0 <= i < |r| ==> r[i] in ColumnHits(q.lists[j + i])
    requires forall i :: 0 <= i < |r| - 1 ==> Beside(q, j + i, r[i], r[i + 1])
    ensures Chain(q, l + r[1..])
  {
    var hs := l + r[1..];
    forall i | 0 <= i < |hs| ensures hs[i] in ColumnHits(q.lists[i]) {
      if i > j { assert hs[i] == r[i - j] && q.lists[j + (i - j)] == q.lists[i]; }
    }
    forall i | 0 <= i < |hs| - 1 ensures Beside(q, i, hs[i], hs[i + 1]) {
      if i >= j {
        assert hs[i] == r[i - j] && hs[i + 1] == r[i - j + 1];
        assert Beside(q, j + (i - j), r[i - j], r[i - j + 1]);
      }
    }
  }

  // ---- one cut ----

  /** A list that holds exactly the hits of phrase `j` reached from the left. */
  ghost predicate IsLeft(q: Cluster, j: nat, c: seq<Column>)
    requires Sound(q) && j < |q.lists|
  {
    ValidColumns(c, -1) && forall h :: h in ColumnHits(c) <==> FromLeft(q, j, h)
  }

  ghost predicate IsThrough(q: Cluster, j: nat, c: seq<Column>)
    requires Sound(q) && j < |q.lists|
  {
    ValidColumns(c, -1) && forall h :: h in ColumnHits(c) <==> Through(q, j, h)
  }

  lemma {:induction false} SomeHit(c: seq<Column>) returns (h: Hit)
    requires ValidColumns(c, -1) && c != []
    ensures h in ColumnHits(c)
  {
    FirstHit(c);
    h := (c[0].index, c[0].positions[0]);
  }

  /** Some hit of the list is close to `h`. */
  ghost predicate Within(nRight: nat, nLeft: nat, c: seq<Column>, h: Hit) {
    exists g: Hit :: g in ColumnHits(c) && g.0 == h.0 && (g.1 < h.1 <= g.1 + nRight || h.1 < g.1 <= h.1 + nLeft)
  }

  lemma CloseMeans(nRight: nat, nLeft: nat, c: seq<Column>, h: Hit)
    requires ValidColumns(c, -1)
    ensures Close(nRight, nLeft, h.1, PositionsOf(c, h.0))
       <==> Within(nRight, nLeft, c, h)
  {
    PositionsOfHits(c, h.0, -1);
    var ps := PositionsOf(c, h.0);
    if Close(nRight, nLeft, h.1, ps) {
      var p :| p in ps && (p < h.1 <= p + nRight || h.1 < p <= h.1 + nLeft);
      assert (h.0, p) in ColumnHits(c);
    }
    if g: Hit :| g in ColumnHits(c) && g.0 == h.0 && (g.1 < h.1 <= g.1 + nRight || h.1 < g.1 <= h.1 + nLeft) {
      assert g == (h.0, g.1);
      assert g.1 in ps;
    }
  }

  lemma CutMembers(nRight: nat, nLeft: nat, c1: seq<Column>, c2: seq<Column>)
    requires ValidColumns(c1, -1) && ValidColumns(c2, -1)
    ensures ValidColumns(NearColumns(nRight, nLeft, c1, c2), -1)
    ensures forall h: Hit :: h in ColumnHits(NearColumns(nRight, nLeft, c1, c2)) <==> h in ColumnHits(c2) && Within(nRight, nLeft, c1, h)
  {
    hide ColumnHits, ValidColumns, NearColumns, Within, Close, EncodePoslist;
    NearColumnsMembers(nRight, nLeft, c1, c2);
    forall h: Hit ensures Close(nRight, nLeft, h.1, PositionsOf(c1, h.0)) <==> Within(nRight, nLeft, c1, h) {
      CloseMeans(nRight, nLeft, c1, h);
    }
  }

  /** What cutting phrase `j` down by its left neighbour leaves. */
  ghost function CutRight(q: Cluster, j: nat, c: seq<Column>): seq<Column>
    requires Sound(q) && 0 < j < |q.lists|
  {
    NearColumns(q.nears[j - 1] + q.tokens[j], q.nears[j - 1] + q.tokens[j - 1], c, q.lists[j])
  }

  /** What cutting phrase `j`, already cut to `b`, down by its right neighbour
      leaves. */
  ghost function CutLeft(q: Cluster, j: nat, c: seq<Column>, b: seq<Column>): seq<Column>
    requires Sound(q) && j + 1 < |q.lists|
  {
    NearColumns(q.nears[j] + q.tokens[j], q.nears[j] + q.tokens[j + 1], c, b)
  }

  lemma CutRightIs(q: Cluster, j: nat, c: seq<Column>)
    requires Sound(q) && 0 < j < |q.lists| && IsLeft(q, j - 1, c)
    ensures IsLeft(q, j, CutRight(q, j, c))
  {
    hide ColumnHits, ValidColumns, NearColumns, FromLeft, Within;
    var nRight, nLeft := q.nears[j - 1] + q.tokens[j], q.nears[j - 1] + q.tokens[j - 1];
    CutMembers(nRight, nLeft, c, q.lists[j]);
    forall h ensures h in ColumnHits(CutRight(q, j, c)) <==> FromLeft(q, j, h) {
      ReachedRight(q, j, c, h);
    }
  }

  lemma ReachedRight(q: Cluster, j: nat, c: seq<Column>, h: Hit)
    requires Sound(q) && 0 < j < |q.lists| && IsLeft(q, j - 1, c)
    ensures var nRight, nLeft := q.nears[j - 1] + q.tokens[j], q.nears[j - 1] + q.tokens[j - 1];
            FromLeft(q, j, h) <==>
              && h in ColumnHits(q.lists[j])
              && Within(nRight, nLeft, c, h)
  {
    hide ColumnHits, ValidColumns;
    var nRight, nLeft := q.nears[j - 1] + q.tokens[j], q.nears[j - 1] + q.tokens[j - 1];
    if h in ColumnHits(q.lists[j]) {
      forall g: Hit ensures StepTo(q, j, g, h) && FromLeft(q, j - 1, g)
                       <==> g in ColumnHits(c) && g.0 == h.0 && (g.1 < h.1 <= g.1 + nRight || h.1 < g.1 <= h.1 + nLeft)
      {
        assert g in ColumnHits(c) <==> FromLeft(q, j - 1, g);
      }
    }
  }

  lemma CutLeftIs(q: Cluster, j: nat, c: seq<Column>, b: seq<Column>)
    requires Sound(q) && j + 1 < |q.lists| && IsThrough(q, j + 1, c) && IsLeft(q, j, b)
    ensures IsThrough(q, j, CutLeft(q, j, c, b))
  {
    hide ColumnHits, ValidColumns, NearColumns, FromLeft, Through, Within;
    var nRight, nLeft := q.nears[j] + q.tokens[j], q.nears[j] + q.tokens[j + 1];
    CutMembers(nRight, nLeft, c, b);
    forall h ensures h in ColumnHits(CutLeft(q, j, c, b)) <==> Through(q, j, h) {
      ReachedLeft(q, j, c, h);
    }
  }

  lemma ReachedLeft(q: Cluster, j: nat, c: seq<Column>, h: Hit)
    requires Sound(q) && j + 1 < |q.lists| && IsThrough(q, j + 1, c)
    ensures var nRight, nLeft := q.nears[j] + q.tokens[j], q.nears[j] + q.tokens[j + 1];
            Through(q, j, h) <==>
              && FromLeft(q, j, h)
              && Within(nRight, nLeft, c, h)
  {
    hide ColumnHits, ValidColumns;
    var nRight, nLeft := q.nears[j] + q.tokens[j], q.nears[j] + q.tokens[j + 1];
    if FromLeft(q, j, h) {
      forall g: Hit ensures Step(q, j, h, g) && FromRight(q, j + 1, g)
                       <==> g in ColumnHits(c) && g.0 == h.0 && (g.1 < h.1 <= g.1 + nRight || h.1 < g.1 <= h.1 + nLeft)
      {
        assert g in ColumnHits(c) <==> Through(q, j + 1, g);
        if Step(q, j, h, g) { LeftGoesOn(q, j, h, g); }
      }
    }
  }

  lemma LeftGoesOn(q: Cluster, j: nat, h: Hit, g: Hit)
    requires Sound(q) && j + 1 < |q.lists| && FromLeft(q, j, h) && Step(q, j, h, g)
    ensures FromLeft(q, j + 1, g)
  {
    var k := j + 1;
    assert StepTo(q, k, h, g) && FromLeft(q, k - 1, h);
  }

  /** Cutting back never empties a list. */
  lemma CutLeftSome(q: Cluster, j: nat, c: seq<Column>, b: seq<Column>)
    requires Sound(q) && j + 1 < |q.lists| && IsThrough(q, j + 1, c) && c != [] && IsLeft(q, j, b)
    ensures CutLeft(q, j, c, b) != [] && b != []
  {
    CutLeftIs(q, j, c, b);
    var h := SomeHit(c);
    var k := j + 1;
    assert FromLeft(q, k, h);
    var g :| StepTo(q, k, g, h) && FromLeft(q, k - 1, g);
    assert Step(q, j, g, h);
    assert Through(q, j, g);
  }

  lemma LeftNone(q: Cluster, j: nat, c: seq<Column>)
    requires Sound(q) && j < |q.lists| && IsLeft(q, j, c)
    ensures c == [] ==> !NearMatch(q)
    ensures c != [] && j + 1 == |q.lists| ==> IsThrough(q, j, c) && NearMatch(q)
  {
    if c == [] {
      forall hs | Chain(q, hs) ensures false {
        ChainLeft(q, hs, j);
      }
    } else if j + 1 == |q.lists| {
      var h := SomeHit(c);
      assert Through(q, j, h);
      ThroughIsChain(q, j, h);
    }
  }

  // ---- the position lists as bytes ----

  ghost function Zeros(n: nat): seq<Byte> {
    seq(n, i => 0)
  }

  /** A buffer that holds a position list and zero bytes behind it. */
  ghost predicate Padded(b: array<Byte>, c: seq<Column>)
    reads b
  {
    |EncodePoslist(c)| <= b.Length && b[..] == EncodePoslist(c) + Zeros(b.Length - |EncodePoslist(c)|)
  }

  /** Cuts the list of a phrase down to what is near the other phrase, and clears
      the bytes behind it. */
  method EvalNearTrim(nNear: nat, aTmp: array<Byte>, aPoslist: array<Byte>, nOther: nat, pList: array<Byte>, nToken: nat,
                      ghost c1: seq<Column>, ghost c2: seq<Column>) returns (res: bool)
    requires nOther > 0 && nToken > 0 && aTmp != aPoslist && aTmp != pList && aPoslist != pList && aTmp.Length >= 2 * pList.Length
    requires c1 != [] && c2 != [] && ValidColumns(c1, -1) && ValidColumns(c2, -1) && Padded(aPoslist, c1) && Padded(pList, c2)
    modifies aTmp, pList
    ensures var k := NearColumns(nNear + nToken, nNear + nOther, c1, c2); (res <==> k != []) && (res ==> Padded(pList, k))
  {
    hide EncodePoslist, NearColumns, ValidColumns;
    ghost var r1, r2 := Zeros(aPoslist.Length - |EncodePoslist(c1)|), Zeros(pList.Length - |EncodePoslist(c2)|);
    assert aPoslist[0..] == aPoslist[..] && pList[0..] == pList[..];
    var q;
    res, q := PoslistNearMerge(aTmp, nNear + nToken, nNear + nOther, aPoslist, 0, pList, 0, c1, r1, c2, r2);
    if res {
      ghost var e := EncodePoslist(NearColumns(nNear + nToken, nNear + nOther, c1, c2));
      assert pList[..|e|] == e;
      var i := q;
      while i < pList.Length
        invariant q <= i <= pList.Length && pList[..q] == e && forall j :: q <= j < i ==> pList[j] == 0
      {
        pList[i] := 0;
        i := i + 1;
      }
      assert pList[..] == pList[..q] + pList[q..];
      assert pList[q..] == Zeros(pList.Length - q);
    }
  }

  // ---- the test ----

  ghost function Buffers(b: seq<array<Byte>>): set<array<Byte>> {
    set x | x in b
  }

  ghost predicate Distinct(b: seq<array<Byte>>) {
    forall i, j :: 0 <= i < j < |b| ==> b[i] != b[j]
  }

  /** The buffers hold the lists. */
  ghost predicate Held(b: seq<array<Byte>>, cur: seq<seq<Column>>)
    reads b
  {
    |b| == |cur| && forall i :: 0 <= i < |b| ==> Padded(b[i], cur[i])
  }

  /** The lists before `i` are cut down from the left, the others untouched. */
  ghost predicate CutBefore(q: Cluster, cur: seq<seq<Column>>, i: nat)
    requires Sound(q)
  {
    && |cur| == |q.lists| && i <= |cur|
    && (forall j :: 0 <= j < i ==> cur[j] != [] && IsLeft(q, j, cur[j]))
    && (forall j :: i <= j < |cur| ==> cur[j] == q.lists[j])
  }

  /** The lists from `i` on are cut down from both sides, the others from the left. */
  ghost predicate CutFrom(q: Cluster, cur: seq<seq<Column>>, i: nat)
    requires Sound(q)
  {
    && |cur| == |q.lists|
    && (forall j :: 0 <= j < i && j < |cur| ==> cur[j] != [] && IsLeft(q, j, cur[j]))
    && (forall j :: i <= j < |cur| ==> cur[j] != [] && IsThrough(q, j, cur[j]))
  }

  lemma CutStart(q: Cluster)
    requires Sound(q)
    ensures CutBefore(q, q.lists, 1)
  {
  }

  lemma CutOneMore(q: Cluster, cur: seq<seq<Column>>, i: nat)
    requires Sound(q) && CutBefore(q, cur, i) && 0 < i < |cur|
    ensures var k := CutRight(q, i, cur[i - 1]); if k == [] then !NearMatch(q) else CutBefore(q, cur[i := k], i + 1)
  {
    hide IsLeft, ColumnHits, ValidColumns, NearColumns, NearMatch;
    var c := cur[i - 1];
    assert IsLeft(q, i - 1, c);
    CutRightIs(q, i, c);
    LeftNone(q, i, CutRight(q, i, c));
  }

  lemma CutTurn(q: Cluster, cur: seq<seq<Column>>)
    requires Sound(q) && CutBefore(q, cur, |cur|)
    ensures CutFrom(q, cur, |cur| - 1) && NearMatch(q)
  {
    hide IsLeft, IsThrough, ColumnHits, ValidColumns, NearMatch;
    var n := |cur| - 1;
    assert IsLeft(q, n, cur[n]);
    LeftNone(q, n, cur[n]);
  }

  lemma CutOneLess(q: Cluster, cur: seq<seq<Column>>, i: nat)
    requires Sound(q) && CutFrom(q, cur, i + 1) && i + 1 < |cur|
    ensures var k := CutLeft(q, i, cur[i + 1], cur[i]); k != [] && CutFrom(q, cur[i := k], i)
  {
    hide IsLeft, IsThrough, ColumnHits, ValidColumns, NearColumns;
    assert IsLeft(q, i, cur[i]) && IsThrough(q, i + 1, cur[i + 1]);
    CutLeftIs(q, i, cur[i + 1], cur[i]);
    CutLeftSome(q, i, cur[i + 1], cur[i]);
  }

  lemma ListValid(q: Cluster, j: nat, c: seq<Column>)
    requires Sound(q) && j < |q.lists|
    ensures IsLeft(q, j, c) || IsThrough(q, j, c) || c == q.lists[j] ==> ValidColumns(c, -1)
  {
  }

  /** Allocates as much space as the cuts need. */
  method WorkSpace(b: seq<array<Byte>>) returns (aTmp: array<Byte>)
    ensures fresh(aTmp) && forall i :: 0 <= i < |b| ==> aTmp.Length >= 2 * b[i].Length
  {
    var nTmp, i := 0, 0;
    while i < |b|
      invariant 0 <= i <= |b| && nTmp >= 0 && forall j :: 0 <= j < i ==> nTmp >= b[j].Length
    {
      nTmp := nTmp + b[i].Length;
      i := i + 1;
    }
    aTmp := new Byte[nTmp * 2](_ => 0);
  }

  /** Decides whether a row matches a NEAR query: exactly if there is a chain of
      hits. The lists are then left with exactly the hits that lie on one. */
  method EvalNearTest(b: seq<array<Byte>>, tokens: seq<nat>, nears: seq<nat>, ghost q: Cluster)
    returns (res: bool, ghost cur: seq<seq<Column>>)
    requires Sound(q) && tokens == q.tokens && nears == q.nears && Held(b, q.lists) && Distinct(b)
    modifies Buffers(b)
    ensures res <==> NearMatch(q)
    ensures res ==> Held(b, cur) && |cur| == |q.lists| && forall i, h :: 0 <= i < |cur| ==> (h in ColumnHits(cur[i]) <==> OnChain(q, i, h))
  {
    hide IsLeft, IsThrough, ColumnHits, ValidColumns, NearColumns, NearMatch, EncodePoslist, Padded, OnChain;
    var aTmp := WorkSpace(b);
    var n := |b|;
    res, cur := true, q.lists;
    CutStart(q);
    var i := 1;
    while i < n && res
      invariant 1 <= i <= n && (if res then Held(b, cur) && CutBefore(q, cur, i) else !NearMatch(q))
    {
      ghost var c := cur[i - 1];
      CutOneMore(q, cur, i);
      ListValid(q, i - 1, c);
      ListValid(q, i, cur[i]);
      res := EvalNearTrim(nears[i - 1], aTmp, b[i - 1], tokens[i - 1], b[i], tokens[i], c, cur[i]);
      cur := cur[i := CutRight(q, i, c)];
      i := i + 1;
    }
    if res {
      CutTurn(q, cur);
      res, cur := TrimBack(b, tokens, nears, aTmp, q, cur);
    }
  }

  /** The way back, which never empties a list. */
  method TrimBack(b: seq<array<Byte>>, tokens: seq<nat>, nears: seq<nat>, aTmp: array<Byte>, ghost q: Cluster, ghost cut: seq<seq<Column>>)
    returns (res: bool, ghost cur: seq<seq<Column>>)
    requires Sound(q) && tokens == q.tokens && nears == q.nears && Held(b, cut) && Distinct(b) && CutFrom(q, cut, |q.lists| - 1)
    requires aTmp !in b && forall i :: 0 <= i < |b| ==> aTmp.Length >= 2 * b[i].Length
    modifies Buffers(b), aTmp
    ensures res && Held(b, cur)
    ensures |cur| == |q.lists| && forall i, h :: 0 <= i < |cur| ==> (h in ColumnHits(cur[i]) <==> OnChain(q, i, h))
  {
    hide IsLeft, IsThrough, ColumnHits, ValidColumns, NearColumns, NearMatch, EncodePoslist, Padded, OnChain;
    res, cur := true, cut;
    var i := |b| - 1;
    while i > 0 && res
      invariant 0 <= i < |b| && res && Held(b, cur) && CutFrom(q, cur, i)
    {
      i := i - 1;
      ghost var c := cur[i + 1];
      CutOneLess(q, cur, i);
      ListValid(q, i + 1, c);
      ListValid(q, i, cur[i]);
      res := EvalNearTrim(nears[i], aTmp, b[i + 1], tokens[i + 1], b[i], tokens[i], c, cur[i]);
      cur := cur[i := CutLeft(q, i, c, cur[i])];
    }
    OnChains(q, cur);
  }

  lemma OnChains(q: Cluster, cur: seq<seq<Column>>)
    requires Sound(q) && CutFrom(q, cur, 0)
    ensures |cur| == |q.lists| && forall i, h :: 0 <= i < |cur| ==> (h in ColumnHits(cur[i]) <==> OnChain(q, i, h))
  {
    hide ColumnHits, OnChain, Through;
    forall i, h | 0 <= i < |cur| ensures h in ColumnHits(cur[i]) <==> OnChain(q, i, h) {
      assert IsThrough(q, i, cur[i]);
      ThroughIsChain(q, i, h);
    }
  }

  // ---- distances ----

  /** Positions are those of the last tokens of phrases. Two phrases are close if
      they do not end together and no more tokens lie between the end of the one and
      the start of the other than the NEAR allows. */
  lemma BesideMeans(q: Cluster, i: nat, g: Hit, h: Hit)
    requires Sound(q) && i + 1 < |q.lists|
    ensures var endOne, startTwo := g.1, h.1 - q.tokens[i + 1] + 1;
            var endTwo, startOne := h.1, g.1 - q.tokens[i] + 1;
            Beside(q, i, g, h) <==>
              && g.0 == h.0 && endOne != endTwo
              && if endOne < endTwo then startTwo - endOne - 1 <= q.nears[i] else startOne - endTwo - 1 <= q.nears[i]
  {
  }
}

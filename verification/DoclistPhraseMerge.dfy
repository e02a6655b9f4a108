/** Phrase and NEAR merges, byte by byte; the phrase merge writes its result
    over its own right-hand input. */
module DoclistPhraseMerge {
  import opened Varint
  import opened Doclist
  import opened DoclistScan
  import opened DoclistUnion
  import opened DoclistNear
  import Or = DoclistOrMerge

  // ---- buffers written from the front while being read further on ----

  /** `s` is `s0` except that `w` stands at `p`, whatever follows it. */
  ghost predicate Wrote(s0: seq<Byte>, s: seq<Byte>, p: nat, w: seq<Byte>) {
    |s| == |s0| && p + |w| <= |s| && s[..p] == s0[..p] && s[p..p + |w|] == w
  }

  lemma WroteNothing(s: seq<Byte>, p: nat)
    requires p <= |s|
    ensures Wrote(s, s, p, [])
  {
  }

  lemma WroteMore(s0: seq<Byte>, s: seq<Byte>, p: nat, w: seq<Byte>, e: seq<Byte>)
    requires Wrote(s0, s, p, w) && p + |w| + |e| <= |s|
    ensures Wrote(s0, Splice(s, p + |w|, e), p, w + e)
  {
    var t := Splice(s, p + |w|, e);
    assert t[p..p + |w| + |e|] == s[p..p + |w|] + e;
  }

  lemma WroteLess(s0: seq<Byte>, s: seq<Byte>, p: nat, w: seq<Byte>, e: seq<Byte>)
    requires Wrote(s0, s, p, w + e)
    ensures Wrote(s0, s, p, w)
  {
    assert s[p..p + |w|] == s[p..p + |w + e|][..|w|];
  }

  /** Writing before `q` leaves what stands from `q` on alone. */
  lemma TailKept(s: seq<Byte>, p: nat, e: seq<Byte>, q: nat, t: seq<Byte>)
    requires Tail(s, q, t) && p + |e| <= q
    ensures p + |e| <= |s| && Tail(Splice(s, p, e), q, t)
  {
    assert Splice(s, p, e)[q..] == s[q..];
  }

  // ---- positions of one column ----

  /** A reader that has just read the position `i`. */
  ghost predicate OnPos(a: seq<Byte>, p: nat, i: int, ps: seq<nat>, rest: seq<Byte>) {
    && ps != [] && i == ps[0] && Sorted(ps[1..], ps[0]) && i + 2 < POSITION_LIST_END
    && rest != [] && rest[0] <= 1
    && Tail(a, p, EncodePositions(ps[1..], ps[0]) + rest)
  }

  method FirstPos(a: seq<Byte>, p: nat, ghost ps: seq<nat>, ghost rest: seq<Byte>) returns (i: int, q: nat)
    requires ps != [] && Sorted(ps, -1) && rest != [] && rest[0] <= 1
    requires Tail(a, p, EncodePositions(ps, -1) + rest)
    ensures OnPos(a, q, i, ps, rest) && q == p + |Encode(ps[0] + 2)|
  {
    hide Encode, Tail;
    Associative(Encode(ps[0] + 2), EncodePositions(ps[1..], ps[0]), rest);
    i, q := ReadVarint(a, p, ps[0] + 2, EncodePositions(ps[1..], ps[0]) + rest);
    i := i - 2;
  }

  method NextPos(a: seq<Byte>, p: nat, i: int, ghost ps: seq<nat>, ghost rest: seq<Byte>)
    returns (more: bool, q: nat, j: int)
    requires OnPos(a, p, i, ps, rest)
    ensures more <==> |ps| > 1
    ensures more ==> OnPos(a, q, j, ps[1..], rest) && q == p + |Encode(ps[1] - ps[0] + 2)|
    ensures !more ==> q == p && Tail(a, q, rest)
  {
    hide Encode, Tail;
    if ps[1..] == [] {
      assert EncodePositions(ps[1..], ps[0]) + rest == rest;
    } else {
      PositionsFirstByte(ps[1..], ps[0], rest);
    }
    TailByte(a, p, EncodePositions(ps[1..], ps[0]) + rest);
    if a[p] <= 1 {
      more, q, j := false, p, i;
    } else {
      ghost var u, t := Distance(ps[0], ps[1]) + 2, EncodePositions(ps[2..], ps[1]);
      assert ps[1..][1..] == ps[2..];
      Associative(Encode(u), t, rest);
      var v;
      v, q := ReadVarint(a, p, u, t + rest);
      more, j := true, i + v - 2;
    }
  }

  /** Room in place: a position written as a distance from the last one kept is
      no longer than the distances read since. */
  lemma RoomForNext(lo: int, p: nat, p': nat)
    requires lo < p < p'
    ensures |Encode(p' - Base(lo) + 2)| <= |Encode(p - Base(lo) + 2)| + |Encode(p' - p + 2)|
  {
    LengthSubadditive(p - Base(lo) + 2, p' - p + 2);
    LengthMonotone(p' - Base(lo) + 2, (p - Base(lo) + 2) + (p' - p + 2));
  }

  /** Emitting the head of what remains to be kept. */
  lemma EmitHead(w: seq<Byte>, x: nat, ks: seq<nat>, lo: int)
    requires lo < x
    ensures w + EncodePositions([x] + ks, lo)
         == (w + Encode(x - Base(lo) + 2)) + EncodePositions(ks, x)
  {
    hide Encode;
    assert ([x] + ks)[1..] == ks;
    Associative(w, Encode(x - Base(lo) + 2), EncodePositions(ks, x));
  }

  lemma OnPosFacts(a: seq<Byte>, p: nat, i: int, ps: seq<nat>, rest: seq<Byte>)
    requires OnPos(a, p, i, ps, rest)
    ensures ps != [] && i == ps[0] && i + 2 < POSITION_LIST_END && p <= |a|
    ensures |ps| > 1 ==> ps[0] < ps[1]
    ensures Sorted(ps[1..], ps[0])
  {
  }

  lemma NoPositions(w: seq<Byte>, lo: int)
    ensures w + EncodePositions([], lo) == w
  {
  }

  /** Writes a kept position; reading goes on behind what is written. */
  method EmitPos(o: array<Byte>, q: nat, iPrev: int, iSave: int, b: array<Byte>, ghost q2: nat, ghost i2: int,
                 ghost s2: seq<nat>, ghost r2: seq<Byte>) returns (q': nat)
    requires 0 <= iPrev <= iSave && iSave + 2 < POSITION_LIST_END
    requires OnPos(b[..], q2, i2, s2, r2)
    requires q + |Encode(iSave - iPrev + 2)| <= if o == b then q2 else o.Length
    modifies o
    ensures q' == q + |Encode(iSave - iPrev + 2)| <= o.Length
    ensures o[..] == Splice(old(o[..]), q, Encode(iSave - iPrev + 2))
    ensures OnPos(b[..], q2, i2, s2, r2)
  {
    hide Encode, Splice, Sorted, EncodePositions, Tail;
    if o == b {
      TailKept(b[..], q, Encode(iSave - iPrev + 2), q2, EncodePositions(s2[1..], s2[0]) + r2);
    }
    var k := PutVarint(o, q, iSave + 2 - iPrev);
    q' := q + k;
  }

  /** As above, after `w` has been written since `p` and with `ks` still to come. */
  method KeepPosition(o: array<Byte>, ghost p: nat, q: nat, iPrev: int, iSave: int, b: array<Byte>, ghost before: seq<Byte>,
                      ghost w: seq<Byte>, ghost ks: seq<nat>, ghost lo: int, ghost q2: nat, ghost i2: int, ghost s2: seq<nat>, ghost r2: seq<Byte>)
    returns (q': nat)
    requires lo >= -1 && iPrev == Base(lo) && lo < iSave && iSave + 2 < POSITION_LIST_END
    requires q == p + |w| <= o.Length == |before| && o[..] == Splice(before, p, w) && OnPos(b[..], q2, i2, s2, r2)
    requires if o == b then q + |Encode(iSave - iPrev + 2)| <= q2 else p + |w + EncodePositions([iSave] + ks, lo)| <= o.Length
    modifies o
    ensures var e := Encode(iSave - iPrev + 2);
            && q' == p + |w + e| <= o.Length && o[..] == Splice(before, p, w + e) && OnPos(b[..], q2, i2, s2, r2)
            && w + EncodePositions([iSave] + ks, lo) == (w + e) + EncodePositions(ks, iSave)
  {
    hide Encode, Splice, Sorted, EncodePositions, Tail, OnPos;
    EmitHead(w, iSave, ks, lo);
    OnPosFacts(b[..], q2, i2, s2, r2);
    SpliceSplice(before, p, w, Encode(iSave - iPrev + 2));
    q' := EmitPos(o, q, iPrev, iSave, b, q2, i2, s2, r2);
  }

  /** Scans one column of both lists and writes the positions kept. */
  method PhraseColumn(o: array<Byte>, p: nat, n: nat, m: Mode, a: seq<Byte>, p1: nat, b: array<Byte>, p2: nat,
                      ghost l1: seq<nat>, ghost r1: seq<Byte>, ghost l2: seq<nat>, ghost r2: seq<Byte>)
    returns (q: nat, q1: nat, q2: nat)
    requires n > 0
    requires l1 != [] && Sorted(l1, -1) && r1 != [] && r1[0] <= 1
    requires l2 != [] && Sorted(l2, -1) && r2 != [] && r2[0] <= 1
    requires Tail(a, p1, EncodePositions(l1, -1) + r1)
    requires Tail(b[..], p2, EncodePositions(l2, -1) + r2)
    requires if o == b then m != SaveLeft && p <= p2
             else p + |EncodePositions(Merged(m, n, l1, l2), -1)| <= o.Length
    modifies o
    ensures Tail(a, q1, r1) && Tail(b[..], q2, r2)
    ensures q == p + |EncodePositions(Merged(m, n, l1, l2), -1)| <= o.Length
    ensures o[..] == Splice(old(o[..]), p, EncodePositions(Merged(m, n, l1, l2), -1))
    ensures o == b ==> q <= q2
  {
    hide Encode, Splice, Merged, Sorted, EncodePositions, Tail, OnPos, Kept, Near;
    var i1, i2;
    i1, q1 := FirstPos(a, p1, l1, r1);
    i2, q2 := FirstPos(b[..], p2, l2, r2);
    ghost var s1, s2;
    q, q1, i1, s1, q2, i2, s2 := ScanPositions(o, p, n, m, a, q1, i1, b, q2, i2, l1, r1, l2, r2);
    q1 := SkipColumn(a, q1, i1, s1, r1);
    q2 := SkipColumn(b[..], q2, i2, s2, r2);
  }

  /** The two-pointer scan, from the first position of either column until one of
      them has no more. */
  method ScanPositions(o: array<Byte>, p: nat, n: nat, m: Mode, a: seq<Byte>, p1: nat, x1: int, b: array<Byte>, p2: nat, x2: int,
                       ghost l1: seq<nat>, ghost r1: seq<Byte>, ghost l2: seq<nat>, ghost r2: seq<Byte>)
    returns (q: nat, q1: nat, i1: int, ghost s1: seq<nat>, q2: nat, i2: int, ghost s2: seq<nat>)
    requires n > 0 && l1 != [] && l2 != [] && OnPos(a, p1, x1, l1, r1) && OnPos(b[..], p2, x2, l2, r2)
    requires if o == b then m != SaveLeft && p + |Encode(l2[0] + 2)| <= p2
             else p + |EncodePositions(Merged(m, n, l1, l2), -1)| <= o.Length
    modifies o
    ensures OnPos(a, q1, i1, s1, r1) && OnPos(b[..], q2, i2, s2, r2)
    ensures q == p + |EncodePositions(Merged(m, n, l1, l2), -1)| <= o.Length
    ensures o[..] == Splice(old(o[..]), p, EncodePositions(Merged(m, n, l1, l2), -1))
    ensures o == b ==> q <= q2
  {
    hide Encode, Splice, Merged, Sorted, EncodePositions, Tail, OnPos, Kept, Near;
    ghost var before, target := o[..], EncodePositions(Merged(m, n, l1, l2), -1);
    ghost var w: seq<Byte> := [];
    ghost var lo: int := -1;
    s1, s2, q1, i1, q2, i2 := l1, l2, p1, x1, p2, x2;
    OnPosFacts(a, q1, i1, s1, r1);
    OnPosFacts(b[..], q2, i2, s2, r2);
    var iPrev: int := 0;
    q := p;
    SpliceEmpty(before, p);
    assert w + target == target;
    while true
      invariant q == p + |w| <= o.Length && |w| <= |target|
      invariant o != b ==> p + |target| <= o.Length
      invariant o[..] == Splice(before, p, w)
      invariant OnPos(a, q1, i1, s1, r1)
      invariant OnPos(b[..], q2, i2, s2, r2)
      invariant s1 != [] && s2 != []
      invariant lo >= -1 && iPrev == Base(lo) && lo < Saved(m, s1, s2)[0]
      invariant o == b ==> q + |Encode(s2[0] - Base(lo) + 2)| <= q2
      invariant w + EncodePositions(Merged(m, n, s1, s2), lo) == target
      decreases |s1| + |s2|
    {
      OnPosFacts(a, q1, i1, s1, r1);
      OnPosFacts(b[..], q2, i2, s2, r2);
      Resort(s1);
      Resort(s2);
      ScanStep(m, n, s1, s2, -1, -1);
      ghost var t1, t2 := LeftRest(m, n, s1, s2), RightRest(m, n, s1, s2);
      if i2 == i1 + n || (m != Exact && i2 > i1 && i2 <= i1 + n) {
        var iSave := if m == SaveLeft then i1 else i2;
        q := KeepPosition(o, p, q, iPrev, iSave, b, before, w, Merged(m, n, t1, t2), lo, q2, i2, s2, r2);
        w, lo, iPrev := w + Encode(iSave - Base(lo) + 2), iSave, iSave;
      } else {
        assert [] + Merged(m, n, t1, t2) == Merged(m, n, t1, t2);
        if o == b && |s2| > 1 { RoomForNext(lo, s2[0], s2[1]); }
      }
      if (m != SaveLeft && i2 <= i1 + n) || i2 <= i1 {
        var more, q2', i2' := NextPos(b[..], q2, i2, s2, r2);
        if !more { NoPositions(w, lo); break; }
        q2, i2, s2 := q2', i2', s2[1..];
      } else {
        var more, q1', i1' := NextPos(a, q1, i1, s1, r1);
        if !more { NoPositions(w, lo); break; }
        q1, i1, s1 := q1', i1', s1[1..];
      }
    }
  }

  lemma Resort(ps: seq<nat>)
    requires ps != [] && ps[0] + 2 < POSITION_LIST_END && Sorted(ps[1..], ps[0])
    ensures Sorted(ps, -1)
  {
  }

  method SkipColumn(a: seq<Byte>, p: nat, i: int, ghost ps: seq<nat>, ghost rest: seq<Byte>) returns (q: nat)
    requires OnPos(a, p, i, ps, rest)
    ensures Tail(a, q, rest) && p <= q
  {
    hide Encode, EncodePositions, Tail;
    q := ColumnlistEnd(a, p, ps[1..], ps[0], rest);
  }

  // ---- position-lists ----

  /** A reader that has just read the header of column `iCol`. */
  ghost predicate OnColumn(a: seq<Byte>, p: nat, iCol: nat, cs: seq<Column>, rest: seq<Byte>) {
    && cs != [] && iCol == cs[0].index && ValidColumns(cs, -1)
    && Tail(a, p, EncodePositions(cs[0].positions, -1) + (EncodePoslist(cs[1..]) + rest))
  }

  /** Bytes of a position-list that follow the header of its first column. */
  ghost function AfterHeader(cs: seq<Column>): nat
    requires cs != []
  {
    |EncodePositions(cs[0].positions, -1)| + |EncodePoslist(cs[1..])|
  }

  lemma PoslistLength(cs: seq<Column>)
    requires cs != []
    ensures |EncodePoslist(cs)| == |ColumnHeader(cs[0].index)| + AfterHeader(cs)
  {
    hide ColumnHeader, EncodePositions;
    PoslistCons(cs, []);
    assert EncodePoslist(cs) + [] == EncodePoslist(cs) && EncodePoslist(cs[1..]) + [] == EncodePoslist(cs[1..]);
  }

  /** Reads the header, if any, of the first column of a position-list. */
  method FirstColumn(a: seq<Byte>, p: nat, ghost cs: seq<Column>, ghost rest: seq<Byte>) returns (iCol: nat, q: nat)
    requires cs != [] && ValidColumns(cs, -1) && Tail(a, p, EncodePoslist(cs) + rest)
    ensures OnColumn(a, q, iCol, cs, rest)
  {
    hide Encode, EncodePositions, EncodeColumns, EncodePoslist, Sorted, Tail;
    ghost var tail := EncodePositions(cs[0].positions, -1) + (EncodePoslist(cs[1..]) + rest);
    PoslistFirstByte(cs, rest);
    PoslistCons(cs, rest);
    TailByte(a, p, EncodePoslist(cs) + rest);
    if a[p] == POS_COLUMN {
      Associative([POS_COLUMN], Encode(cs[0].index), tail);
      TailDrop(a, p, [POS_COLUMN], Encode(cs[0].index) + tail);
      iCol, q := ReadVarint(a, p + 1, cs[0].index, tail);
    } else {
      assert ColumnHeader(0) + tail == tail;
      iCol, q := 0, p;
    }
  }

  /** From the terminator of a column-list to the header of the next, if any. */
  method NextColumn(a: seq<Byte>, p: nat, ghost cs: seq<Column>, ghost rest: seq<Byte>)
    returns (more: bool, iCol: nat, q: nat)
    requires cs != [] && ValidColumns(cs, -1) && Tail(a, p, EncodePoslist(cs[1..]) + rest)
    ensures more <==> |cs| > 1
    ensures more ==> OnColumn(a, q, iCol, cs[1..], rest)
    ensures !more ==> q == p
  {
    hide Encode, EncodePositions, EncodeColumns, EncodePoslist, Sorted, Tail;
    PoslistFirstByte(cs[1..], rest);
    TailByte(a, p, EncodePoslist(cs[1..]) + rest);
    if a[p] == POS_END {
      more, iCol, q := false, 0, p;
    } else {
      ColumnsWeaken(cs[1..], cs[0].index, -1);
      more := true;
      iCol, q := FirstColumn(a, p, cs[1..], rest);
    }
  }

  lemma OnColumnFacts(a: seq<Byte>, p: nat, iCol: nat, cs: seq<Column>, rest: seq<Byte>)
    requires OnColumn(a, p, iCol, cs, rest)
    ensures cs != [] && iCol == cs[0].index && ValidColumns(cs, -1) && ValidColumn(cs[0])
    ensures p + AfterHeader(cs) + |rest| == |a|
  {
  }

  /** Passes over the positions of a column that the other list lacks. */
  method SkipWholeColumn(a: seq<Byte>, p: nat, iCol: nat, ghost cs: seq<Column>, ghost rest: seq<Byte>) returns (q: nat)
    requires OnColumn(a, p, iCol, cs, rest)
    ensures Tail(a, q, EncodePoslist(cs[1..]) + rest)
  {
    hide Encode, EncodePositions, EncodeColumns, EncodePoslist, Sorted, Tail;
    assert ValidColumns(cs[1..], cs[0].index);
    PoslistFirstByte(cs[1..], rest);
    q := ColumnlistEnd(a, p, cs[0].positions, -1, EncodePoslist(cs[1..]) + rest);
  }

  /** One column present on both sides: header and kept positions, or nothing
      (the write cursor goes back) when no position is kept. */
  method PhraseSameColumn(o: array<Byte>, q: nat, n: nat, m: Mode, a: seq<Byte>, p1: nat, b: array<Byte>, p2: nat, iCol: nat,
                          ghost s0: seq<Byte>, ghost p: nat, ghost w: seq<Byte>,
                          ghost c1: seq<Column>, ghost r1: seq<Byte>, ghost c2: seq<Column>, ghost r2: seq<Byte>)
    returns (q': nat, q1: nat, q2: nat)
    requires n > 0 && q == p + |w| && Wrote(s0, o[..], p, w)
    requires OnColumn(a, p1, iCol, c1, r1) && OnColumn(b[..], p2, iCol, c2, r2)
    requires q + |EncodeColumn(SavedColumns(m, c1, c2)[0])| <= o.Length
    requires o == b ==> m != SaveLeft && q + |ColumnHeader(iCol)| <= p2
    modifies o
    ensures var ps := Merged(m, n, c1[0].positions, c2[0].positions);
            var e := if ps == [] then [] else EncodeColumn(Column(iCol, ps));
            && q' == p + |w + e| && Wrote(s0, o[..], p, w + e)
            && |e| <= |EncodeColumn(SavedColumns(m, c1, c2)[0])|
    ensures Tail(a, q1, EncodePoslist(c1[1..]) + r1) && Tail(b[..], q2, EncodePoslist(c2[1..]) + r2)
  {
    hide Encode, EncodePositions, EncodeColumns, EncodePoslist, ColumnHeader, Sorted, Tail, Splice, Wrote, Merged, OnColumn;
    OnColumnFacts(a, p1, iCol, c1, r1);
    OnColumnFacts(b[..], p2, iCol, c2, r2);
    PoslistFirstByte(c1[1..], r1);
    PoslistFirstByte(c2[1..], r2);
    ghost var ps := Merged(m, n, c1[0].positions, c2[0].positions);
    ghost var h, e := ColumnHeader(iCol), EncodePositions(ps, -1);
    MergedSize(m, n, c1[0].positions, c2[0].positions);
    Unfold(a, p1, iCol, c1, r1);
    Unfold(b[..], p2, iCol, c2, r2);
    if o == b {
      TailKept(b[..], q, h, p2, EncodePositions(c2[0].positions, -1) + (EncodePoslist(c2[1..]) + r2));
    }
    WroteMore(s0, o[..], p, w, h);
    var k := Or.PutColNumber(o, q, iCol);
    ghost var mid := o[..];
    q', q1, q2 := PhraseColumn(o, q + k, n, m, a, p1, b, p2,
                               c1[0].positions, EncodePoslist(c1[1..]) + r1,
                               c2[0].positions, EncodePoslist(c2[1..]) + r2);
    WroteMore(s0, mid, p, w + h, e);
    Associative(w, h, e);
    if q' == q + k {
      NothingKept(m, n, c1[0].positions, c2[0].positions);
      WroteLess(s0, o[..], p, w, h + e);
      q' := q;
      assert w + [] == w;
    } else {
      SomethingKept(m, n, c1[0].positions, c2[0].positions);
    }
  }

  lemma Unfold(a: seq<Byte>, p: nat, iCol: nat, cs: seq<Column>, rest: seq<Byte>)
    requires OnColumn(a, p, iCol, cs, rest)
    ensures Tail(a, p, EncodePositions(cs[0].positions, -1) + (EncodePoslist(cs[1..]) + rest))
  {
  }

  lemma NothingKept(m: Mode, n: nat, s1: seq<nat>, s2: seq<nat>)
    requires |EncodePositions(Merged(m, n, s1, s2), -1)| == 0
    ensures Merged(m, n, s1, s2) == []
  {
    if Merged(m, n, s1, s2) != [] { PositionsFirstByte(Merged(m, n, s1, s2), -1, []); }
  }

  lemma SomethingKept(m: Mode, n: nat, s1: seq<nat>, s2: seq<nat>)
    requires |EncodePositions(Merged(m, n, s1, s2), -1)| > 0
    ensures Merged(m, n, s1, s2) != []
  {
  }

  lemma {:induction false} EncodeColumnsAppend(a: seq<Column>, b: seq<Column>)
    ensures EncodeColumns(a + b) == EncodeColumns(a) + EncodeColumns(b)
  {
    hide EncodeColumn;
    if a == [] {
      assert a + b == b;
    } else {
      assert (a + b)[1..] == a[1..] + b;
      EncodeColumnsAppend(a[1..], b);
      Associative(EncodeColumn(a[0]), EncodeColumns(a[1..]), EncodeColumns(b));
    }
  }

  lemma OneColumn(c: Column)
    ensures EncodeColumns([c]) == EncodeColumn(c) && EncodeColumns([]) == []
  {
    hide EncodeColumn;
    assert [c][1..] == [];
    assert EncodeColumn(c) + [] == EncodeColumn(c);
  }

  /** A column-list whose header has been read is like one of column 0. */
  ghost function Headless(cs: seq<Column>): seq<Column>
    requires cs != []
  {
    [Column(0, cs[0].positions)] + cs[1..]
  }

  lemma HeadlessTail(a: seq<Byte>, p: nat, iCol: nat, cs: seq<Column>, rest: seq<Byte>)
    requires OnColumn(a, p, iCol, cs, rest)
    ensures Tail(a, p, EncodePoslist(Headless(cs)) + rest)
  {
    hide Encode, EncodePositions, EncodeColumns, EncodePoslist, Sorted, Tail;
    PoslistCons(Headless(cs), rest);
    assert Headless(cs)[1..] == cs[1..];
    var t := EncodePositions(cs[0].positions, -1) + (EncodePoslist(cs[1..]) + rest);
    assert ColumnHeader(0) + t == t;
  }

  /** One turn of the column scan: both sides move past a common column, or the
      side with the smaller column moves past it. When a side has no further
      column both cursors are left for PoslistEnd to finish. */
  method PhraseStep(o: array<Byte>, q: nat, n: nat, m: Mode, a: seq<Byte>, i1: nat, p1: nat, b: array<Byte>, i2: nat, p2: nat,
                    ghost s0: seq<Byte>, ghost p: nat, ghost out: seq<Column>,
                    ghost s1: seq<Column>, ghost r1: seq<Byte>, ghost s2: seq<Column>, ghost r2: seq<Byte>)
    returns (more: bool, q': nat, j1: nat, q1: nat, j2: nat, q2: nat,
             ghost add: seq<Column>, ghost t1: seq<Column>, ghost t2: seq<Column>)
    requires n > 0 && q == p + |EncodeColumns(out)| && Wrote(s0, o[..], p, EncodeColumns(out))
    requires OnColumn(a, p1, i1, s1, r1) && OnColumn(b[..], p2, i2, s2, r2)
    requires q + |EncodePoslist(SavedColumns(m, s1, s2))| <= o.Length
    requires o == b ==> m != SaveLeft && q + |ColumnHeader(i2)| <= p2
    modifies o
    ensures q' == p + |EncodeColumns(out + add)| && Wrote(s0, o[..], p, EncodeColumns(out + add))
    ensures MergedColumns(m, n, s1, s2) == add + if more then MergedColumns(m, n, t1, t2) else []
    ensures more ==> && OnColumn(a, q1, j1, t1, r1) && OnColumn(b[..], q2, j2, t2, r2)
                     && |t1| + |t2| < |s1| + |s2|
                     && q' + |EncodePoslist(SavedColumns(m, t1, t2))| <= q + |EncodePoslist(SavedColumns(m, s1, s2))|
    ensures !more ==> && Tail(a, q1, EncodePoslist(t1) + r1) && Tail(b[..], q2, EncodePoslist(t2) + r2)
                      && q' + 1 <= q + |EncodePoslist(SavedColumns(m, s1, s2))|
  {
    hide Encode, EncodePositions, EncodeColumns, EncodeColumn, EncodePoslist, ColumnHeader, Sorted, Tail, Wrote, Merged,
         OnColumn, ValidColumns, MergedColumns;
    OnColumnFacts(a, p1, i1, s1, r1);
    OnColumnFacts(b[..], p2, i2, s2, r2);
    EncodePoslistCons(s1);
    EncodePoslistCons(s2);
    AtLeastOne(s1[1..]);
    AtLeastOne(s2[1..]);
    ColumnScanStep(m, n, s1, s2, -1);
    j1, j2 := i1, i2;
    if i1 == i2 {
      ghost var ps := Merged(m, n, s1[0].positions, s2[0].positions);
      add := if ps == [] then [] else [Column(i1, ps)];
      q', q1, q2 := PhraseSameColumn(o, q, n, m, a, p1, b, p2, i1, s0, p, EncodeColumns(out), s1, r1, s2, r2);
      EncodeColumnsAppend(out, add);
      OneColumn(Column(i1, ps));
      AtTerminator(a, q1, s1, r1);
      AtTerminator(b[..], q2, s2, r2);
      t1, t2 := s1[1..], s2[1..];
      more := a[q1] != 0 && b[q2] != 0;
      if more {
        var k1, k2;
        k1, j1, q1 := NextColumn(a, q1, s1, r1);
        k2, j2, q2 := NextColumn(b[..], q2, s2, r2);
      } else {
        ColumnScanEnd(m, n, t1, t2);
      }
    } else {
      q', add := q, [];
      assert out + add == out;
      assert add + MergedColumns(m, n, s1, s2) == MergedColumns(m, n, s1, s2);
      if i1 < i2 {
        q1 := SkipWholeColumn(a, p1, i1, s1, r1);
        t1, t2, q2 := s1[1..], s2, p2;
        more, j1, q1 := NextColumn(a, q1, s1, r1);
        if !more { t2 := Headless(s2); HeadlessTail(b[..], p2, i2, s2, r2); ColumnScanEnd(m, n, t1, s2); }
      } else {
        q2 := SkipWholeColumn(b[..], p2, i2, s2, r2);
        t1, t2, q1 := s1, s2[1..], p1;
        more, j2, q2 := NextColumn(b[..], q2, s2, r2);
        if !more { t1 := Headless(s1); HeadlessTail(a, p1, i1, s1, r1); ColumnScanEnd(m, n, s1, t2); }
      }
    }
  }

  lemma AtLeastOne(cs: seq<Column>)
    ensures |EncodePoslist(cs)| >= 1
  {
  }

  lemma AtTerminator(a: seq<Byte>, p: nat, cs: seq<Column>, rest: seq<Byte>)
    requires cs != [] && ValidColumns(cs, -1) && Tail(a, p, EncodePoslist(cs[1..]) + rest)
    ensures p < |a| && (a[p] == 0 <==> |cs| == 1)
  {
    PoslistFirstByte(cs[1..], rest);
    TailByte(a, p, EncodePoslist(cs[1..]) + rest);
  }

  /** Merges two position-lists, keeping the positions that the mode asks for.
      The output may overwrite the right-hand list from its front. */
  method PoslistPhraseMerge(o: array<Byte>, p: nat, n: nat, m: Mode, a: seq<Byte>, p1: nat, b: array<Byte>, p2: nat,
                            ghost c1: seq<Column>, ghost r1: seq<Byte>, ghost c2: seq<Column>, ghost r2: seq<Byte>)
    returns (hit: bool, q: nat, q1: nat, q2: nat)
    requires n > 0 && c1 != [] && c2 != [] && ValidColumns(c1, -1) && ValidColumns(c2, -1)
    requires Tail(a, p1, EncodePoslist(c1) + r1) && Tail(b[..], p2, EncodePoslist(c2) + r2)
    requires p + |EncodePoslist(SavedColumns(m, c1, c2))| <= o.Length
    requires o == b ==> m != SaveLeft && p <= p2
    modifies o
    ensures hit <==> MergedColumns(m, n, c1, c2) != []
    ensures var e := if hit then EncodePoslist(MergedColumns(m, n, c1, c2)) else [];
            && q == p + |e| && Wrote(old(o[..]), o[..], p, e)
            && |e| <= |EncodePoslist(SavedColumns(m, c1, c2))|
    ensures Tail(a, q1, r1) && Tail(b[..], q2, r2)
  {
    hide Encode, EncodePositions, EncodeColumns, EncodeColumn, EncodePoslist, ColumnHeader, Sorted, Tail, Wrote, Merged,
         OnColumn, ValidColumns, MergedColumns, AfterHeader;
    ghost var s0, limit := o[..], p + |EncodePoslist(SavedColumns(m, c1, c2))|;
    ghost var s1: seq<Column>, s2: seq<Column>, out: seq<Column> := c1, c2, [];
    var i1, i2;
    i1, q1 := FirstColumn(a, p1, c1, r1);
    i2, q2 := FirstColumn(b[..], p2, c2, r2);
    TailLength(b[..], p2, EncodePoslist(c2) + r2);
    q := p;
    WroteNothing(s0, p);
    OneColumn(Column(0, []));
    assert [] + MergedColumns(m, n, c1, c2) == MergedColumns(m, n, c1, c2);
    var more := true;
    while more
      invariant q == p + |EncodeColumns(out)| && Wrote(s0, o[..], p, EncodeColumns(out))
      invariant more ==> && OnColumn(a, q1, i1, s1, r1) && OnColumn(b[..], q2, i2, s2, r2)
                         && q + |EncodePoslist(SavedColumns(m, s1, s2))| <= limit
                         && out + MergedColumns(m, n, s1, s2) == MergedColumns(m, n, c1, c2)
      invariant !more ==> && Tail(a, q1, EncodePoslist(s1) + r1) && Tail(b[..], q2, EncodePoslist(s2) + r2)
                          && q + 1 <= limit
                          && out == MergedColumns(m, n, c1, c2)
      decreases more, |s1| + |s2|
    {
      OnColumnFacts(a, q1, i1, s1, r1);
      OnColumnFacts(b[..], q2, i2, s2, r2);
      PoslistLength(s2);
      ghost var add, t1, t2;
      more, q, i1, q1, i2, q2, add, t1, t2 := PhraseStep(o, q, n, m, a, i1, q1, b, i2, q2, s0, p, out, s1, r1, s2, r2);
      if more { Associative(out, add, MergedColumns(m, n, t1, t2)); } else { assert add + [] == add; }
      out, s1, s2 := out + add, t1, t2;
    }
    q2 := PoslistEnd(b[..], q2, s2, r2);
    q1 := PoslistEnd(a, q1, s1, r1);
    MergedColumnsEmpty(m, n, c1, c2);
    hit := q != p;
    if hit {
      WroteMore(s0, o[..], p, EncodeColumns(out), [POS_END]);
      TailLength(b[..], q2, r2);
      if o == b { TailKept(b[..], q, [POS_END], q2, r2); }
      PutByte(o, q, POS_END);
      q := q + 1;
      Terminated(out);
    }
  }

  lemma MergedColumnsEmpty(m: Mode, n: nat, c1: seq<Column>, c2: seq<Column>)
    requires ValidColumns(c1, -1) && ValidColumns(c2, -1)
    ensures |EncodeColumns(MergedColumns(m, n, c1, c2))| == 0 <==> MergedColumns(m, n, c1, c2) == []
    ensures MergedColumns(m, n, c1, c2) == [] ==> EncodeColumns(MergedColumns(m, n, c1, c2)) == []
  {
    KeptColumnsMembers(m, n, c1, c2, -1);
    KeptColumnsMembers(m, n, c2, c1, -1);
    var cs := MergedColumns(m, n, c1, c2);
    if cs != [] { PositionsFirstByte(cs[0].positions, -1, []); }
  }

  lemma Terminated(cs: seq<Column>)
    ensures EncodePoslist(cs) == EncodeColumns(cs) + [POS_END]
  {
  }

  // ---- NEAR ----

  /** Some left position is within reach: at most `nRight` before `p`, or at
      most `nLeft` after it. */
  ghost predicate Close(nRight: nat, nLeft: nat, p: nat, left: seq<nat>) {
    exists q :: q in left && (q < p <= q + nRight || p < q <= p + nLeft)
  }

  /** The position-list that the NEAR operator leaves of its right operand. */
  ghost function NearColumns(nRight: nat, nLeft: nat, c1: seq<Column>, c2: seq<Column>): seq<Column> {
    MergeColumns(KeptColumns(SaveRight, nRight, c2, c1), KeptColumns(SaveLeft, nLeft, c2, c1))
  }

  /** Exactly the right-hand hits with a left position of the same column close
      by on either side. */
  lemma NearColumnsMembers(nRight: nat, nLeft: nat, c1: seq<Column>, c2: seq<Column>)
    requires ValidColumns(c1, -1) && ValidColumns(c2, -1)
    ensures ValidColumns(NearColumns(nRight, nLeft, c1, c2), -1)
    ensures forall h :: h in ColumnHits(NearColumns(nRight, nLeft, c1, c2))
                   <==> h in ColumnHits(c2) && Close(nRight, nLeft, h.1, PositionsOf(c1, h.0))
    ensures |EncodePoslist(NearColumns(nRight, nLeft, c1, c2))| <= |EncodePoslist(c2)|
  {
    hide EncodeColumns, ValidColumns, ColumnHits;
    KeptColumnsMembers(SaveRight, nRight, c2, c1, -1);
    KeptColumnsMembers(SaveLeft, nLeft, c2, c1, -1);
    MergeColumnsIsUnion(KeptColumns(SaveRight, nRight, c2, c1), KeptColumns(SaveLeft, nLeft, c2, c1), -1);
    SubColumnsSize(NearColumns(nRight, nLeft, c1, c2), c2, -1);
  }

  /** Cuts the right-hand list at `b[p2..]` down, in place, to the positions
      near some position of the left-hand list. */
  method PoslistNearMerge(aTmp: array<Byte>, nRight: nat, nLeft: nat, a: array<Byte>, p1: nat, b: array<Byte>, p2: nat,
                          ghost c1: seq<Column>, ghost r1: seq<Byte>, ghost c2: seq<Column>, ghost r2: seq<Byte>)
    returns (res: bool, q: nat)
    requires nRight > 0 && nLeft > 0
    requires aTmp != a && aTmp != b && aTmp.Length >= 2 * |EncodePoslist(c2)|
    requires c1 != [] && c2 != [] && ValidColumns(c1, -1) && ValidColumns(c2, -1)
    requires Tail(a[..], p1, EncodePoslist(c1) + r1) && Tail(b[..], p2, EncodePoslist(c2) + r2)
    modifies aTmp, b
    ensures var k := NearColumns(nRight, nLeft, c1, c2);
            && (res <==> k != [])
            && (res ==> && q == p2 + |EncodePoslist(k)| <= b.Length
                        && b[..] == Splice(old(b[..]), p2, EncodePoslist(k)))
            && (!res ==> q == p2 && b[..] == old(b[..]))
  {
    hide Encode, EncodePositions, EncodeColumns, EncodeColumn, EncodePoslist, Sorted, Tail, Wrote, ValidColumns,
         MergeColumns, KeptColumns, Splice;
    ghost var k1, k2 := KeptColumns(SaveRight, nRight, c2, c1), KeptColumns(SaveLeft, nLeft, c2, c1);
    KeptColumnsMembers(SaveRight, nRight, c2, c1, -1);
    KeptColumnsMembers(SaveLeft, nLeft, c2, c1, -1);
    NearColumnsMembers(nRight, nLeft, c1, c2);
    TailLength(b[..], p2, EncodePoslist(c2) + r2);
    ghost var t0 := aTmp[..];
    var hit1, t1, x1, x2 := PoslistPhraseMerge(aTmp, 0, nRight, SaveRight, a[..], p1, b, p2, c1, r1, c2, r2);
    ghost var mid := aTmp[..];
    ghost var e1 := if hit1 then EncodePoslist(k1) else [];
    var hit2, t2, y1, y2 := PoslistPhraseMerge(aTmp, t1, nLeft, SaveLeft, b[..], p2, a, p1, c2, r2, c1, r1);
    ghost var e2 := if hit2 then EncodePoslist(k2) else [];
    ghost var junk := TwoWritten(t0, mid, aTmp[..], e1, e2);
    EmptyMerges(k1, k2);
    q := p2;
    res := true;
    if t1 != 0 && t2 != t1 {
      var z1, z2;
      q, z1, z2 := Or.PoslistMerge(b, p2, aTmp[..], 0, aTmp[..], t1, k1, e2 + junk, k2, junk);
    } else if t1 != 0 {
      var end := PoslistEnd(aTmp[..], 0, k1, e2 + junk);
      CopyBytes(b, p2, aTmp[..end]);
      q := p2 + end;
    } else if t2 != t1 {
      var end := PoslistEnd(aTmp[..], t1, k2, junk);
      CopyBytes(b, p2, aTmp[t1..end]);
      q := p2 + (end - t1);
    } else {
      res := false;
    }
  }

  lemma EmptyMerges(k1: seq<Column>, k2: seq<Column>)
    ensures k1 == [] ==> MergeColumns(k1, k2) == k2
    ensures k2 == [] ==> MergeColumns(k1, k2) == k1
    ensures k1 != [] || k2 != [] ==> MergeColumns(k1, k2) != []
    ensures |EncodePoslist(k1)| >= 1 && |EncodePoslist(k2)| >= 1
  {
  }

  ghost function TwoWritten(t0: seq<Byte>, mid: seq<Byte>, t: seq<Byte>, e1: seq<Byte>, e2: seq<Byte>): (junk: seq<Byte>)
    requires Wrote(t0, mid, 0, e1) && Wrote(mid, t, |e1|, e2)
    ensures Tail(t, 0, e1 + (e2 + junk)) && Tail(t, |e1|, e2 + junk)
  {
    var junk := t[|e1| + |e2|..];
    assert t[..|e1|] == mid[..|e1|] == e1;
    assert t[|e1|..] == e2 + junk;
    assert t == t[..|e1|] + t[|e1|..];
    junk
  }
}

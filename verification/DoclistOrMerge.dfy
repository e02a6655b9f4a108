/** The OR-merge of two doclists, byte by byte. */
module DoclistOrMerge {
  import opened Varint
  import opened Doclist
  import opened DoclistScan
  import opened DoclistUnion

  // ---- one column of both lists ----

  /** One side of the two-way merge of a column-list: `i` is two more than the
      current position, or POSITION_LIST_END, and the positions after it stand
      at `a[p..]`. */
  ghost predicate Reading(a: seq<Byte>, p: nat, i: int, ps: seq<nat>, rest: seq<Byte>) {
    && rest != [] && rest[0] <= 1
    && if ps == [] then i == POSITION_LIST_END && Tail(a, p, rest)
       else i == ps[0] + 2 && Sorted(ps[1..], ps[0]) && i < POSITION_LIST_END
            && Tail(a, p, EncodePositions(ps[1..], ps[0]) + rest)
  }

  method ReadFirstPos(a: seq<Byte>, p: nat, ghost ps: seq<nat>, ghost rest: seq<Byte>) returns (i: int, q: nat)
    requires ps != [] && Sorted(ps, -1) && rest != [] && rest[0] <= 1
    requires Tail(a, p, EncodePositions(ps, -1) + rest)
    ensures Reading(a, q, i, ps, rest)
  {
    hide Encode, Tail;
    Associative(Encode(ps[0] + 2), EncodePositions(ps[1..], ps[0]), rest);
    i, q := ReadVarint(a, p, ps[0] + 2, EncodePositions(ps[1..], ps[0]) + rest);
  }

  method ReadNextPos(a: seq<Byte>, p: nat, i: int, ghost ps: seq<nat>, ghost rest: seq<Byte>) returns (q: nat, j: int)
    requires ps != [] && Reading(a, p, i, ps, rest)
    ensures Reading(a, q, j, ps[1..], rest)
  {
    hide Encode, Tail;
    if ps[1..] == [] {
      assert EncodePositions(ps[1..], ps[0]) + rest == rest;
    } else {
      PositionsFirstByte(ps[1..], ps[0], rest);
    }
    TailByte(a, p, EncodePositions(ps[1..], ps[0]) + rest);
    if a[p] > 1 {
      ghost var u, t := Distance(ps[0], ps[1]) + 2, EncodePositions(ps[2..], ps[1]);
      assert ps[1..][1..] == ps[2..];
      Associative(Encode(u), t, rest);
      var v;
      v, q := ReadVarint(a, p, u, t + rest);
      j := i + v - 2;
    } else {
      q, j := p, POSITION_LIST_END;
    }
  }

  /** What remains of a list once its head `p` has been written. */
  ghost function Past(ps: seq<nat>, p: nat): seq<nat> {
    if ps != [] && ps[0] == p then ps[1..] else ps
  }

  /** The next position to be written, as the merge loop sees it. */
  lemma NextMerged(a: seq<nat>, b: seq<nat>, lo: int)
    requires Sorted(a, lo) && Sorted(b, lo) && (a != [] || b != [])
    ensures var m := MergePositions(a, b);
            && m != [] && lo < m[0]
            && m[0] == (if b == [] || (a != [] && a[0] < b[0]) then a[0] else b[0])
            && m[1..] == MergePositions(Past(a, m[0]), Past(b, m[0]))
            && Sorted(Past(a, m[0]), m[0]) && Sorted(Past(b, m[0]), m[0])
            && EncodePositions(m, lo) == Encode(m[0] - Base(lo) + 2) + EncodePositions(m[1..], m[0])
  {
    hide Encode;
    var m := MergePositions(a, b);
    if a != [] && b != [] {
      if a[0] == b[0] {
        assert m == [a[0]] + MergePositions(a[1..], b[1..]);
      } else if a[0] < b[0] {
        assert m == [a[0]] + MergePositions(a[1..], b);
      } else {
        assert m == [b[0]] + MergePositions(a, b[1..]);
      }
    } else if a == [] {
      assert MergePositions(a, b[1..]) == b[1..];
    } else {
      assert MergePositions(a[1..], b) == a[1..];
    }
  }

  lemma NothingMerged(lo: int)
    ensures EncodePositions(MergePositions([], []), lo) == []
  {
  }

  /** Moves whichever side stands on the position just written; both, when they
      agree. */
  method AdvancePast(a1: seq<Byte>, p1: nat, i1: int, a2: seq<Byte>, p2: nat, i2: int,
                     ghost s1: seq<nat>, ghost r1: seq<Byte>, ghost s2: seq<nat>, ghost r2: seq<Byte>, ghost m: nat)
    returns (q1: nat, j1: int, q2: nat, j2: int)
    requires Reading(a1, p1, i1, s1, r1) && Reading(a2, p2, i2, s2, r2)
    requires (s1 != [] || s2 != []) && m + 2 == if i1 < i2 then i1 else i2
    ensures Reading(a1, q1, j1, Past(s1, m), r1) && Reading(a2, q2, j2, Past(s2, m), r2)
    ensures |Past(s1, m)| + |Past(s2, m)| < |s1| + |s2|
  {
    hide Encode, EncodePositions, Tail, Sorted;
    q1, j1, q2, j2 := p1, i1, p2, i2;
    if i1 == i2 {
      q1, j1 := ReadNextPos(a1, p1, i1, s1, r1);
      q2, j2 := ReadNextPos(a2, p2, i2, s2, r2);
    } else if i1 < i2 {
      q1, j1 := ReadNextPos(a1, p1, i1, s1, r1);
    } else {
      q2, j2 := ReadNextPos(a2, p2, i2, s2, r2);
    }
  }

  /** Merges the positions of one column held by both lists; no terminator is
      read or written. */
  method MergeColumn(o: array<Byte>, p: nat,
                     a1: seq<Byte>, p1: nat, a2: seq<Byte>, p2: nat,
                     ghost l1: seq<nat>, ghost r1: seq<Byte>, ghost l2: seq<nat>, ghost r2: seq<Byte>)
    returns (q: nat, q1: nat, q2: nat)
    requires l1 != [] && Sorted(l1, -1) && r1 != [] && r1[0] <= 1
    requires l2 != [] && Sorted(l2, -1) && r2 != [] && r2[0] <= 1
    requires Tail(a1, p1, EncodePositions(l1, -1) + r1)
    requires Tail(a2, p2, EncodePositions(l2, -1) + r2)
    requires p + |EncodePositions(MergePositions(l1, l2), -1)| <= o.Length
    modifies o
    ensures Tail(a1, q1, r1) && Tail(a2, q2, r2)
    ensures q == p + |EncodePositions(MergePositions(l1, l2), -1)|
    ensures o[..] == Splice(old(o[..]), p, EncodePositions(MergePositions(l1, l2), -1))
  {
    hide Encode, Splice, MergePositions, Sorted, EncodePositions, Tail;
    ghost var before, target := o[..], EncodePositions(MergePositions(l1, l2), -1);
    ghost var w: seq<Byte> := [];
    ghost var s1, s2, lo: int := l1, l2, -1;
    var i1: int, i2: int;
    i1, q1 := ReadFirstPos(a1, p1, l1, r1);
    i2, q2 := ReadFirstPos(a2, p2, l2, r2);
    var iPrev: int := 0;
    q := p;
    SpliceEmpty(before, p);
    assert w + target == target;
    while i1 != POSITION_LIST_END || i2 != POSITION_LIST_END
      invariant q == p + |w| <= p + |target| <= o.Length
      invariant o[..] == Splice(before, p, w)
      invariant lo >= -1 && iPrev == Base(lo)
      invariant Reading(a1, q1, i1, s1, r1) && Sorted(s1, lo)
      invariant Reading(a2, q2, i2, s2, r2) && Sorted(s2, lo)
      invariant w + EncodePositions(MergePositions(s1, s2), lo) == target
      decreases |s1| + |s2|
    {
      NextMerged(s1, s2, lo);
      ghost var m := MergePositions(s1, s2);
      var iVal := if i1 < i2 then i1 else i2;
      ghost var e := Encode(m[0] - Base(lo) + 2);
      SpliceSplice(before, p, w, e);
      Associative(w, e, EncodePositions(m[1..], m[0]));
      var n := PutVarint(o, q, iVal - iPrev);
      q, w := q + n, w + e;
      iPrev := iVal - 2;
      q1, i1, q2, i2 := AdvancePast(a1, q1, i1, a2, q2, i2, s1, r1, s2, r2, m[0]);
      s1, s2, lo := Past(s1, m[0]), Past(s2, m[0]), m[0];
    }
    NothingMerged(lo);
    assert w + [] == w;
  }

  // ---- position-lists ----

  /** Starts a new column list; column 0 has no header. */
  method PutColNumber(o: array<Byte>, p: nat, iCol: nat) returns (n: nat)
    requires iCol <= POSITION_LIST_END
    requires p + |ColumnHeader(iCol)| <= o.Length
    modifies o
    ensures n == |ColumnHeader(iCol)|
    ensures o[..] == Splice(old(o[..]), p, ColumnHeader(iCol))
  {
    n := 0;
    if iCol == 0 {
      SpliceEmpty(o[..], p);
    } else {
      hide Encode, Splice;
      SpliceSplice(o[..], p, [POS_COLUMN], Encode(iCol));
      PutByte(o, p, POS_COLUMN);
      n := PutVarint(o, p + 1, iCol);
      n := n + 1;
    }
  }

  /** The column that starts at `a[p]`, or POSITION_LIST_END at the end. */
  method PeekColumn(a: seq<Byte>, p: nat, ghost cs: seq<Column>, ghost rest: seq<Byte>, ghost lo: int) returns (iCol: nat)
    requires ValidColumns(cs, lo)
    requires Tail(a, p, EncodePoslist(cs) + rest)
    ensures iCol == if cs == [] then POSITION_LIST_END else cs[0].index
  {
    hide Encode, EncodePositions, EncodeColumns, EncodePoslist, Tail;
    PoslistFirstByte(cs, rest);
    TailByte(a, p, EncodePoslist(cs) + rest);
    if a[p] == POS_COLUMN {
      PoslistCons(cs, rest);
      ghost var tail := EncodePositions(cs[0].positions, -1) + (EncodePoslist(cs[1..]) + rest);
      Associative([POS_COLUMN], Encode(cs[0].index), tail);
      TailDrop(a, p, [POS_COLUMN], Encode(cs[0].index) + tail);
      var q;
      iCol, q := ReadVarint(a, p + 1, cs[0].index, tail);
    } else if a[p] == POS_END {
      iCol := POSITION_LIST_END;
    } else {
      iCol := 0;
    }
  }

  /** Copies the column that starts at `a[p]`, header included. */
  method CopyColumn(o: array<Byte>, p: nat, a: seq<Byte>, pa: nat, iCol: nat,
                    ghost cs: seq<Column>, ghost rest: seq<Byte>, ghost lo: int) returns (q: nat, qa: nat)
    requires ValidColumns(cs, lo) && cs != [] && iCol == cs[0].index
    requires Tail(a, pa, EncodePoslist(cs) + rest)
    requires p + |EncodeColumn(cs[0])| <= o.Length
    modifies o
    ensures q == p + |EncodeColumn(cs[0])|
    ensures o[..] == Splice(old(o[..]), p, EncodeColumn(cs[0]))
    ensures Tail(a, qa, EncodePoslist(cs[1..]) + rest)
  {
    hide Encode, EncodeColumns, EncodePositions, EncodePoslist, ColumnHeader, Tail, Splice;
    ghost var h, e := ColumnHeader(iCol), EncodePositions(cs[0].positions, -1);
    PoslistCons(cs, rest);
    PoslistFirstByte(cs[1..], rest);
    SpliceSplice(o[..], p, h, e);
    TailDrop(a, pa, h, e + (EncodePoslist(cs[1..]) + rest));
    var n := PutColNumber(o, p, iCol);
    qa := ColumnlistEnd(a, pa + n, cs[0].positions, -1, EncodePoslist(cs[1..]) + rest);
    CopyBytes(o, p + n, a[pa + n..qa]);
    q := p + n + (qa - (pa + n));
  }

  method MergeSameColumn(o: array<Byte>, p: nat, a1: seq<Byte>, p1: nat, a2: seq<Byte>, p2: nat, iCol: nat,
                         ghost s1: seq<Column>, ghost r1: seq<Byte>, ghost s2: seq<Column>, ghost r2: seq<Byte>,
                         ghost lo: int)
    returns (q: nat, q1: nat, q2: nat)
    requires s1 != [] && s2 != [] && ValidColumns(s1, lo) && ValidColumns(s2, lo)
    requires s1[0].index == s2[0].index == iCol
    requires Tail(a1, p1, EncodePoslist(s1) + r1)
    requires Tail(a2, p2, EncodePoslist(s2) + r2)
    requires p + |EncodeColumn(Column(iCol, MergePositions(s1[0].positions, s2[0].positions)))| <= o.Length
    modifies o
    ensures Tail(a1, q1, EncodePoslist(s1[1..]) + r1)
    ensures Tail(a2, q2, EncodePoslist(s2[1..]) + r2)
    ensures var e := EncodeColumn(Column(iCol, MergePositions(s1[0].positions, s2[0].positions)));
            q == p + |e| && o[..] == Splice(old(o[..]), p, e)
  {
    hide Encode, EncodePositions, EncodeColumns, EncodePoslist, ColumnHeader, MergePositions, Sorted, Tail, Splice;
    ghost var h, e1, e2 := ColumnHeader(iCol), EncodePositions(s1[0].positions, -1), EncodePositions(s2[0].positions, -1);
    PoslistCons(s1, r1);
    PoslistCons(s2, r2);
    PoslistFirstByte(s1[1..], r1);
    PoslistFirstByte(s2[1..], r2);
    SpliceSplice(o[..], p, h, EncodePositions(MergePositions(s1[0].positions, s2[0].positions), -1));
    TailDrop(a1, p1, h, e1 + (EncodePoslist(s1[1..]) + r1));
    TailDrop(a2, p2, h, e2 + (EncodePoslist(s2[1..]) + r2));
    var n := PutColNumber(o, p, iCol);
    q, q1, q2 := MergeColumn(o, p + n, a1, p1 + n, a2, p2 + n,
                             s1[0].positions, EncodePoslist(s1[1..]) + r1,
                             s2[0].positions, EncodePoslist(s2[1..]) + r2);
  }

  ghost function PastColumn(cs: seq<Column>, index: nat): seq<Column> {
    if cs != [] && cs[0].index == index then cs[1..] else cs
  }

  lemma IndexBound(cs: seq<Column>, lo: int)
    requires ValidColumns(cs, lo)
    ensures cs != [] ==> cs[0].index < POSITION_LIST_END
  {
  }

  lemma NextMergedColumn(a: seq<Column>, b: seq<Column>, lo: int)
    requires ValidColumns(a, lo) && ValidColumns(b, lo) && (a != [] || b != [])
    ensures var m := MergeColumns(a, b);
            && m != []
            && m[0] == (if b == [] || (a != [] && a[0].index < b[0].index) then a[0]
                        else if a == [] || b[0].index < a[0].index then b[0]
                        else Column(a[0].index, MergePositions(a[0].positions, b[0].positions)))
            && m[1..] == MergeColumns(PastColumn(a, m[0].index), PastColumn(b, m[0].index))
            && ValidColumns(PastColumn(a, m[0].index), m[0].index)
            && ValidColumns(PastColumn(b, m[0].index), m[0].index)
            && (a != [] ==> a[0].index < POSITION_LIST_END)
            && (b != [] ==> b[0].index < POSITION_LIST_END)
            && |PastColumn(a, m[0].index)| + |PastColumn(b, m[0].index)| < |a| + |b|
  {
    hide Sorted, MergePositions, ValidColumn;
    IndexBound(a, lo);
    IndexBound(b, lo);
    var m := MergeColumns(a, b);
    if a != [] && b != [] {
      if a[0].index == b[0].index {
        assert m[1..] == MergeColumns(a[1..], b[1..]);
      } else if a[0].index < b[0].index {
        assert m == [a[0]] + MergeColumns(a[1..], b);
      } else {
        assert m == [b[0]] + MergeColumns(a, b[1..]);
      }
    } else if a == [] {
      assert MergeColumns(a, b[1..]) == b[1..];
    } else {
      assert MergeColumns(a[1..], b) == a[1..];
    }
  }

  lemma NoColumnsMerged()
    ensures MergeColumns([], []) == []
  {
  }

  lemma NextByte(a: seq<Byte>, p: nat, cs: seq<Column>, rest: seq<Byte>, lo: int)
    requires ValidColumns(cs, lo) && Tail(a, p, EncodePoslist(cs) + rest)
    ensures p < |a| && (a[p] != 0 <==> cs != [])
  {
    PoslistFirstByte(cs, rest);
    TailByte(a, p, EncodePoslist(cs) + rest);
  }

  /** One turn of the merge: the smaller of the two next columns, or both when
      their numbers agree. */
  method MergeNextColumn(o: array<Byte>, p: nat, a1: seq<Byte>, p1: nat, a2: seq<Byte>, p2: nat,
                         ghost s1: seq<Column>, ghost r1: seq<Byte>, ghost s2: seq<Column>, ghost r2: seq<Byte>,
                         ghost lo: int)
    returns (q: nat, q1: nat, q2: nat)
    requires ValidColumns(s1, lo) && ValidColumns(s2, lo) && (s1 != [] || s2 != [])
    requires MergeColumns(s1, s2) != []
    requires Tail(a1, p1, EncodePoslist(s1) + r1)
    requires Tail(a2, p2, EncodePoslist(s2) + r2)
    requires p + |EncodeColumn(MergeColumns(s1, s2)[0])| <= o.Length
    modifies o
    ensures var m := MergeColumns(s1, s2)[0];
            && q == p + |EncodeColumn(m)|
            && o[..] == Splice(old(o[..]), p, EncodeColumn(m))
            && Tail(a1, q1, EncodePoslist(PastColumn(s1, m.index)) + r1)
            && Tail(a2, q2, EncodePoslist(PastColumn(s2, m.index)) + r2)
  {
    hide Encode, EncodePositions, EncodeColumns, EncodeColumn, EncodePoslist, Splice, MergeColumns, ValidColumns, Tail;
    NextMergedColumn(s1, s2, lo);
    q, q1, q2 := p, p1, p2;
    var iCol1 := PeekColumn(a1, p1, s1, r1, lo);
    var iCol2 := PeekColumn(a2, p2, s2, r2, lo);
    if iCol1 == iCol2 {
      q, q1, q2 := MergeSameColumn(o, p, a1, p1, a2, p2, iCol1, s1, r1, s2, r2, lo);
    } else if iCol1 < iCol2 {
      q, q1 := CopyColumn(o, p, a1, p1, iCol1, s1, r1, lo);
    } else {
      q, q2 := CopyColumn(o, p, a2, p2, iCol2, s2, r2, lo);
    }
  }

  /** Merges two position-lists: every (column, position) of either, once. */
  method PoslistMerge(o: array<Byte>, p: nat,
                      a1: seq<Byte>, p1: nat, a2: seq<Byte>, p2: nat,
                      ghost l1: seq<Column>, ghost r1: seq<Byte>, ghost l2: seq<Column>, ghost r2: seq<Byte>)
    returns (q: nat, q1: nat, q2: nat)
    requires ValidColumns(l1, -1) && ValidColumns(l2, -1)
    requires Tail(a1, p1, EncodePoslist(l1) + r1)
    requires Tail(a2, p2, EncodePoslist(l2) + r2)
    requires p + |EncodePoslist(MergeColumns(l1, l2))| <= o.Length
    modifies o
    ensures Tail(a1, q1, r1) && Tail(a2, q2, r2)
    ensures q == p + |EncodePoslist(MergeColumns(l1, l2))|
    ensures o[..] == Splice(old(o[..]), p, EncodePoslist(MergeColumns(l1, l2)))
  {
    hide Encode, EncodePositions, EncodeColumns, EncodeColumn, EncodePoslist, Splice, MergeColumns, ValidColumns, Tail;
    ghost var before, target := o[..], EncodePoslist(MergeColumns(l1, l2));
    ghost var w: seq<Byte> := [];
    ghost var s1, s2, lo: int := l1, l2, -1;
    q, q1, q2 := p, p1, p2;
    NextByte(a1, q1, s1, r1, lo);
    NextByte(a2, q2, s2, r2, lo);
    SpliceEmpty(before, p);
    assert w + target == target;
    while a1[q1] != 0 || a2[q2] != 0
      invariant q == p + |w| <= p + |target| <= o.Length
      invariant o[..] == Splice(before, p, w)
      invariant ValidColumns(s1, lo) && ValidColumns(s2, lo)
      invariant Tail(a1, q1, EncodePoslist(s1) + r1) && q1 < |a1| && (a1[q1] != 0 <==> s1 != [])
      invariant Tail(a2, q2, EncodePoslist(s2) + r2) && q2 < |a2| && (a2[q2] != 0 <==> s2 != [])
      invariant w + EncodePoslist(MergeColumns(s1, s2)) == target
      decreases |s1| + |s2|
    {
      NextMergedColumn(s1, s2, lo);
      ghost var m := MergeColumns(s1, s2);
      ghost var e := EncodeColumn(m[0]);
      EncodePoslistCons(m);
      SpliceSplice(before, p, w, e);
      Associative(w, e, EncodePoslist(m[1..]));
      q, q1, q2 := MergeNextColumn(o, q, a1, q1, a2, q2, s1, r1, s2, r2, lo);
      w, lo := w + e, m[0].index;
      s1, s2 := PastColumn(s1, lo), PastColumn(s2, lo);
      NextByte(a1, q1, s1, r1, lo);
      NextByte(a2, q2, s2, r2, lo);
    }
    EmptyPoslist();
    NoColumnsMerged();
    SpliceSplice(before, p, w, [POS_END]);
    TailDrop(a1, q1, [POS_END], r1);
    TailDrop(a2, q2, [POS_END], r2);
    PutByte(o, q, POS_END);
    q, q1, q2 := q + 1, q1 + 1, q2 + 1;
  }

  // ---- doclists ----

  /** A doclist reader that has just read the docid `i`; not live at the end. */
  ghost predicate OnDoc(a: seq<Byte>, p: nat, live: bool, i: int, ds: seq<Doc>) {
    && (live <==> ds != [])
    && (live ==> i == ds[0].id
                 && Tail(a, p, EncodePoslist(ds[0].columns) + EncodeDocs(ds[1..], After(ds[0].id))))
  }

  /** Reads a docid as the sum or difference of `i` and a stored number. */
  method GetDeltaVarint3(a: seq<Byte>, p: nat, desc: bool, i: int, ghost ds: seq<Doc>, ghost o: Order, ghost c: Cursor)
    returns (live: bool, q: nat, j: int)
    requires ValidDocs(ds, o, c) && Tail(a, p, EncodeDocs(ds, c))
    requires match c case Start => i == 0 && !desc case After(id) => i == id && desc == o.desc
    ensures OnDoc(a, q, live, j, ds)
  {
    hide Encode, EncodePoslist;
    if p >= |a| {
      live, q, j := false, 0, i;
    } else {
      StoredBounds(o, c, ds[0].id);
      ghost var t := EncodeDocs(ds[1..], After(ds[0].id));
      Associative(Encode(Stored(c, ds[0].id)), EncodePoslist(ds[0].columns), t);
      var v;
      v, q := ReadVarint(a, p, Stored(c, ds[0].id), EncodePoslist(ds[0].columns) + t);
      live, j := true, if desc then i - v else i + v;
    }
  }

  /** Writes a docid, as a difference from `iPrev` once the first is out. */
  method PutDeltaVarint3(o: array<Byte>, p: nat, desc: bool, iPrev: int, started: bool, iVal: Int64,
                         ghost order: Order, ghost c: Cursor) returns (q: nat)
    requires order.desc == desc && order.Next(c, iVal)
    requires if started then c == After(iPrev) else c == Start && iPrev == 0
    requires p + |Encode(Stored(c, iVal))| <= o.Length
    modifies o
    ensures q == p + |Encode(Stored(c, iVal))|
    ensures o[..] == Splice(old(o[..]), p, Encode(Stored(c, iVal)))
  {
    hide Encode, Splice;
    StoredBounds(order, c, iVal);
    var iWrite := if !desc || !started then iVal - iPrev else iPrev - iVal;
    var n := PutVarint(o, p, iWrite);
    q := p + n;
  }

  ghost function PastDoc(ds: seq<Doc>, id: int): seq<Doc> {
    if ds != [] && ds[0].id == id then ds[1..] else ds
  }

  lemma NextMergedDoc(o: Order, a: seq<Doc>, b: seq<Doc>, c: Cursor)
    requires ValidDocs(a, o, c) && ValidDocs(b, o, c) && (a != [] || b != [])
    ensures var m := MergeDocs(o, a, b);
            && m != [] && o.Next(c, m[0].id)
            && m[0] == (if b == [] || (a != [] && o.Before(a[0].id, b[0].id)) then a[0]
                        else if a == [] || o.Before(b[0].id, a[0].id) then b[0]
                        else Doc(a[0].id, MergeColumns(a[0].columns, b[0].columns)))
            && m[1..] == MergeDocs(o, PastDoc(a, m[0].id), PastDoc(b, m[0].id))
            && ValidDocs(PastDoc(a, m[0].id), o, After(m[0].id))
            && ValidDocs(PastDoc(b, m[0].id), o, After(m[0].id))
            && |PastDoc(a, m[0].id)| + |PastDoc(b, m[0].id)| < |a| + |b|
            && (a != [] ==> ValidColumns(a[0].columns, -1))
            && (b != [] ==> ValidColumns(b[0].columns, -1))
  {
    hide ValidColumns, MergeColumns;
    var m := MergeDocs(o, a, b);
    if a != [] && b != [] {
      if a[0].id == b[0].id {
        assert m[1..] == MergeDocs(o, a[1..], b[1..]);
      } else if o.Before(a[0].id, b[0].id) {
        assert m == [a[0]] + MergeDocs(o, a[1..], b);
      } else {
        assert m == [b[0]] + MergeDocs(o, a, b[1..]);
      }
    } else if a == [] {
      assert MergeDocs(o, a, b[1..]) == b[1..];
    } else {
      assert MergeDocs(o, a[1..], b) == a[1..];
    }
  }

  lemma EncodeDocsCons(ds: seq<Doc>, c: Cursor)
    requires ds != []
    ensures EncodeDocs(ds, c)
         == Encode(Stored(c, ds[0].id)) + (EncodePoslist(ds[0].columns) + EncodeDocs(ds[1..], After(ds[0].id)))
  {
    hide Encode, EncodePoslist;
    Associative(Encode(Stored(c, ds[0].id)), EncodePoslist(ds[0].columns), EncodeDocs(ds[1..], After(ds[0].id)));
  }

  lemma NoDocs(o: Order, c: Cursor)
    ensures EncodeDocs(MergeDocs(o, [], []), c) == []
  {
  }

  /** Copies the position-list of the current document and moves on. */
  method CopyDoc(o: array<Byte>, p: nat, a: seq<Byte>, pa: nat, desc: bool, i: Int64,
                 ghost ds: seq<Doc>, ghost order: Order, ghost c: Cursor)
    returns (q: nat, live: bool, qa: nat, j: int)
    requires ds != [] && ValidDocs(ds, order, c) && order.desc == desc && OnDoc(a, pa, true, i, ds)
    requires p + |EncodePoslist(ds[0].columns)| <= o.Length
    modifies o
    ensures q == p + |EncodePoslist(ds[0].columns)|
    ensures o[..] == Splice(old(o[..]), p, EncodePoslist(ds[0].columns))
    ensures OnDoc(a, qa, live, j, ds[1..])
  {
    hide Encode, EncodePoslist, EncodeDocs, Splice, Tail;
    var end := PoslistEnd(a, pa, ds[0].columns, EncodeDocs(ds[1..], After(ds[0].id)));
    CopyBytes(o, p, a[pa..end]);
    q := p + (end - pa);
    live, qa, j := GetDeltaVarint3(a, end, desc, i, ds[1..], order, After(i));
  }

  /** Merges two doclists into a new buffer with VARINT_MAX - 1 bytes to spare. */
  method OrMerge(desc: bool, a1: seq<Byte>, a2: seq<Byte>, ghost order: Order, ghost d1: seq<Doc>, ghost d2: seq<Doc>)
    returns (o: array<Byte>, n: nat)
    requires order.desc == desc && ValidDocs(d1, order, Start) && ValidDocs(d2, order, Start)
    requires a1 == EncodeDocs(d1, Start) && a2 == EncodeDocs(d2, Start)
    ensures fresh(o) && o.Length == |a1| + |a2| + VARINT_MAX - 1
    ensures n <= o.Length && o[..n] == EncodeDocs(MergeDocs(order, d1, d2), Start)
  {
    hide Encode, EncodePoslist, EncodeDocs, Splice, Tail, ValidDocs, MergeDocs, ValidColumns, MergeColumns, OnDoc;
    o := new Byte[|a1| + |a2| + VARINT_MAX - 1];
    ghost var before, target := o[..], EncodeDocs(MergeDocs(order, d1, d2), Start);
    MergeDocsSize(order, d1, d2);
    ghost var w: seq<Byte> := [];
    ghost var s1, s2, c := d1, d2, Start;
    Whole(a1);
    Whole(a2);
    var live1, p1, i1 := GetDeltaVarint3(a1, 0, false, 0, d1, order, Start);
    var live2, p2, i2 := GetDeltaVarint3(a2, 0, false, 0, d2, order, Start);
    var iPrev, started := 0, false;
    n := 0;
    SpliceEmpty(before, 0);
    assert w + target == target;
    while live1 || live2
      invariant n == |w| <= |target| < o.Length
      invariant o[..] == Splice(before, 0, w)
      invariant if started then c == After(iPrev) else c == Start && iPrev == 0
      invariant ValidDocs(s1, order, c) && OnDoc(a1, p1, live1, i1, s1)
      invariant ValidDocs(s2, order, c) && OnDoc(a2, p2, live2, i2, s2)
      invariant w + EncodeDocs(MergeDocs(order, s1, s2), c) == target
      decreases |s1| + |s2|
    {
      Live(a1, p1, live1, i1, s1);
      Live(a2, p2, live2, i2, s2);
      NextMergedDoc(order, s1, s2, c);
      ghost var m := MergeDocs(order, s1, s2);
      ghost var e := Encode(Stored(c, m[0].id)) + EncodePoslist(m[0].columns);
      EncodeDocsCons(m, c);
      Associative(Encode(Stored(c, m[0].id)), EncodePoslist(m[0].columns), EncodeDocs(m[1..], After(m[0].id)));
      Associative(w, e, EncodeDocs(m[1..], After(m[0].id)));
      SpliceSplice(before, 0, w, e);
      n, live1, p1, i1, live2, p2, i2, iPrev :=
        MergeNextDoc(o, n, desc, a1, live1, p1, i1, a2, live2, p2, i2, iPrev, started, s1, s2, order, c);
      started, w, c := true, w + e, After(m[0].id);
      s1, s2 := PastDoc(s1, m[0].id), PastDoc(s2, m[0].id);
    }
    Live(a1, p1, live1, i1, s1);
    Live(a2, p2, live2, i2, s2);
    NoDocs(order, c);
    assert w + [] == w;
    SplicePrefix(before, w);
  }

  lemma Whole(a: seq<Byte>)
    ensures Tail(a, 0, a)
  {
  }

  lemma Live(a: seq<Byte>, p: nat, live: bool, i: int, ds: seq<Doc>)
    requires OnDoc(a, p, live, i, ds)
    ensures (live <==> ds != []) && (live ==> i == ds[0].id)
  {
  }

  lemma SplicePrefix(s: seq<Byte>, w: seq<Byte>)
    requires |w| <= |s|
    ensures Splice(s, 0, w)[..|w|] == w
  {
  }

  /** One turn of the merge: the document that comes first in docid order, or
      both when they are the same document. */
  method MergeNextDoc(o: array<Byte>, p: nat, desc: bool,
                      a1: seq<Byte>, live1: bool, p1: nat, i1: int,
                      a2: seq<Byte>, live2: bool, p2: nat, i2: int,
                      iPrev: int, started: bool,
                      ghost s1: seq<Doc>, ghost s2: seq<Doc>, ghost order: Order, ghost c: Cursor)
    returns (q: nat, l1: bool, q1: nat, j1: int, l2: bool, q2: nat, j2: int, prev: int)
    requires order.desc == desc && (if started then c == After(iPrev) else c == Start && iPrev == 0)
    requires ValidDocs(s1, order, c) && OnDoc(a1, p1, live1, i1, s1)
    requires ValidDocs(s2, order, c) && OnDoc(a2, p2, live2, i2, s2)
    requires (live1 || live2) && MergeDocs(order, s1, s2) != []
    requires var m := MergeDocs(order, s1, s2)[0];
             p + |Encode(Stored(c, m.id)) + EncodePoslist(m.columns)| <= o.Length
    modifies o
    ensures var m := MergeDocs(order, s1, s2)[0];
            && prev == m.id
            && q == p + |Encode(Stored(c, m.id)) + EncodePoslist(m.columns)|
            && o[..] == Splice(old(o[..]), p, Encode(Stored(c, m.id)) + EncodePoslist(m.columns))
            && OnDoc(a1, q1, l1, j1, PastDoc(s1, m.id)) && OnDoc(a2, q2, l2, j2, PastDoc(s2, m.id))
  {
    hide Encode, EncodePoslist, EncodeDocs, Splice, Tail, ValidDocs, MergeDocs, ValidColumns, MergeColumns, Stored;
    NextMergedDoc(order, s1, s2, c);
    ghost var m := MergeDocs(order, s1, s2)[0];
    SpliceSplice(o[..], p, Encode(Stored(c, m.id)), EncodePoslist(m.columns));
    l1, q1, j1, l2, q2, j2 := live1, p1, i1, live2, p2, i2;
    var iDiff := (if desc then -1 else 1) * (i1 - i2);
    if live2 && live1 && iDiff == 0 {
      q := PutDeltaVarint3(o, p, desc, iPrev, started, i1, order, c);
      q, q1, q2 := PoslistMerge(o, q, a1, p1, a2, p2,
                                s1[0].columns, EncodeDocs(s1[1..], After(s1[0].id)),
                                s2[0].columns, EncodeDocs(s2[1..], After(s2[0].id)));
      l1, q1, j1 := GetDeltaVarint3(a1, q1, desc, i1, s1[1..], order, After(i1));
      l2, q2, j2 := GetDeltaVarint3(a2, q2, desc, i2, s2[1..], order, After(i2));
      prev := i1;
    } else if !live2 || (live1 && iDiff < 0) {
      q := PutDeltaVarint3(o, p, desc, iPrev, started, i1, order, c);
      q, l1, q1, j1 := CopyDoc(o, q, a1, p1, desc, i1, s1, order, c);
      prev := i1;
    } else {
      q := PutDeltaVarint3(o, p, desc, iPrev, started, i2, order, c);
      q, l2, q2, j2 := CopyDoc(o, q, a2, p2, desc, i2, s2, order, c);
      prev := i2;
    }
  }
}

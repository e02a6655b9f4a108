/** The phrase merge of two doclists, which overwrites its right-hand input:
    what it computes, and exactly when its write cursor stays behind its read
    cursor. */
module DoclistPhrase {
  import opened Varint
  import opened Doclist
  import opened DoclistScan
  import opened DoclistNear
  import opened DoclistPhraseMerge
  import Or = DoclistOrMerge

  // ---- contents ----

  /** The columns of document `id`, if the list has it. */
  ghost function ColumnsOf(ds: seq<Doc>, id: int): seq<Column> {
    if ds == [] then [] else if ds[0].id == id then ds[0].columns else ColumnsOf(ds[1..], id)
  }

  /** The documents of `right` cut down to the positions that lie `n` after a
      position of the same document and column of `left`. */
  ghost function PhraseDocs(n: nat, left: seq<Doc>, right: seq<Doc>): seq<Doc> {
    if right == [] then []
    else
      var cs := KeptColumns(Exact, n, right[0].columns, ColumnsOf(left, right[0].id));
      (if cs == [] then [] else [Doc(right[0].id, cs)]) + PhraseDocs(n, left, right[1..])
  }

  /** Position-lists are never empty. */
  ghost predicate NonEmpty(ds: seq<Doc>) {
    ds == [] || (ds[0].columns != [] && NonEmpty(ds[1..]))
  }

  lemma {:induction false} DocsWeaken(ds: seq<Doc>, o: Order, c: Cursor, d: Cursor)
    requires ValidDocs(ds, o, d) && d.After? && (c.After? ==> o.Holds(c.id) && o.Before(c.id, d.id))
    ensures ValidDocs(ds, o, c)
  {
  }

  lemma {:induction false} ColumnsOfHits(ds: seq<Doc>, id: int, o: Order, c: Cursor)
    requires ValidDocs(ds, o, c)
    ensures forall k: nat, p: nat :: (k, p) in ColumnHits(ColumnsOf(ds, id)) <==> (id, k, p) in Hits(ds)
    ensures !o.Next(c, id) ==> ColumnsOf(ds, id) == []
    ensures ValidColumns(ColumnsOf(ds, id), -1)
  {
    if ds != [] {
      ColumnsOfHits(ds[1..], id, o, After(ds[0].id));
      DocsMembers(ds[1..], o, After(ds[0].id));
    }
  }

  lemma ConsPhrase(n: nat, left: seq<Doc>, right: seq<Doc>)
    requires right != []
    ensures var cs := KeptColumns(Exact, n, right[0].columns, ColumnsOf(left, right[0].id));
            var ds, rest := PhraseDocs(n, left, right), PhraseDocs(n, left, right[1..]);
            if cs == [] then ds == rest
            else ds == [Doc(right[0].id, cs)] + rest && ds[0] == Doc(right[0].id, cs) && ds[1..] == rest
  {
  }

  lemma {:induction false} PhraseDocsValid(n: nat, left: seq<Doc>, right: seq<Doc>, o: Order, c: Cursor)
    requires ValidDocs(right, o, c)
    ensures ValidDocs(PhraseDocs(n, left, right), o, c) && NonEmpty(PhraseDocs(n, left, right))
  {
    if right != [] {
      PhraseDocsValid(n, left, right[1..], o, After(right[0].id));
      KeptColumnsMembers(Exact, n, right[0].columns, ColumnsOf(left, right[0].id), -1);
      DocsWeaken(PhraseDocs(n, left, right[1..]), o, c, After(right[0].id));
      ConsPhrase(n, left, right);
    }
  }

  lemma KeptHit(n: nat, cs: seq<Column>, other: seq<Column>, k: nat, p: nat)
    requires n > 0 && ValidColumns(cs, -1) && ValidColumns(other, -1)
    ensures (k, p) in ColumnHits(KeptColumns(Exact, n, cs, other))
       <==> (k, p) in ColumnHits(cs) && p >= n && (k, p - n) in ColumnHits(other)
  {
    KeptColumnsMembers(Exact, n, cs, other, -1);
    PositionsOfHits(other, k, -1);
  }

  lemma HitsCons(ds: seq<Doc>, o: Order, c: Cursor, d: int, k: nat, p: nat)
    requires ds != [] && ValidDocs(ds, o, c)
    ensures (d, k, p) in Hits(ds)
       <==> if d == ds[0].id then (k, p) in ColumnHits(ds[0].columns) else (d, k, p) in Hits(ds[1..])
  {
    DocsMembers(ds[1..], o, After(ds[0].id));
  }

  /** The phrase merge keeps exactly the right-hand hits that have a left-hand
      hit `n` positions earlier in the same document and column. */
  lemma {:induction false} PhraseDocsHit(n: nat, left: seq<Doc>, right: seq<Doc>, o: Order, c: Cursor,
                                         d: int, k: nat, p: nat)
    requires n > 0 && ValidDocs(left, o, Start) && ValidDocs(right, o, c)
    ensures (d, k, p) in Hits(PhraseDocs(n, left, right))
       <==> (d, k, p) in Hits(right) && p >= n && (d, k, p - n) in Hits(left)
    decreases right
  {
    hide ColumnHits, KeptColumns, Hits;
    if right == [] {
      NoHits();
    } else {
      var id := right[0].id;
      var other := ColumnsOf(left, id);
      var cs := KeptColumns(Exact, n, right[0].columns, other);
      var ds, rest := PhraseDocs(n, left, right), PhraseDocs(n, left, right[1..]);
      PhraseDocsHit(n, left, right[1..], o, After(id), d, k, p);
      PhraseDocsValid(n, left, right, o, c);
      PhraseDocsValid(n, left, right[1..], o, After(id));
      ColumnsOfHits(left, id, o, Start);
      KeptHit(n, right[0].columns, other, k, p);
      ConsPhrase(n, left, right);
      HitsCons(right, o, c, d, k, p);
      if cs != [] {
        HitsCons(ds, o, c, d, k, p);
      } else {
        NoHits();
        DocsMembers(rest, o, After(id));
      }
    }
  }

  lemma NoHits()
    ensures Hits([]) == {} && ColumnHits([]) == {}
  {
  }

  // ---- the scan over documents ----

  lemma {:induction false} DropLeftDoc(n: nat, left: seq<Doc>, right: seq<Doc>, o: Order, c: Cursor)
    requires left != [] && ValidDocs(right, o, c) && c.After? && !o.Before(c.id, left[0].id)
    ensures PhraseDocs(n, left, right) == PhraseDocs(n, left[1..], right)
  {
    if right != [] { DropLeftDoc(n, left, right[1..], o, After(right[0].id)); }
  }

  lemma {:induction false} NoLeft(n: nat, right: seq<Doc>)
    ensures PhraseDocs(n, [], right) == []
  {
    if right != [] {
      KeptColumnsNone(Exact, n, right[0].columns);
      NoLeft(n, right[1..]);
    }
  }

  /** One turn of the document scan. */
  lemma DocScanStep(n: nat, left: seq<Doc>, right: seq<Doc>, o: Order, c1: Cursor, c2: Cursor)
    requires ValidDocs(left, o, c1) && ValidDocs(right, o, c2) && left != [] && right != []
    ensures left[0].id == right[0].id ==>
              var cs := MergedColumns(Exact, n, left[0].columns, right[0].columns);
              (PhraseDocs(n, left, right)
               == (if cs == [] then [] else [Doc(right[0].id, cs)]) + PhraseDocs(n, left[1..], right[1..]))
    ensures o.Before(left[0].id, right[0].id) ==> PhraseDocs(n, left, right) == PhraseDocs(n, left[1..], right)
    ensures o.Before(right[0].id, left[0].id) ==> PhraseDocs(n, left, right) == PhraseDocs(n, left, right[1..])
  {
    if left[0].id == right[0].id {
      DropLeftDoc(n, left, right[1..], o, After(right[0].id));
    } else if o.Before(left[0].id, right[0].id) {
      DropLeftDoc(n, left, right[1..], o, After(right[0].id));
    } else {
      ColumnsOfHits(left[1..], right[0].id, o, After(left[0].id));
      KeptColumnsNone(Exact, n, right[0].columns);
    }
  }

  // ---- the write cursor ----

  ghost function NextCursor(cs: seq<Column>, id: int, c: Cursor): Cursor {
    if cs == [] then c else After(id)
  }

  ghost function Grown(cs: seq<Column>, id: Int64, c: Cursor, q: nat): nat {
    if cs == [] then q else q + |Encode(Stored(c, id))| + |EncodePoslist(cs)|
  }

  /** Along the whole run of the merge, with `p` bytes of the right-hand list
      before `right` and `q` bytes of output written, every docid is written
      within the bytes already read. */
  ghost predicate Held(n: nat, o: Order, left: seq<Doc>, right: seq<Doc>, c: Cursor, out: Cursor, q: nat, p: nat)
    decreases |left| + |right|
  {
    if left == [] || right == [] then true
    else
      var id := right[0].id;
      var read := p + |Encode(Stored(c, id))|;
      var next := read + |EncodePoslist(right[0].columns)|;
      if left[0].id == id then
        var cs := MergedColumns(Exact, n, left[0].columns, right[0].columns);
        && q + |Encode(Stored(out, id))| <= read
        && Held(n, o, left[1..], right[1..], After(id), NextCursor(cs, id, out), Grown(cs, id, out, q), next)
      else if o.Before(left[0].id, id) then Held(n, o, left[1..], right, c, out, q, p)
      else Held(n, o, left, right[1..], After(id), out, q, next)
  }

  /** Every docid of the list, written as if it opened a list, would fit in the
      bytes that precede its position-list. */
  ghost predicate Fits(right: seq<Doc>, c: Cursor, p: nat) {
    right == [] ||
    (&& |Encode(ToUnsigned(right[0].id))| <= p + |Encode(Stored(c, right[0].id))|
     && Fits(right[1..], After(right[0].id),
             p + |Encode(Stored(c, right[0].id))| + |EncodePoslist(right[0].columns)|))
  }

  /** The situation that the run keeps: a docid about to be read can be written. */
  ghost predicate Room(right: seq<Doc>, c: Cursor, out: Cursor, q: nat, p: nat) {
    if out.Start? then q == 0
    else right != [] ==> q + |Encode(Stored(out, right[0].id))| <= p + |Encode(Stored(c, right[0].id))|
  }

  lemma RoomAfter(right: seq<Doc>, o: Order, c: Cursor, out: Cursor, q: nat, p: nat)
    requires right != [] && ValidDocs(right, o, c) && Room(right, c, out, q, p)
    requires out.After? ==> o.Next(out, right[0].id)
    ensures Room(right[1..], After(right[0].id), out, q,
                 p + |Encode(Stored(c, right[0].id))| + |EncodePoslist(right[0].columns)|)
  {
    hide Encode, EncodePoslist;
    if out.After? && |right| > 1 {
      assert right[1..][0] == right[1];
      LengthSubadditive(Stored(out, right[0].id), Stored(After(right[0].id), right[1].id));
    }
  }

  lemma MergedColumnsSize(n: nat, c1: seq<Column>, c2: seq<Column>)
    requires ValidColumns(c1, -1) && ValidColumns(c2, -1)
    ensures |EncodePoslist(MergedColumns(Exact, n, c1, c2))| <= |EncodePoslist(c2)|
  {
    hide ValidColumns, ColumnHits;
    KeptColumnsMembers(Exact, n, c2, c1, -1);
    SubColumnsSize(MergedColumns(Exact, n, c1, c2), c2, -1);
  }

  /** A list whose docids all fit is safe against every left-hand list. */
  lemma {:induction false} FitsHolds(n: nat, o: Order, left: seq<Doc>, right: seq<Doc>, c1: Cursor, c: Cursor, out: Cursor,
                                     q: nat, p: nat)
    requires ValidDocs(left, o, c1) && ValidDocs(right, o, c) && Fits(right, c, p) && Room(right, c, out, q, p)
    requires out.After? ==> c.After? && o.Holds(out.id) && !o.Before(c.id, out.id)
    ensures Held(n, o, left, right, c, out, q, p)
    decreases |left| + |right|
  {
    hide Encode, EncodePoslist, MergedColumns;
    if left != [] && right != [] {
      var id := right[0].id;
      var next := p + |Encode(Stored(c, id))| + |EncodePoslist(right[0].columns)|;
      RoomAfter(right, o, c, out, q, p);
      if left[0].id == id {
        var cs := MergedColumns(Exact, n, left[0].columns, right[0].columns);
        MergedColumnsSize(n, left[0].columns, right[0].columns);
        FitsHolds(n, o, left[1..], right[1..], After(left[0].id), After(id),
                  NextCursor(cs, id, out), Grown(cs, id, out, q), next);
      } else if o.Before(left[0].id, id) {
        FitsHolds(n, o, left[1..], right, After(left[0].id), c, out, q, p);
      } else {
        FitsHolds(n, o, left, right[1..], c1, After(id), out, q, next);
      }
    }
  }

  /** Conversely, a left-hand list with just the document whose docid does not
      fit sends the write cursor past the read cursor. */
  lemma {:induction false} MisfitBreaks(n: nat, o: Order, right: seq<Doc>, c: Cursor, p: nat) returns (left: seq<Doc>)
    requires ValidDocs(right, o, c) && !Fits(right, c, p)
    ensures ValidDocs(left, o, c) && NonEmpty(left)
    ensures left != [] && left[0].id in Ids(right)
    ensures !Held(n, o, left, right, c, Start, 0, p)
  {
    hide Encode, EncodePoslist;
    var id := right[0].id;
    if |Encode(ToUnsigned(id))| > p + |Encode(Stored(c, id))| {
      left := [Doc(id, [Column(0, [0])])];
    } else {
      left := MisfitBreaks(n, o, right[1..], After(id),
                           p + |Encode(Stored(c, id))| + |EncodePoslist(right[0].columns)|);
      DocsMembers(right[1..], o, After(id));
      DocsWeaken(left, o, c, After(id));
      assert o.Before(id, left[0].id);
    }
  }

  /** Ascending lists, descending lists without negative docids, and descending
      lists that start with one, always fit. */
  ghost predicate Unmixed(o: Order, right: seq<Doc>, c: Cursor) {
    right == [] ||
    (&& (o.desc ==> right[0].id >= 0 || c.Start? || c.id < 0)
     && Unmixed(o, right[1..], After(right[0].id)))
  }

  lemma {:induction false} UnmixedFits(o: Order, right: seq<Doc>, c: Cursor, p: nat)
    requires ValidDocs(right, o, c) && Unmixed(o, right, c)
    requires c.After? ==> -TWO_63 <= c.id < TWO_63 && |Encode(ToUnsigned(c.id))| <= p
    ensures Fits(right, c, p)
    decreases right
  {
    hide Encode, EncodePoslist;
    if right != [] {
      if c.After? { OpeningSize(o, c.id, right[0].id); }
      UnmixedFits(o, right[1..], After(right[0].id),
                  p + |Encode(Stored(c, right[0].id))| + |EncodePoslist(right[0].columns)|);
    }
  }

  lemma OpeningSize(o: Order, prev: Int64, id: Int64)
    requires o.Next(After(prev), id) && (o.desc ==> id >= 0 || prev < 0)
    ensures |Encode(ToUnsigned(id))| <= |Encode(ToUnsigned(prev))| + |Encode(Stored(After(prev), id))|
  {
    hide Encode;
    SizeBound(ToUnsigned(id));
    if prev < 0 {
      NegativeIsTenBytes(prev);
    } else if o.desc {
      LengthMonotone(id, prev);
    } else {
      LengthSubadditive(prev, id - prev);
    }
  }

  /** The write cursor stays behind the read cursor, whatever the left-hand
      list, if and only if every docid of the right-hand list fits. */
  lemma InPlaceExactly(n: nat, o: Order, right: seq<Doc>)
    requires ValidDocs(right, o, Start)
    ensures Fits(right, Start, 0)
       <==> forall left :: ValidDocs(left, o, Start) && NonEmpty(left) ==> Held(n, o, left, right, Start, Start, 0, 0)
  {
    if Fits(right, Start, 0) {
      forall left | ValidDocs(left, o, Start) && NonEmpty(left)
        ensures Held(n, o, left, right, Start, Start, 0, 0)
      {
        FitsHolds(n, o, left, right, Start, Start, Start, 0, 0);
      }
    } else {
      var left := MisfitBreaks(n, o, right, Start, 0);
    }
  }

  /** A descending list on which the merge does overrun: docid 1, then docid -2,
      which takes ten bytes although only four have been read. */
  lemma DescendingOverrun(n: nat)
    requires n > 0
    ensures var right := [Doc(1, [Column(0, [0])]), Doc(-2, [Column(0, [0])])];
            var left := [Doc(-2, [Column(0, [0])])];
            && ValidDocs(right, Order(true, -10), Start) && ValidDocs(left, Order(true, -10), Start)
            && !Held(n, Order(true, -10), left, right, Start, Start, 0, 0)
  {
    var o, one := Order(true, -10), [Column(0, [0])];
    var right := [Doc(1, one), Doc(-2, one)];
    assert right[1..] == [Doc(-2, one)];
    assert [Column(0, [0])][1..] == [];
    assert EncodePositions([0], -1) == Encode(2) + EncodePositions([], 0) == [2];
    assert ColumnHeader(0) == [];
    assert EncodeColumn(Column(0, [0])) == [2];
    assert EncodeColumns(one) == [2] + EncodeColumns([]) == [2];
    assert |EncodePoslist(one)| == 2;
    NegativeIsTenBytes(-2);
    assert |Encode(Stored(Start, 1))| == 1 && |Encode(Stored(After(1), -2))| == 1;
    assert !Held(n, o, [Doc(-2, one)], [Doc(-2, one)], After(1), Start, 0, 3);
  }

  // ---- the merge itself ----

  lemma WroteWrote(s0: seq<Byte>, s: seq<Byte>, t: seq<Byte>, w: seq<Byte>, e: seq<Byte>)
    requires Wrote(s0, s, 0, w) && Wrote(s, t, |w|, e)
    ensures Wrote(s0, t, 0, w + e)
  {
    assert t[..|w + e|] == t[..|w|] + t[|w|..|w| + |e|];
  }

  /** Both readers stand on the same document: its docid and the kept positions
      are written, or nothing when no position is kept. */
  method PhraseSameDoc(b: array<Byte>, q: nat, n: nat, desc: bool, a: seq<Byte>, p1: nat, p2: nat, i: Int64,
                       iPrev: int, started: bool,
                       ghost s0: seq<Byte>, ghost w: seq<Byte>, ghost s1: seq<Doc>, ghost s2: seq<Doc>,
                       ghost order: Order, ghost c1: Cursor, ghost c2: Cursor, ghost out: Cursor)
    returns (hit: bool, q': nat, q1: nat, q2: nat)
    requires n > 0 && order.desc == desc && q == |w| && Wrote(s0, b[..], 0, w)
    requires s1 != [] && s2 != [] && ValidDocs(s1, order, c1) && ValidDocs(s2, order, c2) && NonEmpty(s1) && NonEmpty(s2)
    requires Or.OnDoc(a, p1, true, i, s1) && Or.OnDoc(b[..], p2, true, i, s2)
    requires if started then out == After(iPrev) else out == Start && iPrev == 0
    requires order.Next(out, i) && q + |Encode(Stored(out, i))| <= p2
    modifies b
    ensures var cs := MergedColumns(Exact, n, s1[0].columns, s2[0].columns);
            var e := if cs == [] then [] else Encode(Stored(out, i)) + EncodePoslist(cs);
            && (hit <==> cs != []) && q' == |w + e| && Wrote(s0, b[..], 0, w + e)
    ensures Tail(a, q1, EncodeDocs(s1[1..], After(i))) && Tail(b[..], q2, EncodeDocs(s2[1..], After(i)))
  {
    hide Encode, EncodePoslist, EncodeDocs, Splice, Tail, Wrote, MergedColumns, ValidColumns, Stored;
    ghost var h := Encode(Stored(out, i));
    ghost var r1, r2 := EncodeDocs(s1[1..], After(i)), EncodeDocs(s2[1..], After(i));
    TailLength(b[..], p2, EncodePoslist(s2[0].columns) + r2);
    TailKept(b[..], q, h, p2, EncodePoslist(s2[0].columns) + r2);
    WroteMore(s0, b[..], 0, w, h);
    q' := Or.PutDeltaVarint3(b, q, desc, iPrev, started, i, order, out);
    ghost var mid := b[..];
    hit, q', q1, q2 := PoslistPhraseMerge(b, q', n, Exact, a, p1, b, p2, s1[0].columns, r1, s2[0].columns, r2);
    ghost var cs := MergedColumns(Exact, n, s1[0].columns, s2[0].columns);
    ghost var e := if hit then EncodePoslist(cs) else [];
    WroteWrote(s0, mid, b[..], w + h, e);
    Associative(w, h, e);
    if !hit {
      WroteLess(s0, b[..], 0, w, h + e);
      q' := q;
      assert w + [] == w;
    }
  }

  /** Bytes of the right-hand list before the document that the reader is on. */
  ghost predicate Offset(live: bool, p2: nat, s2: seq<Doc>, c2: Cursor, p: nat) {
    live ==> s2 != [] && p2 == p + |Encode(Stored(c2, s2[0].id))|
  }

  lemma HeldStep(n: nat, o: Order, left: seq<Doc>, right: seq<Doc>, c: Cursor, out: Cursor, q: nat, p: nat)
    requires Held(n, o, left, right, c, out, q, p) && left != [] && right != []
    ensures var id := right[0].id;
            var read := p + |Encode(Stored(c, id))|;
            var next := read + |EncodePoslist(right[0].columns)|;
            var cs := MergedColumns(Exact, n, left[0].columns, right[0].columns);
            if left[0].id == id then
              && q + |Encode(Stored(out, id))| <= read
              && Held(n, o, left[1..], right[1..], After(id), NextCursor(cs, id, out), Grown(cs, id, out, q), next)
            else if o.Before(left[0].id, id) then Held(n, o, left[1..], right, c, out, q, p)
            else Held(n, o, left, right[1..], After(id), out, q, next)
  {
  }

  /** Passes over the current document of a list. */
  method SkipDoc(a: seq<Byte>, p: nat, desc: bool, i: Int64, ghost ds: seq<Doc>, ghost o: Order, ghost c: Cursor)
    returns (live: bool, q: nat, j: int)
    requires ds != [] && ValidDocs(ds, o, c) && o.desc == desc && Or.OnDoc(a, p, true, i, ds)
    ensures Or.OnDoc(a, q, live, j, ds[1..])
    ensures live ==> q == p + |EncodePoslist(ds[0].columns)| + |Encode(Stored(After(i), ds[1].id))|
  {
    hide Encode, EncodePoslist, EncodeDocs, Tail, ValidColumns;
    var end := PoslistEnd(a, p, ds[0].columns, EncodeDocs(ds[1..], After(i)));
    live, q, j := NextDoc(a, end, desc, i, ds, o, c);
  }

  method NextDoc(a: seq<Byte>, p: nat, desc: bool, i: Int64, ghost ds: seq<Doc>, ghost o: Order, ghost c: Cursor)
    returns (live: bool, q: nat, j: int)
    requires ds != [] && i == ds[0].id && ValidDocs(ds, o, c) && o.desc == desc
    requires Tail(a, p, EncodeDocs(ds[1..], After(i)))
    ensures Or.OnDoc(a, q, live, j, ds[1..])
    ensures live ==> q == p + |Encode(Stored(After(i), ds[1].id))|
  {
    hide Encode, EncodePoslist, EncodeDocs, Tail, ValidColumns;
    live, q, j := Or.GetDeltaVarint3(a, p, desc, i, ds[1..], o, After(i));
    if live {
      Or.EncodeDocsCons(ds[1..], After(i));
      TailLength(a, p, EncodeDocs(ds[1..], After(i)));
      TailLength(a, q, EncodePoslist(ds[1..][0].columns) + EncodeDocs(ds[1..][1..], After(ds[1..][0].id)));
    }
  }

  method FirstDoc(a: seq<Byte>, ghost ds: seq<Doc>, ghost o: Order) returns (live: bool, q: nat, j: int)
    requires ValidDocs(ds, o, Start) && a == EncodeDocs(ds, Start)
    ensures Or.OnDoc(a, q, live, j, ds) && Offset(live, q, ds, Start, 0)
  {
    hide Encode, EncodePoslist, EncodeDocs, ValidColumns;
    live, q, j := Or.GetDeltaVarint3(a, 0, false, 0, ds, o, Start);
    if live { Or.EncodeDocsCons(ds, Start); }
  }

  lemma NoDocs()
    ensures EncodeDocs([], Start) == []
  {
  }

  lemma HeadFacts(ds: seq<Doc>, o: Order, c: Cursor)
    requires ValidDocs(ds, o, c) && NonEmpty(ds) && ds != []
    ensures o.Next(c, ds[0].id) && ValidDocs(ds[1..], o, After(ds[0].id)) && NonEmpty(ds[1..])
  {
  }

  lemma OnDocLength(a: seq<Byte>, p: nat, i: int, ds: seq<Doc>)
    requires Or.OnDoc(a, p, true, i, ds)
    ensures p + |EncodePoslist(ds[0].columns)| + |EncodeDocs(ds[1..], After(ds[0].id))| == |a|
  {
  }

  lemma NothingLeft(n: nat, left: seq<Doc>, right: seq<Doc>)
    requires left == [] || right == []
    ensures PhraseDocs(n, left, right) == []
  {
    NoLeft(n, right);
  }

  lemma WrotePrefix(s0: seq<Byte>, s: seq<Byte>, w: seq<Byte>)
    requires Wrote(s0, s, 0, w)
    ensures |w| <= |s| && s[..|w|] == w
  {
  }

  /** Keeps, in the buffer of the right-hand list, the positions that lie `n`
      after a position of the left-hand list; returns the new length. */
  method PhraseMerge(desc: bool, n: nat, a: seq<Byte>, b: array<Byte>,
                     ghost order: Order, ghost left: seq<Doc>, ghost right: seq<Doc>) returns (nOut: nat)
    requires n > 0 && order.desc == desc
    requires ValidDocs(left, order, Start) && NonEmpty(left) && a == EncodeDocs(left, Start)
    requires ValidDocs(right, order, Start) && NonEmpty(right) && b[..] == EncodeDocs(right, Start)
    requires Held(n, order, left, right, Start, Start, 0, 0)
    modifies b
    ensures nOut <= b.Length && b[..nOut] == EncodeDocs(PhraseDocs(n, left, right), Start)
  {
    hide Encode, EncodePoslist, EncodeDocs, Splice, Tail, Wrote, MergedColumns, ValidDocs, Stored, Held, Or.OnDoc, NonEmpty, PhraseDocs;
    ghost var s0 := b[..];
    ghost var s1: seq<Doc>, s2: seq<Doc>, out: seq<Doc>, c1, c2, p: nat := left, right, [], Start, Start, 0;
    Or.Whole(a);
    Or.Whole(b[..]);
    var live1, live2, p1: nat, p2: nat, i1: int, i2: int;
    live1, p1, i1 := FirstDoc(a, left, order);
    live2, p2, i2 := FirstDoc(b[..], right, order);
    var iPrev, started := 0, false;
    nOut := 0;
    WroteNothing(s0, 0);
    NoDocs();
    assert [] + PhraseDocs(n, left, right) == PhraseDocs(n, left, right);
    while live1 && live2
      invariant nOut == |EncodeDocs(out, Start)| && Wrote(s0, b[..], 0, EncodeDocs(out, Start))
      invariant if started then EndOf(out, Start) == After(iPrev) else EndOf(out, Start) == Start && iPrev == 0
      invariant ValidDocs(s1, order, c1) && NonEmpty(s1) && Or.OnDoc(a, p1, live1, i1, s1)
      invariant ValidDocs(s2, order, c2) && NonEmpty(s2) && Or.OnDoc(b[..], p2, live2, i2, s2)
      invariant started ==> c2.After? && order.Holds(c2.id) && order.Holds(iPrev) && !order.Before(c2.id, iPrev)
      invariant Offset(live2, p2, s2, c2, p)
      invariant Held(n, order, s1, s2, c2, EndOf(out, Start), nOut, p)
      invariant out + PhraseDocs(n, s1, s2) == PhraseDocs(n, left, right)
      decreases |s1| + |s2|
    {
      Or.Live(a, p1, live1, i1, s1);
      Or.Live(b[..], p2, live2, i2, s2);
      HeadFacts(s1, order, c1);
      HeadFacts(s2, order, c2);
      OnDocLength(b[..], p2, i2, s2);
      HeldStep(n, order, s1, s2, c2, EndOf(out, Start), nOut, p);
      DocScanStep(n, s1, s2, order, c1, c2);
      ghost var next := p2 + |EncodePoslist(s2[0].columns)|;
      var iDiff := (if desc then -1 else 1) * (i1 - i2);
      if iDiff == 0 {
        ghost var cs := MergedColumns(Exact, n, s1[0].columns, s2[0].columns);
        ghost var add := if cs == [] then [] else [Doc(i2, cs)];
        var hit;
        hit, nOut, p1, p2 := PhraseSameDoc(b, nOut, n, desc, a, p1, p2, i1, iPrev, started,
                                           s0, EncodeDocs(out, Start), s1, s2, order, c1, c2, EndOf(out, Start));
        if hit {
          EncodeDocsAppend(out, Doc(i2, cs), Start);
          iPrev, started := i1, true;
        } else {
          assert EncodeDocs(out, Start) + [] == EncodeDocs(out, Start);
        }
        Associative(out, add, PhraseDocs(n, s1[1..], s2[1..]));
        assert out + [] == out;
        out := out + add;
        live1, p1, i1 := NextDoc(a, p1, desc, i1, s1, order, c1);
        TailLength(b[..], p2, EncodeDocs(s2[1..], After(i2)));
        assert p2 == next;
        live2, p2, i2 := NextDoc(b[..], p2, desc, i2, s2, order, c2);
        c1, c2, p := After(s1[0].id), After(s2[0].id), next;
        s1, s2 := s1[1..], s2[1..];
      } else if iDiff < 0 {
        live1, p1, i1 := SkipDoc(a, p1, desc, i1, s1, order, c1);
        c1, s1 := After(s1[0].id), s1[1..];
      } else {
        live2, p2, i2 := SkipDoc(b[..], p2, desc, i2, s2, order, c2);
        c2, p, s2 := After(s2[0].id), next, s2[1..];
      }
      Or.Live(b[..], p2, live2, i2, s2);
    }
    Or.Live(a, p1, live1, i1, s1);
    Or.Live(b[..], p2, live2, i2, s2);
    NothingLeft(n, s1, s2);
    assert out + [] == out;
    WrotePrefix(s0, b[..], EncodeDocs(out, Start));
  }
}

/** The union of two doclists as an operation on their contents, and what it
    costs in bytes. */
module DoclistUnion {
  import opened Varint
  import opened Doclist

  ghost function MergePositions(a: seq<nat>, b: seq<nat>): seq<nat>
    decreases |a| + |b|
  {
    if a == [] then b
    else if b == [] then a
    else if a[0] == b[0] then [a[0]] + MergePositions(a[1..], b[1..])
    else if a[0] < b[0] then [a[0]] + MergePositions(a[1..], b)
    else [b[0]] + MergePositions(a, b[1..])
  }

  ghost function MergeColumns(a: seq<Column>, b: seq<Column>): seq<Column>
    decreases |a| + |b|
  {
    if a == [] then b
    else if b == [] then a
    else if a[0].index == b[0].index then
      [Column(a[0].index, MergePositions(a[0].positions, b[0].positions))] + MergeColumns(a[1..], b[1..])
    else if a[0].index < b[0].index then [a[0]] + MergeColumns(a[1..], b)
    else [b[0]] + MergeColumns(a, b[1..])
  }

  ghost function MergeDocs(o: Order, a: seq<Doc>, b: seq<Doc>): seq<Doc>
    decreases |a| + |b|
  {
    if a == [] then b
    else if b == [] then a
    else if a[0].id == b[0].id then
      [Doc(a[0].id, MergeColumns(a[0].columns, b[0].columns))] + MergeDocs(o, a[1..], b[1..])
    else if o.Before(a[0].id, b[0].id) then [a[0]] + MergeDocs(o, a[1..], b)
    else [b[0]] + MergeDocs(o, a, b[1..])
  }

  // ---- the union is well formed and holds exactly the contents of both ----

  lemma {:induction false} MergePositionsIsUnion(a: seq<nat>, b: seq<nat>, lo: int)
    requires Sorted(a, lo) && Sorted(b, lo)
    ensures Sorted(MergePositions(a, b), lo)
    ensures a != [] || b != [] ==> MergePositions(a, b) != []
    ensures forall p :: p in MergePositions(a, b) <==> p in a || p in b
    decreases |a| + |b|
  {
    if a != [] && b != [] {
      assert a == [a[0]] + a[1..] && b == [b[0]] + b[1..];
      if a[0] == b[0] {
        MergePositionsIsUnion(a[1..], b[1..], a[0]);
      } else if a[0] < b[0] {
        MergePositionsIsUnion(a[1..], b, a[0]);
      } else {
        MergePositionsIsUnion(a, b[1..], b[0]);
      }
    }
  }

  lemma {:induction false} MergeColumnsIsUnion(a: seq<Column>, b: seq<Column>, lo: int)
    requires ValidColumns(a, lo) && ValidColumns(b, lo)
    ensures ValidColumns(MergeColumns(a, b), lo)
    ensures ColumnHits(MergeColumns(a, b)) == ColumnHits(a) + ColumnHits(b)
    decreases |a| + |b|
  {
    if a != [] && b != [] {
      if a[0].index == b[0].index {
        MergePositionsIsUnion(a[0].positions, b[0].positions, -1);
        MergeColumnsIsUnion(a[1..], b[1..], a[0].index);
      } else if a[0].index < b[0].index {
        MergeColumnsIsUnion(a[1..], b, a[0].index);
      } else {
        MergeColumnsIsUnion(a, b[1..], b[0].index);
      }
    }
  }

  /** Docids and hits of the merge are the unions of those of its inputs, in
      strict cursor order. */
  lemma {:induction false} MergeDocsIsUnion(o: Order, a: seq<Doc>, b: seq<Doc>, c: Cursor)
    requires ValidDocs(a, o, c) && ValidDocs(b, o, c)
    ensures ValidDocs(MergeDocs(o, a, b), o, c)
    ensures Ids(MergeDocs(o, a, b)) == Ids(a) + Ids(b)
    ensures Hits(MergeDocs(o, a, b)) == Hits(a) + Hits(b)
    decreases |a| + |b|
  {
    hide Sorted, ValidColumn, ColumnHits, MergeColumns;
    if a != [] && b != [] {
      if a[0].id == b[0].id {
        MergeColumnsIsUnion(a[0].columns, b[0].columns, -1);
        MergeDocsIsUnion(o, a[1..], b[1..], After(a[0].id));
      } else if o.Before(a[0].id, b[0].id) {
        MergeDocsIsUnion(o, a[1..], b, After(a[0].id));
      } else {
        MergeDocsIsUnion(o, a, b[1..], After(b[0].id));
      }
    }
  }

  // ---- size ----

  lemma {:induction false} PositionsRebase(ps: seq<nat>, lo: int, lo': int)
    requires Sorted(ps, lo') && lo <= lo'
    ensures Sorted(ps, lo) && |EncodePositions(ps, lo')| <= |EncodePositions(ps, lo)|
  {
    if ps != [] { LengthMonotone(Distance(Base(lo'), ps[0]) + 2, Distance(Base(lo), ps[0]) + 2); }
  }

  lemma {:induction false} MergePositionsSize(a: seq<nat>, b: seq<nat>, lo: int, la: int, lb: int)
    requires Sorted(a, lo) && Sorted(b, lo) && la <= lo && lb <= lo
    ensures Sorted(MergePositions(a, b), lo) && Sorted(a, la) && Sorted(b, lb)
    ensures |EncodePositions(MergePositions(a, b), lo)| <= |EncodePositions(a, la)| + |EncodePositions(b, lb)|
    decreases |a| + |b|
  {
    MergePositionsIsUnion(a, b, lo);
    PositionsRebase(a, la, lo);
    PositionsRebase(b, lb, lo);
    if a != [] && b != [] {
      if a[0] == b[0] {
        MergePositionsSize(a[1..], b[1..], a[0], a[0], b[0]);
      } else if a[0] < b[0] {
        MergePositionsSize(a[1..], b, a[0], a[0], lb);
      } else {
        MergePositionsSize(a, b[1..], b[0], la, b[0]);
      }
    }
  }

  lemma {:induction false} MergeColumnsSize(a: seq<Column>, b: seq<Column>, lo: int)
    requires ValidColumns(a, lo) && ValidColumns(b, lo)
    ensures |EncodeColumns(MergeColumns(a, b))| <= |EncodeColumns(a)| + |EncodeColumns(b)|
    decreases |a| + |b|
  {
    if a != [] && b != [] {
      if a[0].index == b[0].index {
        MergePositionsSize(a[0].positions, b[0].positions, -1, -1, -1);
        MergeColumnsSize(a[1..], b[1..], a[0].index);
      } else if a[0].index < b[0].index {
        MergeColumnsSize(a[1..], b, a[0].index);
      } else {
        MergeColumnsSize(a, b[1..], b[0].index);
      }
    }
  }

  /** `c` is at or after `d` in cursor order. */
  ghost predicate Reached(o: Order, c: Cursor, d: Cursor) {
    d.Start? || (c.After? && !o.Before(c.id, d.id))
  }

  /** Bytes by which the first docid of a list may grow when it is stored as a
      distance from another list's docid. */
  function Slack(c: Cursor): nat { if c.Start? then VARINT_MAX - 2 else 0 }

  lemma StoredShrinks(o: Order, c: Cursor, d: Cursor, id: Int64)
    requires o.Next(c, id) && c.After? && Reached(o, c, d) && (d.After? ==> o.Holds(d.id))
    ensures o.Next(d, id)
    ensures |Encode(Stored(c, id))| <= |Encode(Stored(d, id))| + Slack(d)
  {
    StoredBounds(o, c, id);
    SizeBound(Stored(c, id));
    if d.After? { LengthMonotone(Stored(c, id), Stored(d, id)); }
  }

  lemma {:induction false} DocsRebase(ds: seq<Doc>, o: Order, c: Cursor, d: Cursor)
    requires ValidDocs(ds, o, c) && c.After? && Reached(o, c, d) && (d.After? ==> o.Holds(d.id))
    ensures ValidDocs(ds, o, d) && |EncodeDocs(ds, c)| <= |EncodeDocs(ds, d)| + Slack(d)
  {
    if ds != [] { StoredShrinks(o, c, d, ds[0].id); }
  }

  /** The rest of a merge, once the output has begun, against the rests of its
      inputs: only a list that has not been started can grow. */
  lemma {:induction false} MergeRestSize(o: Order, a: seq<Doc>, b: seq<Doc>, c: Cursor, ca: Cursor, cb: Cursor)
    requires c.After? && ValidDocs(a, o, c) && ValidDocs(b, o, c)
    requires Reached(o, c, ca) && (ca.After? ==> o.Holds(ca.id))
    requires Reached(o, c, cb) && (cb.After? ==> o.Holds(cb.id))
    ensures ValidDocs(MergeDocs(o, a, b), o, c) && ValidDocs(a, o, ca) && ValidDocs(b, o, cb)
    ensures |EncodeDocs(MergeDocs(o, a, b), c)|
         <= |EncodeDocs(a, ca)| + Slack(ca) + |EncodeDocs(b, cb)| + Slack(cb)
    decreases |a| + |b|
  {
    MergeDocsIsUnion(o, a, b, c);
    DocsRebase(a, o, c, ca);
    DocsRebase(b, o, c, cb);
    if a != [] && b != [] {
      if a[0].id == b[0].id {
        StoredShrinks(o, c, ca, a[0].id);
        MergeColumnsSize(a[0].columns, b[0].columns, -1);
        MergeRestSize(o, a[1..], b[1..], After(a[0].id), After(a[0].id), After(b[0].id));
      } else if o.Before(a[0].id, b[0].id) {
        StoredShrinks(o, c, ca, a[0].id);
        MergeRestSize(o, a[1..], b, After(a[0].id), After(a[0].id), cb);
      } else {
        StoredShrinks(o, c, cb, b[0].id);
        MergeRestSize(o, a, b[1..], After(b[0].id), ca, After(b[0].id));
      }
    }
  }

  /** The merged list needs at most VARINT_MAX - 1 bytes more than its inputs
      together: exactly one docid can grow, even when the first is negative. */
  lemma MergeDocsSize(o: Order, a: seq<Doc>, b: seq<Doc>)
    requires ValidDocs(a, o, Start) && ValidDocs(b, o, Start)
    ensures ValidDocs(MergeDocs(o, a, b), o, Start)
    ensures |EncodeDocs(MergeDocs(o, a, b), Start)|
          < |EncodeDocs(a, Start)| + |EncodeDocs(b, Start)| + VARINT_MAX - 1
  {
    MergeDocsIsUnion(o, a, b, Start);
    if a != [] && b != [] {
      if a[0].id == b[0].id {
        MergeColumnsSize(a[0].columns, b[0].columns, -1);
        MergeRestSize(o, a[1..], b[1..], After(a[0].id), After(a[0].id), After(b[0].id));
      } else if o.Before(a[0].id, b[0].id) {
        MergeRestSize(o, a[1..], b, After(a[0].id), After(a[0].id), Start);
      } else {
        MergeRestSize(o, a, b[1..], After(b[0].id), Start, After(b[0].id));
      }
    }
  }
}

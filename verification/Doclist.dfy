/** Document lists: what the FTS3 byte buffers mean, and how they are laid out.
    A doclist is a run of documents in docid order (ascending or descending);
    a document holds the positions of a term, column by column. */
module Doclist {
  import opened Varint

  const POS_END: Byte := 0
  const POS_COLUMN: Byte := 1
  /** Larger than any stored position or column number. */
  const POSITION_LIST_END := 0x7fff_ffff

  datatype Column = Column(index: nat, positions: seq<nat>)
  datatype Doc = Doc(id: Int64, columns: seq<Column>)

  /** A point between two documents of a list. */
  datatype Cursor = Start | After(id: int)

  /** How the docids of an index run: the direction, and a window of 2^63
      starting at `base` that holds them all, so that the difference of any two
      is an int64. */
  datatype Order = Order(desc: bool, base: int) {
    /** `a` is visited before `b`. */
    predicate Before(a: int, b: int) {
      if desc then b < a else a < b
    }

    predicate Holds(id: int) {
      base <= id < base + TWO_63
    }

    predicate Next(c: Cursor, id: int) {
      Holds(id) && (c.After? ==> Holds(c.id) && Before(c.id, id))
    }
  }

  // ---- well-formed lists ----

  /** Strictly increasing, everything above `lo`. */
  ghost predicate Sorted(ps: seq<nat>, lo: int) {
    ps == [] || (lo < ps[0] && ps[0] + 2 < POSITION_LIST_END && Sorted(ps[1..], ps[0]))
  }

  ghost predicate ValidColumn(c: Column) {
    c.index < POSITION_LIST_END && c.positions != [] && Sorted(c.positions, -1)
  }

  ghost predicate ValidColumns(cs: seq<Column>, lo: int) {
    cs == [] || (lo < cs[0].index && ValidColumn(cs[0]) && ValidColumns(cs[1..], cs[0].index))
  }

  ghost predicate ValidDocs(ds: seq<Doc>, o: Order, c: Cursor) {
    ds == [] || (o.Next(c, ds[0].id) && ValidColumns(ds[0].columns, -1) && ValidDocs(ds[1..], o, After(ds[0].id)))
  }

  // ---- layout ----

  function Distance(a: int, b: int): nat {
    if a < b then b - a else a - b
  }

  /** The value that position deltas are taken from. */
  function Base(lo: int): nat {
    if lo < 0 then 0 else lo
  }

  ghost function EncodePositions(ps: seq<nat>, lo: int): seq<Byte> {
    if ps == [] then [] else Encode(Distance(Base(lo), ps[0]) + 2) + EncodePositions(ps[1..], ps[0])
  }

  ghost function ColumnHeader(index: nat): seq<Byte> {
    if index == 0 then [] else [POS_COLUMN] + Encode(index)
  }

  ghost function EncodeColumn(c: Column): seq<Byte> {
    ColumnHeader(c.index) + EncodePositions(c.positions, -1)
  }

  /** The column-lists of a position-list, without its terminator. */
  ghost function EncodeColumns(cs: seq<Column>): seq<Byte> {
    if cs == [] then [] else EncodeColumn(cs[0]) + EncodeColumns(cs[1..])
  }

  ghost function EncodePoslist(cs: seq<Column>): seq<Byte> {
    EncodeColumns(cs) + [POS_END]
  }

  lemma EmptyPoslist()
    ensures EncodePoslist([]) == [POS_END]
  {
  }

  /** The number stored for a docid: itself when it opens the list, otherwise
      the distance from its predecessor. */
  ghost function Stored(c: Cursor, id: Int64): nat {
    match c
    case Start => ToUnsigned(id)
    case After(prev) => Distance(prev, id)
  }

  ghost function EncodeDocs(ds: seq<Doc>, c: Cursor): seq<Byte> {
    if ds == [] then []
    else Encode(Stored(c, ds[0].id)) + EncodePoslist(ds[0].columns) + EncodeDocs(ds[1..], After(ds[0].id))
  }

  lemma StoredBounds(o: Order, c: Cursor, id: Int64)
    requires o.Next(c, id)
    ensures Stored(c, id) < TWO_64 && (c.After? ==> 0 < Stored(c, id) < TWO_63)
  {
  }

  // ---- meaning ----

  /** The (column, position) pairs of a position-list. */
  ghost function ColumnHits(cs: seq<Column>): set<(nat, nat)> {
    if cs == [] then {} else (set p | p in cs[0].positions :: (cs[0].index, p)) + ColumnHits(cs[1..])
  }

  ghost function Ids(ds: seq<Doc>): set<int> {
    if ds == [] then {} else {ds[0].id} + Ids(ds[1..])
  }

  /** The (docid, column, position) triples of a doclist. */
  ghost function Hits(ds: seq<Doc>): set<(int, nat, nat)> {
    if ds == [] then {} else (set h | h in ColumnHits(ds[0].columns) :: (ds[0].id, h.0, h.1)) + Hits(ds[1..])
  }

  // ---- first bytes ----

  /** The first byte of a position is neither terminator. */
  lemma PositionsFirstByte(ps: seq<nat>, lo: int, rest: seq<Byte>)
    requires ps != []
    ensures var s := EncodePositions(ps, lo) + rest; s != [] && s[0] > 1
  {
    EncodeShape(Distance(Base(lo), ps[0]) + 2);
  }

  /** What stands first in a position-list: a terminator, a column header, or
      the positions of column 0. */
  lemma PoslistFirstByte(cs: seq<Column>, rest: seq<Byte>)
    requires cs != [] ==> cs[0].positions != []
    ensures var s := EncodePoslist(cs) + rest;
            && s != []
            && (cs == [] <==> s[0] == POS_END)
            && (cs != [] && cs[0].index != 0 <==> s[0] == POS_COLUMN)
  {
    if cs != [] {
      PoslistCons(cs, rest);
      if cs[0].index == 0 { PositionsFirstByte(cs[0].positions, -1, EncodePoslist(cs[1..]) + rest); }
    }
  }

  lemma EncodePoslistCons(cs: seq<Column>)
    requires cs != []
    ensures EncodePoslist(cs) == EncodeColumn(cs[0]) + EncodePoslist(cs[1..])
  {
    hide EncodeColumn;
    Associative(EncodeColumn(cs[0]), EncodeColumns(cs[1..]), [POS_END]);
  }

  lemma Associative<T>(a: seq<T>, b: seq<T>, c: seq<T>)
    ensures (a + b) + c == a + (b + c)
  {
  }

  lemma PoslistCons(cs: seq<Column>, rest: seq<Byte>)
    requires cs != []
    ensures EncodePoslist(cs) + rest
         == ColumnHeader(cs[0].index) + (EncodePositions(cs[0].positions, -1) + (EncodePoslist(cs[1..]) + rest))
  {
  }

  // ---- bounds on members ----

  lemma {:induction false} SortedMembers(ps: seq<nat>, lo: int)
    requires Sorted(ps, lo)
    ensures forall p :: p in ps ==> lo < p && p + 2 < POSITION_LIST_END
  {
    if ps != [] {
      SortedMembers(ps[1..], ps[0]);
      assert ps == [ps[0]] + ps[1..];
    }
  }

  lemma {:induction false} ColumnsMembers(cs: seq<Column>, lo: int)
    requires ValidColumns(cs, lo)
    ensures forall h :: h in ColumnHits(cs) ==> lo < h.0
  {
    if cs != [] { ColumnsMembers(cs[1..], cs[0].index); }
  }

  lemma {:induction false} DocsMembers(ds: seq<Doc>, o: Order, c: Cursor)
    requires ValidDocs(ds, o, c)
    ensures forall id :: id in Ids(ds) ==> o.Next(c, id)
    ensures forall h :: h in Hits(ds) ==> h.0 in Ids(ds)
  {
    if ds != [] { DocsMembers(ds[1..], o, After(ds[0].id)); }
  }

  // ---- appending documents ----

  ghost function EndOf(ds: seq<Doc>, c: Cursor): Cursor {
    if ds == [] then c else After(ds[|ds| - 1].id)
  }

  lemma {:induction false} EncodeDocsConcat(a: seq<Doc>, b: seq<Doc>, c: Cursor)
    ensures EncodeDocs(a + b, c) == EncodeDocs(a, c) + EncodeDocs(b, EndOf(a, c))
  {
    hide Encode, EncodePoslist;
    if a == [] {
      assert a + b == b;
    } else {
      assert (a + b)[1..] == a[1..] + b;
      EncodeDocsConcat(a[1..], b, After(a[0].id));
      Associative(Encode(Stored(c, a[0].id)) + EncodePoslist(a[0].columns), EncodeDocs(a[1..], After(a[0].id)),
                  EncodeDocs(b, EndOf(a, c)));
    }
  }

  lemma EncodeDocsAppend(ds: seq<Doc>, d: Doc, c: Cursor)
    ensures EncodeDocs(ds + [d], c)
         == EncodeDocs(ds, c) + (Encode(Stored(EndOf(ds, c), d.id)) + EncodePoslist(d.columns))
  {
    hide Encode, EncodePoslist;
    EncodeDocsConcat(ds, [d], c);
    assert [d][1..] == [];
    var e := Encode(Stored(EndOf(ds, c), d.id)) + EncodePoslist(d.columns);
    assert e + [] == e;
  }
}

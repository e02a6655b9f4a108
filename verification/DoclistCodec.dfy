/** The layout of a doclist can be read back in one way only. */
module DoclistCodec {
  import opened Varint
  import opened Doclist

  lemma {:induction false} PositionsUnique(a: seq<nat>, b: seq<nat>, lo: int, r1: seq<Byte>, r2: seq<Byte>)
    requires Sorted(a, lo) && Sorted(b, lo)
    requires r1 != [] && r1[0] <= 1 && r2 != [] && r2[0] <= 1
    requires EncodePositions(a, lo) + r1 == EncodePositions(b, lo) + r2
    ensures a == b && r1 == r2
    decreases |a|
  {
    hide Encode;
    if a == [] || b == [] {
      if a != [] { PositionsFirstByte(a, lo, r1); }
      if b != [] { PositionsFirstByte(b, lo, r2); }
      assert EncodePositions(a, lo) + r1 == r1 && EncodePositions(b, lo) + r2 == r2;
    } else {
      var u, w := Distance(Base(lo), a[0]) + 2, Distance(Base(lo), b[0]) + 2;
      var s, t := EncodePositions(a[1..], a[0]), EncodePositions(b[1..], b[0]);
      Associative(Encode(u), s, r1);
      Associative(Encode(w), t, r2);
      EncodeInjective(u, w, s + r1, t + r2);
      PositionsUnique(a[1..], b[1..], a[0], r1, r2);
      assert a == [a[0]] + a[1..] && b == [b[0]] + b[1..];
    }
  }

  lemma {:induction false} PoslistUnique(a: seq<Column>, b: seq<Column>, lo: int, r1: seq<Byte>, r2: seq<Byte>)
    requires ValidColumns(a, lo) && ValidColumns(b, lo)
    requires EncodePoslist(a) + r1 == EncodePoslist(b) + r2
    ensures a == b && r1 == r2
    decreases |a|
  {
    hide Encode, EncodePositions, EncodeColumns, EncodePoslist, Sorted;
    PoslistFirstByte(a, r1);
    PoslistFirstByte(b, r2);
    if a == [] {
      EmptyPoslist();
      assert r1 == (EncodePoslist(a) + r1)[1..] && r2 == (EncodePoslist(b) + r2)[1..];
    } else {
      PoslistCons(a, r1);
      PoslistCons(b, r2);
      var t1, t2 := EncodePoslist(a[1..]) + r1, EncodePoslist(b[1..]) + r2;
      HeaderUnique(a[0].index, b[0].index,
                   EncodePositions(a[0].positions, -1) + t1, EncodePositions(b[0].positions, -1) + t2);
      PoslistFirstByte(a[1..], r1);
      PoslistFirstByte(b[1..], r2);
      PositionsUnique(a[0].positions, b[0].positions, -1, t1, t2);
      PoslistUnique(a[1..], b[1..], a[0].index, r1, r2);
      assert a == [a[0]] + a[1..] && b == [b[0]] + b[1..];
    }
  }

  lemma HeaderUnique(i: nat, j: nat, t1: seq<Byte>, t2: seq<Byte>)
    requires ColumnHeader(i) + t1 == ColumnHeader(j) + t2
    requires i == 0 <==> j == 0
    ensures i == j && t1 == t2
  {
    hide Encode;
    if i == 0 {
      assert ColumnHeader(i) + t1 == t1 && ColumnHeader(j) + t2 == t2;
    } else {
      Associative([POS_COLUMN], Encode(i), t1);
      Associative([POS_COLUMN], Encode(j), t2);
      DropFirst(POS_COLUMN, Encode(i) + t1, Encode(j) + t2);
      EncodeInjective(i, j, t1, t2);
    }
  }

  lemma DropFirst(b: Byte, s: seq<Byte>, t: seq<Byte>)
    requires [b] + s == [b] + t
    ensures s == t
  {
    assert s == ([b] + s)[1..] && t == ([b] + t)[1..];
  }

  /** Equal buffers hold equal doclists. */
  lemma {:induction false} DocsUnique(a: seq<Doc>, b: seq<Doc>, o: Order, c: Cursor)
    requires ValidDocs(a, o, c) && ValidDocs(b, o, c)
    requires EncodeDocs(a, c) == EncodeDocs(b, c)
    ensures a == b
    decreases |a|
  {
    hide Encode, EncodePoslist, ValidColumns;
    if a != [] && b != [] {
      var s, t := EncodeDocs(a[1..], After(a[0].id)), EncodeDocs(b[1..], After(b[0].id));
      Associative(Encode(Stored(c, a[0].id)), EncodePoslist(a[0].columns), s);
      Associative(Encode(Stored(c, b[0].id)), EncodePoslist(b[0].columns), t);
      EncodeInjective(Stored(c, a[0].id), Stored(c, b[0].id),
                      EncodePoslist(a[0].columns) + s, EncodePoslist(b[0].columns) + t);
      PoslistUnique(a[0].columns, b[0].columns, -1, s, t);
      DocsUnique(a[1..], b[1..], o, After(a[0].id));
      assert a == [a[0]] + a[1..] && b == [b[0]] + b[1..];
    }
  }
}

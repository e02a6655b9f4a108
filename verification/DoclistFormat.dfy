/** The byte formats, and the meaning of doclists, spelled out. */
module DoclistFormat {
  import opened Varint
  import opened Doclist

  // ---- numbers ----

  /** The number without its `i` lowest groups of seven bits. */
  function Shifted(u: nat, i: nat): nat {
    if i == 0 then u else Shifted(u / 128, i - 1)
  }

  /** Byte `i` holds the `i`-th group of seven bits, the lowest first, and its high
      bit says whether another byte follows, which is so while anything is left. */
  lemma {:induction false} EncodeDigits(u: nat, i: nat)
    requires i < |Encode(u)|
    ensures Encode(u)[i] % 128 == Shifted(u, i) % 128
    ensures Encode(u)[i] >= 128 <==> i + 1 < |Encode(u)|
    ensures i + 1 < |Encode(u)| <==> Shifted(u, i) >= 128
    decreases i
  {
    if i > 0 { EncodeDigits(u / 128, i - 1); }
  }

  /** Some numbers as they are written. */
  lemma EncodeSamples()
    ensures Encode(0) == [0] && Encode(127) == [127] && Encode(128) == [128, 1] && Encode(300) == [172, 2]
    ensures ToUnsigned(-1) == 0xFFFF_FFFF_FFFF_FFFF && ToUnsigned(5) == 5
  {
    assert Encode(1) == [1] && Encode(2) == [2];
  }

  // ---- meaning, spelled out ----

  lemma {:induction false} ColumnHitsMean(cs: seq<Column>, k: nat, p: nat)
    ensures (k, p) in ColumnHits(cs) <==> exists j :: 0 <= j < |cs| && cs[j].index == k && p in cs[j].positions
  {
    if cs != [] {
      ColumnHitsMean(cs[1..], k, p);
      if j :| 0 <= j < |cs| && cs[j].index == k && p in cs[j].positions {
        if j > 0 { assert cs[1..][j - 1] == cs[j]; }
      }
      if j :| 0 <= j < |cs[1..]| && cs[1..][j].index == k && p in cs[1..][j].positions {
        assert cs[j + 1] == cs[1..][j];
      }
    }
  }

  /** A hit of a doclist is a position of a column of a document. */
  lemma {:induction false} HitsMean(ds: seq<Doc>, d: int, k: nat, p: nat)
    ensures (d, k, p) in Hits(ds) <==> exists i :: 0 <= i < |ds| && ds[i].id == d && (k, p) in ColumnHits(ds[i].columns)
  {
    hide ColumnHits;
    if ds != [] {
      HitsMean(ds[1..], d, k, p);
      if i :| 0 <= i < |ds| && ds[i].id == d && (k, p) in ColumnHits(ds[i].columns) {
        if i > 0 { assert ds[1..][i - 1] == ds[i]; }
      }
      if i :| 0 <= i < |ds[1..]| && ds[1..][i].id == d && (k, p) in ColumnHits(ds[1..][i].columns) {
        assert ds[i + 1] == ds[1..][i];
      }
    }
  }

  lemma {:induction false} IdsMean(ds: seq<Doc>, d: int)
    ensures d in Ids(ds) <==> exists i :: 0 <= i < |ds| && ds[i].id == d
  {
    if ds != [] {
      IdsMean(ds[1..], d);
      if i :| 0 <= i < |ds| && ds[i].id == d {
        if i > 0 { assert ds[1..][i - 1] == ds[i]; }
      }
      if i :| 0 <= i < |ds[1..]| && ds[1..][i].id == d {
        assert ds[i + 1] == ds[1..][i];
      }
    }
  }

  lemma TwoPositions(p: nat, q: nat)
    requires p < q && p + 2 < 128 && q - p + 2 < 128
    ensures EncodePositions([p, q], -1) == [p + 2, q - p + 2] && EncodePositions([p], -1) == [p + 2]
  {
    var ps: seq<nat> := [p, q];
    assert ps[1..] == [q] && ps[1..][1..] == [] && [p][1..] == [];
    assert Encode(p + 2) == [p + 2] && Encode(q - p + 2) == [q - p + 2];
    assert EncodePositions(ps[1..], p) == [q - p + 2];
  }

  lemma OneColumn(c: Column)
    ensures EncodeColumns([c]) == EncodeColumn(c) && EncodePoslist([c]) == EncodeColumn(c) + [0]
  {
    assert [c][1..] == [];
  }

  lemma TwoColumns(c: Column, d: Column)
    ensures EncodePoslist([c, d]) == EncodeColumn(c) + EncodeColumn(d) + [0]
  {
    hide EncodeColumn;
    assert [c, d][1..] == [d];
    OneColumn(d);
  }

  lemma TwoDocs(d: Doc, e: Doc)
    ensures EncodeDocs([d, e], Start)
         == Encode(Stored(Start, d.id)) + EncodePoslist(d.columns) + (Encode(Stored(After(d.id), e.id)) + EncodePoslist(e.columns))
  {
    hide Encode, EncodePoslist, Stored;
    assert [d, e][1..] == [e] && [e][1..] == [];
    assert EncodeDocs([e], After(d.id)) == Encode(Stored(After(d.id), e.id)) + EncodePoslist(e.columns) + [];
  }

  /** The example given with the format: 123 with positions 3 and 10 in column 0 and
      12 and 45 in column 1, and 357 with position 70. */
  lemma DocumentedExample()
    ensures EncodeDocs([Doc(123, [Column(0, [3, 10]), Column(1, [12, 45])]), Doc(357, [Column(0, [70])])], Start)
         == [123, 5, 9, 1, 1, 14, 35, 0, 234, 1, 72, 0]
  {
    var c0, c1, c2 := Column(0, [3, 10]), Column(1, [12, 45]), Column(0, [70]);
    TwoPositions(3, 10);
    TwoPositions(12, 45);
    TwoPositions(70, 71);
    assert Encode(1) == [1] && Encode(123) == [123] && Encode(234) == [234, 1];
    hide Encode, EncodePositions, EncodePoslist, EncodeDocs, EncodeColumns;
    assert EncodeColumn(c0) == [5, 9] && EncodeColumn(c1) == [1, 1, 14, 35] && EncodeColumn(c2) == [72];
    TwoColumns(c0, c1);
    OneColumn(c2);
    hide EncodeColumn;
    TwoDocs(Doc(123, [c0, c1]), Doc(357, [c2]));
  }
}

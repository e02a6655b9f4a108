/** Iterating over a doclist forwards and backwards. */
module DoclistIterate {
  import opened Varint
  import opened Doclist
  import opened DoclistScan
  import opened DoclistPhrase
  import Or = DoclistOrMerge

  /** Offset of the `k`-th document, of its position-list, and of its end. */
  ghost function DocStart(ds: seq<Doc>, k: nat): nat
    requires k <= |ds|
  {
    |EncodeDocs(ds[..k], Start)|
  }

  ghost function ListStart(ds: seq<Doc>, k: nat): nat
    requires k < |ds|
  {
    DocStart(ds, k) + |Encode(Stored(EndOf(ds[..k], Start), ds[k].id))|
  }

  /** What a full traversal visits: each docid with the offset of its
      position-list. */
  ghost function Entries(ds: seq<Doc>): seq<(int, nat)> {
    seq(|ds|, k requires 0 <= k < |ds| => (ds[k].id as int, ListStart(ds, k)))
  }

  ghost predicate ValidList(a: seq<Byte>, ds: seq<Doc>, o: Order) {
    ValidDocs(ds, o, Start) && NonEmpty(ds) && a == EncodeDocs(ds, Start)
  }

  // ---- taking a list apart at a document ----

  lemma SplitAt(ds: seq<Doc>, k: nat)
    requires k < |ds|
    ensures var front, d := EncodeDocs(ds[..k], Start), ds[k];
            (EncodeDocs(ds, Start)
             == front + (Encode(Stored(EndOf(ds[..k], Start), d.id))
                         + (EncodePoslist(d.columns) + EncodeDocs(ds[k + 1..], After(d.id)))))
  {
    hide Encode, EncodePoslist;
    assert ds == ds[..k] + ds[k..];
    EncodeDocsConcat(ds[..k], ds[k..], Start);
    Or.EncodeDocsCons(ds[k..], EndOf(ds[..k], Start));
    assert ds[k..][0] == ds[k] && ds[k..][1..] == ds[k + 1..];
  }

  lemma DocEnd(ds: seq<Doc>, k: nat)
    requires k < |ds|
    ensures DocStart(ds, k + 1) == ListStart(ds, k) + |EncodePoslist(ds[k].columns)|
    ensures DocStart(ds, |ds|) == |EncodeDocs(ds, Start)|
  {
    hide Encode, EncodePoslist;
    assert ds[..k + 1] == ds[..k] + [ds[k]];
    EncodeDocsAppend(ds[..k], ds[k], Start);
    assert ds[..|ds|] == ds;
  }

  lemma {:induction false} ValidAt(ds: seq<Doc>, o: Order, c: Cursor, k: nat)
    requires ValidDocs(ds, o, c) && NonEmpty(ds) && k < |ds|
    ensures o.Next(EndOf(ds[..k], c), ds[k].id) && ValidColumns(ds[k].columns, -1) && ds[k].columns != []
    ensures ValidDocs(ds[k..], o, EndOf(ds[..k], c))
    decreases k
  {
    if k == 0 {
      assert ds[..k] == [] && ds[k..] == ds;
    } else {
      ValidAt(ds[1..], o, After(ds[0].id), k - 1);
      assert ds[1..][..k - 1] == ds[1..k] && ds[1..][k - 1..] == ds[k..];
      assert EndOf(ds[..k], c) == EndOf(ds[1..k], After(ds[0].id));
    }
  }

  // ---- forwards ----

  datatype Iter = Fresh | At(p: nat)

  /** The iterator stands on document `k`. */
  ghost predicate On(ds: seq<Doc>, k: nat, it: Iter, docid: int) {
    k < |ds| && it == At(ListStart(ds, k)) && docid == ds[k].id
  }

  /** Moves to the next document, or to the first. */
  method DoclistNext(desc: bool, a: seq<Byte>, it: Iter, docid: int, ghost ds: seq<Doc>, ghost o: Order, ghost k: nat)
    returns (it': Iter, docid': int, eof: bool)
    requires ValidList(a, ds, o) && o.desc == desc && a != []
    requires if it == Fresh then docid == 0 else On(ds, k, it, docid)
    ensures it == Fresh ==> !eof && On(ds, 0, it', docid')
    ensures it != Fresh ==> eof == (k + 1 == |ds|) && (!eof ==> On(ds, k + 1, it', docid'))
  {
    hide Encode, EncodePoslist, EncodeDocs, ValidDocs, NonEmpty, Tail;
    SomeDoc(ds);
    Or.Whole(a);
    if it == Fresh {
      ValidAt(ds, o, Start, 0);
      SplitAt(ds, 0);
      StoredBounds(o, Start, ds[0].id);
      NoFront(ds);
      var v, q := ReadVarint(a, 0, Stored(Start, ds[0].id), EncodePoslist(ds[0].columns) + EncodeDocs(ds[1..], After(ds[0].id)));
      it', docid', eof := At(q), v, false;
    } else {
      SplitAt(ds, k);
      DocEnd(ds, k);
      ghost var rest := EncodeDocs(ds[k + 1..], After(ds[k].id));
      ghost var e, l := Encode(Stored(EndOf(ds[..k], Start), ds[k].id)), EncodePoslist(ds[k].columns);
      TailDrop(a, 0, EncodeDocs(ds[..k], Start), e + (l + rest));
      TailDrop(a, DocStart(ds, k), e, l + rest);
      var p := PoslistEnd(a, it.p, ds[k].columns, rest);
      EndReached(a, p, ds, k);
      if p >= |a| {
        it', docid', eof := At(p), docid, true;
      } else {
        ValidAt(ds, o, Start, k + 1);
        assert ds[..k + 1] == ds[..k] + [ds[k]];
        StoredBounds(o, After(ds[k].id), ds[k + 1].id);
        ghost var tail := EncodePoslist(ds[k + 1].columns) + EncodeDocs(ds[k + 2..], After(ds[k + 1].id));
        Or.EncodeDocsCons(ds[k + 1..], After(ds[k].id));
        assert ds[k + 1..][0] == ds[k + 1] && ds[k + 1..][1..] == ds[k + 2..];
        var v, q := ReadVarint(a, p, Stored(After(ds[k].id), ds[k + 1].id), tail);
        it', docid', eof := At(q), docid + (if desc then -1 else 1) * v, false;
      }
    }
  }

  lemma NoFront(ds: seq<Doc>)
    requires ds != []
    ensures EncodeDocs(ds[..0], Start) == [] && EndOf(ds[..0], Start) == Start && DocStart(ds, 0) == 0
    ensures forall s: seq<Byte> :: [] + s == s
  {
    assert ds[..0] == [];
  }

  lemma EndReached(a: seq<Byte>, p: nat, ds: seq<Doc>, k: nat)
    requires k < |ds| && Tail(a, p, EncodeDocs(ds[k + 1..], After(ds[k].id)))
    ensures p >= |a| <==> k + 1 == |ds|
  {
    var rest := ds[k + 1..];
    assert rest != [] ==> |EncodeDocs(rest, After(ds[k].id))| > 0;
  }

  // ---- backwards ----

  /** No byte of `s` but the first ends a position-list: a zero byte is the
      tail of a longer number. */
  ghost predicate NoEnd(s: seq<Byte>) {
    forall j :: 1 <= j < |s| ==> s[j] != 0 || s[j - 1] >= 128
  }

  lemma {:induction false} StopFreeNoEnd(s: seq<Byte>, c: bool)
    requires StopFree(s, c, 0)
    ensures NoEnd(s) && (!c && s != [] ==> s[0] != 0)
    ensures s != [] ==> s[|s| - 1] < 128
  {
    if |s| > 1 { StopFreeNoEnd(s[1..], s[0] >= 128); }
  }

  /** A docid and the column-lists after it, up to the terminator. */
  lemma DocBody(u: nat, cs: seq<Column>)
    requires cs != [] && ValidColumns(cs, -1)
    ensures var s := Encode(u) + EncodeColumns(cs);
            |EncodeColumns(cs)| >= 1 && |s| >= 2 && NoEnd(s) && 0 < s[|s| - 1] < 128
  {
    hide EncodePositions;
    var t, s := EncodeColumns(cs), Encode(u) + EncodeColumns(cs);
    ColumnsStopFree(cs);
    StopFreeNoEnd(t, false);
    ColumnsLastByte(cs, -1);
    EncodeShape(u);
    if u > 0 {
      EncodeStopFree(u, false, 0);
      StopFreeConcat(Encode(u), false, t, 0);
      StopFreeNoEnd(s, false);
    }
    assert s[|s| - 1] == t[|t| - 1];
  }

  lemma {:induction false} PositionsLastByte(ps: seq<nat>, lo: int)
    requires ps != []
    ensures var s := EncodePositions(ps, lo); s != [] && s[|s| - 1] > 0
  {
    EncodeShape(Distance(Base(lo), ps[0]) + 2);
    if |ps| > 1 { PositionsLastByte(ps[1..], ps[0]); }
  }

  lemma {:induction false} ColumnsLastByte(cs: seq<Column>, lo: int)
    requires cs != [] && ValidColumns(cs, lo)
    ensures var s := EncodeColumns(cs); s != [] && s[|s| - 1] > 0
  {
    hide Encode, EncodePositions;
    PositionsLastByte(cs[0].positions, -1);
    if |cs| > 1 { ColumnsLastByte(cs[1..], cs[0].index); }
  }

  /** What precedes the terminator of a non-empty list of documents. */
  lemma FrontEnd(ds: seq<Doc>, o: Order)
    requires ValidDocs(ds, o, Start) && NonEmpty(ds) && ds != []
    ensures var s := EncodeDocs(ds, Start); |s| >= 3 && s[|s| - 1] == 0 && 0 < s[|s| - 2] < 128
  {
    hide Encode, EncodeColumns, EncodeDocs, ValidDocs, NonEmpty, ValidColumns, NoEnd;
    var n := |ds| - 1;
    var u, cs := Stored(EndOf(ds[..n], Start), ds[n].id), ds[n].columns;
    ValidAt(ds, o, Start, n);
    DocBody(u, cs);
    EncodeDocsAppend(ds[..n], ds[n], Start);
    assert ds == ds[..n] + [ds[n]];
    Associative(Encode(u), EncodeColumns(cs), [POS_END]);
    LastTwo(EncodeDocs(ds[..n], Start), Encode(u) + EncodeColumns(cs));
  }

  lemma LastTwo(f: seq<Byte>, b: seq<Byte>)
    requires |b| >= 2
    ensures var s := f + (b + [POS_END]); |s| >= 3 && s[|s| - 1] == 0 && s[|s| - 2] == b[|b| - 1]
  {
  }

  /** In the bytes of a list: a document starts at `n`, its docid takes `h`
      bytes, and `p` is the offset just after its position-list. */
  ghost predicate DocAt(a: seq<Byte>, n: nat, h: nat, p: nat) {
    && 1 <= h && n + h + 2 <= p <= |a|
    && (forall j :: n <= j < n + h - 1 ==> a[j] >= 128)
    && a[n + h - 1] < 128
    && (forall j :: n < j < p - 1 ==> a[j] != 0 || a[j - 1] >= 128)
    && 0 < a[p - 2] < 128
    && (n > 0 ==> n >= 3 && a[n] != 0 && a[n - 1] == 0 && 0 < a[n - 2] < 128)
  }

  lemma FindsDoc(ds: seq<Doc>, o: Order, k: nat)
    requires ValidDocs(ds, o, Start) && NonEmpty(ds) && k < |ds|
    ensures DocAt(EncodeDocs(ds, Start), DocStart(ds, k), ListStart(ds, k) - DocStart(ds, k), DocStart(ds, k + 1))
  {
    hide EncodeColumns, EncodeDocs, ValidDocs, NonEmpty, ValidColumns, Encode, DocAt;
    var a, n := EncodeDocs(ds, Start), DocStart(ds, k);
    var u, cs := Stored(EndOf(ds[..k], Start), ds[k].id), ds[k].columns;
    var front, rest := EncodeDocs(ds[..k], Start), EncodeDocs(ds[k + 1..], After(ds[k].id));
    ValidAt(ds, o, Start, k);
    SplitAt(ds, k);
    DocEnd(ds, k);
    DocBody(u, cs);
    EncodeShape(u);
    FirstByteNonZero(u);
    if k > 0 {
      StoredBounds(o, EndOf(ds[..k], Start), ds[k].id);
      ValidFront(ds, o, Start, k);
      FrontEnd(ds[..k], o);
    } else {
      NoFront(ds);
    }
    Associative(Encode(u), EncodeColumns(cs), [POS_END]);
    Associative(Encode(u) + EncodeColumns(cs), [POS_END], rest);
    Associative(Encode(u), EncodePoslist(cs), rest);
    DocBytes(front, Encode(u), EncodeColumns(cs), rest);
  }

  /** Reads off the byte facts from the parts. */
  lemma DocBytes(front: seq<Byte>, e: seq<Byte>, t: seq<Byte>, rest: seq<Byte>)
    requires |e| >= 1 && |t| >= 1 && NoEnd(e + t) && 0 < (e + t)[|e + t| - 1] < 128
    requires (forall i :: 0 <= i < |e| - 1 ==> e[i] >= 128) && e[|e| - 1] < 128
    requires front != [] ==> e[0] > 0 && |front| >= 3 && front[|front| - 1] == 0 && 0 < front[|front| - 2] < 128
    ensures DocAt(front + ((e + t) + ([POS_END] + rest)), |front|, |e|, |front| + |e| + |t| + 1)
  {
    var n, b, a := |front|, e + t, front + ((e + t) + ([POS_END] + rest));
    assert forall j :: n <= j < n + |b| ==> a[j] == b[j - n];
    assert forall j :: n <= j < n + |e| ==> a[j] == e[j - n];
    assert forall j :: 0 <= j < n ==> a[j] == front[j];
  }

  lemma {:induction false} ValidFront(ds: seq<Doc>, o: Order, c: Cursor, k: nat)
    requires ValidDocs(ds, o, c) && NonEmpty(ds) && k <= |ds|
    ensures ValidDocs(ds[..k], o, c) && NonEmpty(ds[..k])
    decreases k
  {
    if k > 0 {
      ValidFront(ds[1..], o, After(ds[0].id), k - 1);
      assert ds[..k][1..] == ds[1..][..k - 1];
    }
  }

  lemma FirstByteNonZero(u: nat)
    ensures u > 0 ==> Encode(u)[0] > 0
  {
  }

  /** Steps back over the number that ends at `p`. */
  method GetReverseVarint(a: seq<Byte>, p: nat, ghost n: nat, ghost u: nat, ghost rest: seq<Byte>)
    returns (q: nat, v: Int64)
    requires u < TWO_64 && Tail(a, n, Encode(u) + rest) && p == n + |Encode(u)|
    requires (forall j :: n <= j < p - 1 ==> a[j] >= 128) && (n > 0 ==> a[n - 1] < 128)
    ensures q == n && ToUnsigned(v) == u && (u < TWO_63 ==> v == u)
  {
    hide Encode, Tail;
    TailLength(a, n, Encode(u) + rest);
    var r: int := p - 2;
    while r >= 0 && a[r] >= 128
      invariant n - 1 <= r <= p - 2
    {
      r := r - 1;
    }
    q := r + 1;
    var e;
    v, e := ReadVarint(a, q, u, rest);
  }

  /** From the byte after a position-list to the list's first byte. */
  method ReversePoslist(a: seq<Byte>, p: nat, ghost n: nat, ghost h: nat) returns (q: nat)
    requires DocAt(a, n, h, p)
    ensures q == n + h
  {
    var r: int := p - 2;
    var c: Byte := 0;
    while r > 0 && c == 0
      invariant if c == 0 then r == p - 2 else r == p - 3 && c == a[r + 1]
      decreases r
    {
      c := a[r];
      r := r - 1;
    }
    while r > 0 && (a[r] >= 128 || c != 0)
      invariant 0 <= r && n - 2 <= r <= p - 3 && c == a[r + 1]
    {
      c := a[r];
      r := r - 1;
    }
    if r > 0 {
      r := r + 2;
    }
    q := r;
    while a[q] >= 128
      invariant n <= q < n + h
      decreases n + h - q
    {
      q := q + 1;
    }
    q := q + 1;
  }

  /** Passes over padding. */
  method SkipZeros(a: seq<Byte>, p: nat) returns (q: nat)
    requires p <= |a|
    ensures p <= q <= |a| && (forall j :: p <= j < q ==> a[j] == 0) && (q < |a| ==> a[q] != 0)
  {
    q := p;
    while q < |a| && a[q] == 0
      invariant p <= q <= |a| && forall j :: p <= j < q ==> a[j] == 0
    {
      q := q + 1;
    }
  }

  /** Scans the whole list for its last document. */
  method LastDoc(desc: bool, a: seq<Byte>, ghost ds: seq<Doc>, ghost o: Order) returns (next: nat, iDocid: int)
    requires ValidList(a, ds, o) && o.desc == desc && a != []
    ensures ds != [] && On(ds, |ds| - 1, At(next), iDocid)
  {
    hide Encode, EncodePoslist, EncodeDocs, ValidDocs, NonEmpty, Tail, ListStart;
    SomeDoc(ds);
    NoFront(ds);
    Or.Whole(a);
    AllDocs(ds);
    next, iDocid := 0, 0;
    var pDocid, iMul := 0, 1;
    ghost var i := 0;
    while pDocid < |a|
      invariant i <= |ds| && pDocid == DocStart(ds, i)
      invariant Tail(a, pDocid, EncodeDocs(ds[i..], EndOf(ds[..i], Start)))
      invariant if i == 0 then iDocid == 0 && iMul == 1 else iMul == (if desc then -1 else 1) && On(ds, i - 1, At(next), iDocid)
      decreases |ds| - i
    {
      TailLength(a, pDocid, EncodeDocs(ds[i..], EndOf(ds[..i], Start)));
      SomeDocFrom(ds[i..], EndOf(ds[..i], Start));
      iDocid, next, pDocid := ScanDoc(a, pDocid, iDocid, iMul, ds, o, i);
      i := i + 1;
      AllOf(ds);
      if pDocid < |a| { NoPadding(a, pDocid, ds, o, i); }
      DocEndBound(ds, i);
      pDocid := SkipZeros(a, pDocid);
      iMul := if desc then -1 else 1;
    }
    if i < |ds| {
      TailLength(a, pDocid, EncodeDocs(ds[i..], EndOf(ds[..i], Start)));
      SomeBytes(ds[i..], EndOf(ds[..i], Start));
    }
  }

  lemma AllDocs(ds: seq<Doc>)
    ensures ds[0..] == ds
  {
  }

  lemma SomeDocFrom(ds: seq<Doc>, c: Cursor)
    requires |EncodeDocs(ds, c)| > 0
    ensures ds != []
  {
  }

  lemma SomeBytes(ds: seq<Doc>, c: Cursor)
    requires ds != []
    ensures |EncodeDocs(ds, c)| > 0
  {
  }

  /** The next docid starts with a non-zero byte. */
  lemma NoPadding(a: seq<Byte>, p: nat, ds: seq<Doc>, o: Order, i: nat)
    requires ValidList(a, ds, o) && 0 < i <= |ds| && p == DocStart(ds, i) < |a|
    ensures a[p] != 0
  {
    hide Encode, EncodePoslist, EncodeDocs, ValidDocs, NonEmpty, ListStart;
    AllOf(ds);
    StartIsZero(ds, i);
    FindsDoc(ds, o, i);
  }

  lemma DocEndBound(ds: seq<Doc>, i: nat)
    requires i <= |ds|
    ensures DocStart(ds, i) <= |EncodeDocs(ds, Start)|
  {
    assert ds == ds[..i] + ds[i..];
    EncodeDocsConcat(ds[..i], ds[i..], Start);
  }

  lemma AllOf(ds: seq<Doc>)
    ensures DocStart(ds, |ds|) == |EncodeDocs(ds, Start)|
  {
    assert ds[..|ds|] == ds;
  }

  /** Reads the docid of document `i` and passes over its position-list. */
  method ScanDoc(a: seq<Byte>, p: nat, docid: int, iMul: int, ghost ds: seq<Doc>, ghost o: Order, ghost i: nat)
    returns (docid': int, list: nat, q: nat)
    requires ValidList(a, ds, o) && i < |ds| && p == DocStart(ds, i)
    requires if i == 0 then docid == 0 && iMul == 1 else docid == ds[i - 1].id && iMul == if o.desc then -1 else 1
    requires Tail(a, p, EncodeDocs(ds[i..], EndOf(ds[..i], Start)))
    ensures On(ds, i, At(list), docid') && q == DocStart(ds, i + 1)
    ensures Tail(a, q, EncodeDocs(ds[i + 1..], EndOf(ds[..i + 1], Start)))
  {
    hide Encode, EncodePoslist, EncodeDocs, ValidDocs, NonEmpty, Tail;
    ghost var c, u := EndOf(ds[..i], Start), Stored(EndOf(ds[..i], Start), ds[i].id);
    ValidAt(ds, o, Start, i);
    StoredBounds(o, c, ds[i].id);
    Or.EncodeDocsCons(ds[i..], c);
    assert ds[i..][0] == ds[i] && ds[i..][1..] == ds[i + 1..];
    assert ds[..i + 1] == ds[..i] + [ds[i]];
    DocEnd(ds, i);
    var v;
    v, list := ReadVarint(a, p, u, EncodePoslist(ds[i].columns) + EncodeDocs(ds[i + 1..], After(ds[i].id)));
    docid' := docid + iMul * v;
    q := PoslistEnd(a, list, ds[i].columns, EncodeDocs(ds[i + 1..], After(ds[i].id)));
  }

  /** Moves to the previous document, or to the last. */
  method DoclistPrev(desc: bool, a: seq<Byte>, it: Iter, docid: int, ghost ds: seq<Doc>, ghost o: Order, ghost k: nat)
    returns (it': Iter, docid': int, nList: nat, eof: bool)
    requires ValidList(a, ds, o) && o.desc == desc && a != []
    requires if it == Fresh then docid == 0 else On(ds, k, it, docid)
    ensures it == Fresh ==> !eof && On(ds, |ds| - 1, it', docid') && nList == |EncodePoslist(ds[|ds| - 1].columns)|
    ensures it != Fresh ==> eof == (k == 0)
    ensures it != Fresh && !eof ==> On(ds, k - 1, it', docid') && nList == |EncodePoslist(ds[k - 1].columns)|
  {
    hide Encode, EncodePoslist, EncodeDocs, ValidDocs, NonEmpty, Tail, DocAt, ListStart;
    if it == Fresh {
      var next;
      next, docid' := LastDoc(desc, a, ds, o);
      DocEnd(ds, |ds| - 1);
      it', nList, eof := At(next), |a| - next, false;
    } else {
      var q, v := PreviousDocid(a, it.p, ds, o, k);
      docid' := docid - (if desc then -1 else 1) * (v as int);
      it', nList, eof := At(q), 0, q == 0;
      StartIsZero(ds, k);
      if !eof {
        FindsDoc(ds, o, k - 1);
        DocEnd(ds, k - 1);
        ListAfterDoc(ds, k - 1);
        var start := ReversePoslist(a, q, DocStart(ds, k - 1), ListStart(ds, k - 1) - DocStart(ds, k - 1));
        it', nList := At(start), q - start;
      }
    }
  }

  lemma ListAfterDoc(ds: seq<Doc>, k: nat)
    requires k < |ds|
    ensures DocStart(ds, k) <= ListStart(ds, k)
  {
  }

  /** Steps back from a position-list to the docid before it. */
  method PreviousDocid(a: seq<Byte>, p: nat, ghost ds: seq<Doc>, ghost o: Order, ghost k: nat) returns (q: nat, v: Int64)
    requires ValidList(a, ds, o) && k < |ds| && p == ListStart(ds, k)
    ensures q == DocStart(ds, k)
    ensures k > 0 ==> v == if o.desc then ds[k - 1].id - ds[k].id else ds[k].id - ds[k - 1].id
  {
    hide Encode, EncodePoslist, EncodeDocs, ValidDocs, NonEmpty, Tail;
    ghost var u := Stored(EndOf(ds[..k], Start), ds[k].id);
    ghost var rest := EncodePoslist(ds[k].columns) + EncodeDocs(ds[k + 1..], After(ds[k].id));
    ValidAt(ds, o, Start, k);
    StoredBounds(o, EndOf(ds[..k], Start), ds[k].id);
    SplitAt(ds, k);
    Or.Whole(a);
    TailDrop(a, 0, EncodeDocs(ds[..k], Start), Encode(u) + rest);
    FindsDoc(ds, o, k);
    q, v := GetReverseVarint(a, p, DocStart(ds, k), u, rest);
  }

  lemma SomeDoc(ds: seq<Doc>)
    ensures EncodeDocs(ds, Start) != [] ==> ds != []
  {
  }

  lemma StartIsZero(ds: seq<Doc>, k: nat)
    requires k < |ds|
    ensures DocStart(ds, k) == 0 <==> k == 0
  {
    assert ds[..k] == [] <==> k == 0;
  }

  // ---- whole traversals ----

  /** Forwards from a fresh iterator to the end: every entry, in list order. */
  method TraverseForward(desc: bool, a: seq<Byte>, ghost ds: seq<Doc>, ghost o: Order) returns (visited: seq<(int, nat)>)
    requires ValidList(a, ds, o) && o.desc == desc && a != []
    ensures visited == Entries(ds)
  {
    hide EncodeDocs, ValidDocs, NonEmpty, ListStart;
    visited := [];
    SomeDoc(ds);
    var it, docid, eof := DoclistNext(desc, a, Fresh, 0, ds, o, 0);
    while !eof
      invariant |visited| <= |ds| && visited == Entries(ds)[..|visited|]
      invariant if eof then |visited| == |ds| else On(ds, |visited|, it, docid)
      decreases |ds| - |visited|, !eof
    {
      ghost var k := |visited|;
      visited := visited + [(docid, it.p)];
      it, docid, eof := DoclistNext(desc, a, it, docid, ds, o, k);
    }
  }

  ghost function Reversed<T>(s: seq<T>): seq<T> {
    seq(|s|, i requires 0 <= i < |s| => s[|s| - 1 - i])
  }

  /** Backwards from a fresh iterator to the end: the same entries, reversed. */
  method TraverseBackward(desc: bool, a: seq<Byte>, ghost ds: seq<Doc>, ghost o: Order) returns (visited: seq<(int, nat)>)
    requires ValidList(a, ds, o) && o.desc == desc && a != []
    ensures visited == Reversed(Entries(ds))
  {
    hide EncodeDocs, ValidDocs, NonEmpty, ListStart;
    visited := [];
    SomeDoc(ds);
    var it, docid, nList, eof := DoclistPrev(desc, a, Fresh, 0, ds, o, 0);
    while !eof
      invariant |visited| <= |ds| && visited == Reversed(Entries(ds))[..|visited|]
      invariant if eof then |visited| == |ds| else |visited| < |ds| && On(ds, |ds| - 1 - |visited|, it, docid)
      decreases |ds| - |visited|, !eof
    {
      ghost var k := |ds| - 1 - |visited|;
      visited := visited + [(docid, it.p)];
      it, docid, nList, eof := DoclistPrev(desc, a, it, docid, ds, o, k);
    }
  }
}

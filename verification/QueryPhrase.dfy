/** A phrase as an iterator over the bytes of its doclist, in the order of the
    list or against it. */
module QueryPhrase {
  import opened Varint
  import opened Doclist
  import opened DoclistScan
  import opened DoclistPhrase
  import opened DoclistIterate
  import Or = DoclistOrMerge

  ghost function Docids(ds: seq<Doc>): (r: seq<int>)
    ensures |r| == |ds|
  {
    seq(|ds|, i requires 0 <= i < |ds| => ds[i].id as int)
  }

  /** The docids in the order in which a cursor wants them. */
  ghost function Visits(desc: bool, ds: seq<Doc>, o: Order): (r: seq<int>)
    ensures |r| == |ds|
  {
    if desc == o.desc then Docids(ds) else Reversed(Docids(ds))
  }

  /** The iterator has visited `n` documents. Forwards it stands behind the last
      of them, backwards on its position-list. */
  ghost predicate HasVisited(desc: bool, ds: seq<Doc>, o: Order, n: nat, it: Iter, docid: int) {
    && n <= |ds|
    && if n == 0 then it == Fresh && docid == 0
       else if desc == o.desc then it == At(DocStart(ds, n)) && docid == ds[n - 1].id
       else On(ds, |ds| - n, it, docid)
  }

  /** The document visited last. */
  ghost function Current(desc: bool, ds: seq<Doc>, o: Order, n: nat): (k: nat)
    requires 0 < n <= |ds|
    ensures k < |ds|
  {
    if desc == o.desc then n - 1 else |ds| - n
  }

  /** The bytes of the position-list of document `k`. */
  ghost predicate ListAt(a: seq<Byte>, ds: seq<Doc>, k: nat, pList: nat, nList: nat) {
    k < |ds| && pList + nList <= |a| && a[pList..pList + nList] == EncodePoslist(ds[k].columns)
  }

  lemma ListIsAt(a: seq<Byte>, ds: seq<Doc>, k: nat)
    requires a == EncodeDocs(ds, Start) && k < |ds|
    ensures ListAt(a, ds, k, ListStart(ds, k), |EncodePoslist(ds[k].columns)|)
  {
    var front, u, e := EncodeDocs(ds[..k], Start), Encode(Stored(EndOf(ds[..k], Start), ds[k].id)), EncodePoslist(ds[k].columns);
    var rest := EncodeDocs(ds[k + 1..], After(ds[k].id));
    SplitAt(ds, k);
    Or.Whole(a);
    hide EncodeDocs, EncodePoslist, Encode, EndOf, Stored, Tail;
    TailDrop(a, 0, front, u + (e + rest));
    TailDrop(a, |front|, u, e + rest);
    TailDrop(a, |front| + |u|, e, rest);
  }

  lemma {:induction false} InOrder(ds: seq<Doc>, o: Order, c: Cursor)
    requires ValidDocs(ds, o, c)
    ensures forall i, j :: 0 <= i < j < |ds| ==> o.Before(ds[i].id, ds[j].id)
  {
    if ds != [] {
      InOrder(ds[1..], o, After(ds[0].id));
      DocsMembers(ds[1..], o, After(ds[0].id));
      forall i, j | 0 <= i < j < |ds| ensures o.Before(ds[i].id, ds[j].id) {
        if i == 0 { IdIn(ds[1..], j - 1); } else { assert ds[i] == ds[1..][i - 1] && ds[j] == ds[1..][j - 1]; }
      }
    }
  }

  lemma {:induction false} IdIn(ds: seq<Doc>, i: nat)
    requires i < |ds|
    ensures ds[i].id in Ids(ds)
  {
    if i > 0 { IdIn(ds[1..], i - 1); }
  }

  /** The docids come in the cursor's order. */
  lemma VisitsOrdered(desc: bool, ds: seq<Doc>, o: Order)
    requires ValidDocs(ds, o, Start)
    ensures var s := Visits(desc, ds, o); forall i, j :: 0 <= i < j < |s| ==> if desc then s[j] < s[i] else s[i] < s[j]
  {
    InOrder(ds, o, Start);
  }

  lemma TailAt(a: seq<Byte>, ds: seq<Doc>, i: nat)
    requires a == EncodeDocs(ds, Start) && i <= |ds|
    ensures Tail(a, DocStart(ds, i), EncodeDocs(ds[i..], EndOf(ds[..i], Start)))
  {
    assert ds == ds[..i] + ds[i..];
    EncodeDocsConcat(ds[..i], ds[i..], Start);
    Or.Whole(a);
    hide EncodeDocs, EndOf;
    TailDrop(a, 0, EncodeDocs(ds[..i], Start), EncodeDocs(ds[i..], EndOf(ds[..i], Start)));
  }

  lemma MoreBytes(a: seq<Byte>, ds: seq<Doc>, i: nat)
    requires a == EncodeDocs(ds, Start) && i <= |ds|
    ensures DocStart(ds, i) < |a| <==> i < |ds|
  {
    TailAt(a, ds, i);
    AllOf(ds);
    if i < |ds| { SomeBytes(ds[i..], EndOf(ds[..i], Start)); }
    TailLength(a, DocStart(ds, i), EncodeDocs(ds[i..], EndOf(ds[..i], Start)));
  }

  /** Forwards: reads the next docid and passes over its position-list, and over
      the padding that may follow it. */
  method PhraseForward(a: seq<Byte>, it: Iter, docid: int, ghost ds: seq<Doc>, ghost o: Order, bDescIdx: bool, ghost n: nat)
    returns (it': Iter, docid': int, pList: nat, nList: nat, eof: bool)
    requires ValidList(a, ds, o) && o.desc == bDescIdx && HasVisited(bDescIdx, ds, o, n, it, docid)
    ensures eof <==> n == |ds|
    ensures !eof ==> HasVisited(bDescIdx, ds, o, n + 1, it', docid') && ListAt(a, ds, n, pList, nList)
  {
    hide EncodeDocs, EndOf, ValidDocs, NonEmpty, DocStart, ListStart;
    var p := if it == Fresh then 0 else it.p;
    if ds != [] { StartOf(ds); }
    MoreBytes(a, ds, n);
    AtStart(ds, n);
    it', docid', pList, nList, eof := it, docid, 0, 0, p >= |a|;
    if !eof {
      TailAt(a, ds, n);
      var iMul := if !bDescIdx || it == Fresh then 1 else -1;
      var q;
      docid', pList, q := ScanDoc(a, p, docid, iMul, ds, o, n);
      ListIsAt(a, ds, n);
      DocEnd(ds, n);
      nList := q - pList;
      MoreBytes(a, ds, n + 1);
      DocEndBound(ds, n + 1);
      if q < |a| { NoPadding(a, q, ds, o, n + 1); }
      q := SkipZeros(a, q);
      it' := At(q);
    }
  }

  lemma StartOf(ds: seq<Doc>)
    requires ds != []
    ensures DocStart(ds, 0) == 0
  {
    NoFront(ds);
  }

  lemma AtStart(ds: seq<Doc>, n: nat)
    requires n <= |ds|
    ensures n == 0 ==> DocStart(ds, n) == 0
  {
    assert ds[..0] == [];
  }

  /** The next docid of a phrase, in the cursor's direction. */
  method PhraseNext(desc: bool, bDescIdx: bool, a: seq<Byte>, it: Iter, docid: int, ghost ds: seq<Doc>, ghost o: Order, ghost n: nat)
    returns (it': Iter, docid': int, pList: nat, nList: nat, eof: bool)
    requires ValidList(a, ds, o) && o.desc == bDescIdx && HasVisited(desc, ds, o, n, it, docid)
    ensures eof <==> n == |ds|
    ensures !eof ==> HasVisited(desc, ds, o, n + 1, it', docid') && docid' == Visits(desc, ds, o)[n]
    ensures !eof ==> ListAt(a, ds, Current(desc, ds, o, n + 1), pList, nList)
  {
    hide EncodeDocs, EndOf, ValidDocs, NonEmpty, DocStart, ListStart;
    if desc != bDescIdx && |a| > 0 {
      SomeDoc(ds);
      it', docid', nList, eof := DoclistPrev(bDescIdx, a, it, docid, ds, o, |ds| - n);
      pList := 0;
      if !eof {
        pList := it'.p;
        ListIsAt(a, ds, |ds| - n - 1);
      }
    } else {
      MoreBytes(a, ds, 0);
      AtStart(ds, 0);
      it', docid', pList, nList, eof := PhraseForward(a, it, docid, ds, o, bDescIdx, n);
    }
  }

  /** The position-list of the current document, found by its docid. */
  lemma {:induction false} ColumnsAre(ds: seq<Doc>, o: Order, c: Cursor, k: nat)
    requires ValidDocs(ds, o, c) && NonEmpty(ds) && k < |ds|
    ensures ColumnsOf(ds, ds[k].id) == ds[k].columns && ValidColumns(ds[k].columns, -1) && ds[k].columns != []
    decreases k
  {
    if k > 0 {
      InOrder(ds, o, c);
      assert o.Before(ds[0].id, ds[k].id);
      ColumnsAre(ds[1..], o, After(ds[0].id), k - 1);
    }
  }

  /** Copies the bytes of a position-list. */
  method CopyList(a: seq<Byte>, pList: nat, nList: nat) returns (b: array<Byte>)
    requires pList + nList <= |a|
    ensures fresh(b) && b[..] == a[pList..pList + nList]
  {
    b := new Byte[nList](i requires 0 <= i < nList => a[pList + i]);
  }
}

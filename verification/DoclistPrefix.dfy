/** Merging the doclists of all the terms that match a prefix: sixteen slots
    that fill like a binary counter. */
module DoclistPrefix {
  import opened Varint
  import opened Doclist
  import opened DoclistUnion
  import Or = DoclistOrMerge

  const SLOTS := 16

  datatype Buffer = Empty | Bytes(data: seq<Byte>)

  ghost function AllHits(cs: seq<seq<Doc>>): set<(int, nat, nat)> {
    if cs == [] then {} else Hits(cs[0]) + AllHits(cs[1..])
  }

  ghost function AllIds(cs: seq<seq<Doc>>): set<int> {
    if cs == [] then {} else Ids(cs[0]) + AllIds(cs[1..])
  }

  lemma {:induction false} SlotUpdate(cs: seq<seq<Doc>>, i: nat, ds: seq<Doc>)
    requires i < |cs|
    ensures AllHits(cs[i := ds]) + Hits(cs[i]) == AllHits(cs) + Hits(ds)
    ensures AllIds(cs[i := ds]) + Ids(cs[i]) == AllIds(cs) + Ids(ds)
  {
    hide Hits, Ids;
    if i == 0 {
      assert cs[i := ds][1..] == cs[1..];
    } else {
      assert cs[i := ds][1..] == cs[1..][i - 1 := ds];
      SlotUpdate(cs[1..], i - 1, ds);
    }
  }

  lemma {:induction false} NoneHeld(cs: seq<seq<Doc>>)
    requires forall i :: 0 <= i < |cs| ==> cs[i] == []
    ensures AllHits(cs) == {} && AllIds(cs) == {}
  {
    if cs != [] { NoneHeld(cs[1..]); }
  }

  ghost predicate SlotHolds(b: Buffer, ds: seq<Doc>, o: Order) {
    ValidDocs(ds, o, Start) && if b == Empty then ds == [] else b.data == EncodeDocs(ds, Start)
  }

  lemma EmptySlot(o: Order)
    ensures SlotHolds(Empty, [], o) && Hits([]) == {} && Ids([]) == {}
  {
  }

  class TermSelect {
    var aaOutput: seq<Buffer>
    const order: Order
    /** What the slots hold. */
    ghost var contents: seq<seq<Doc>>

    ghost predicate Valid()
      reads this
    {
      && |aaOutput| == |contents| == SLOTS
      && forall i :: 0 <= i < SLOTS ==> SlotHolds(aaOutput[i], contents[i], order)
    }

    constructor (order: Order)
      ensures Valid() && this.order == order
      ensures AllHits(contents) == {} && AllIds(contents) == {}
    {
      aaOutput := seq(SLOTS, _ => Empty);
      contents := seq(SLOTS, _ => []);
      this.order := order;
      new;
      EmptySlot(order);
      NoneHeld(contents);
    }

    /** Adds one doclist. Nothing held before is lost and nothing else gained. */
    method Merge(aDoclist: seq<Byte>, ghost ds: seq<Doc>)
      requires Valid() && ValidDocs(ds, order, Start) && aDoclist == EncodeDocs(ds, Start)
      modifies this
      ensures Valid()
      ensures AllHits(contents) == old(AllHits(contents)) + Hits(ds)
      ensures AllIds(contents) == old(AllIds(contents)) + Ids(ds)
    {
      hide ValidDocs, EncodeDocs, Hits, Ids, AllHits, AllIds;
      if aaOutput[0] == Empty {
        Store(0, aDoclist, ds);
      } else {
        var aMerge := aDoclist;
        ghost var m := ds;
        var iOut := 0;
        while iOut < SLOTS && aaOutput[iOut] != Empty
          invariant 0 <= iOut <= SLOTS && Valid()
          invariant iOut < SLOTS ==> ValidDocs(m, order, Start) && aMerge == EncodeDocs(m, Start)
          invariant AllHits(contents) + (if iOut < SLOTS then Hits(m) else {}) == old(AllHits(contents)) + Hits(ds)
          invariant AllIds(contents) + (if iOut < SLOTS then Ids(m) else {}) == old(AllIds(contents)) + Ids(ds)
        {
          aMerge, m := MergeSlot(iOut, aMerge, m);
          if iOut + 1 == SLOTS {
            Store(iOut, aMerge, m);
          }
          iOut := iOut + 1;
        }
        if iOut < SLOTS {
          Store(iOut, aMerge, m);
        }
      }
    }

    /** Fills an empty slot. */
    method Store(i: nat, data: seq<Byte>, ghost ds: seq<Doc>)
      requires Valid() && i < SLOTS && aaOutput[i] == Empty
      requires ValidDocs(ds, order, Start) && data == EncodeDocs(ds, Start)
      modifies this
      ensures Valid()
      ensures AllHits(contents) == old(AllHits(contents)) + Hits(ds)
      ensures AllIds(contents) == old(AllIds(contents)) + Ids(ds)
      ensures forall j :: 0 <= j < SLOTS && j != i ==> aaOutput[j] == old(aaOutput[j])
      ensures aaOutput[i] == Bytes(data) && contents[i] == ds
    {
      hide ValidDocs, EncodeDocs, Hits, Ids, AllHits, AllIds;
      SlotUpdate(contents, i, ds);
      EmptySlot(order);
      aaOutput := aaOutput[i := Bytes(data)];
      contents := contents[i := ds];
    }

    /** Takes the contents of slot `i` out and merges them with `data`. */
    method MergeSlot(i: nat, data: seq<Byte>, ghost ds: seq<Doc>) returns (merged: seq<Byte>, ghost m: seq<Doc>)
      requires Valid() && i < SLOTS && aaOutput[i] != Empty
      requires ValidDocs(ds, order, Start) && data == EncodeDocs(ds, Start)
      modifies this
      ensures Valid() && aaOutput[i] == Empty
      ensures forall j :: 0 <= j < SLOTS && j != i ==> aaOutput[j] == old(aaOutput[j])
      ensures ValidDocs(m, order, Start) && merged == EncodeDocs(m, Start)
      ensures AllHits(contents) + Hits(m) == old(AllHits(contents)) + Hits(ds)
      ensures AllIds(contents) + Ids(m) == old(AllIds(contents)) + Ids(ds)
    {
      hide ValidDocs, EncodeDocs, Hits, Ids, AllHits, AllIds;
      EmptySlot(order);
      m := MergeDocs(order, ds, contents[i]);
      MergeDocsIsUnion(order, ds, contents[i], Start);
      var o, n := Or.OrMerge(order.desc, data, aaOutput[i].data, order, ds, contents[i]);
      merged := o[..n];
      SlotUpdate(contents, i, []);
      aaOutput := aaOutput[i := Empty];
      contents := contents[i := []];
    }

    /** Merges every slot into slot 0. */
    method FinishMerge() returns (ghost ds: seq<Doc>)
      requires Valid()
      modifies this
      ensures Valid() && SlotHolds(aaOutput[0], ds, order)
      ensures aaOutput[0] == Empty <==> forall i :: 0 <= i < SLOTS ==> old(aaOutput[i]) == Empty
      ensures Hits(ds) == old(AllHits(contents)) && Ids(ds) == old(AllIds(contents))
    {
      hide ValidDocs, EncodeDocs, Hits, Ids, AllHits, AllIds;
      var aOut := Empty;
      ds := [];
      EmptySlot(order);
      for i := 0 to SLOTS
        invariant Valid()
        invariant forall j :: 0 <= j < i ==> aaOutput[j] == Empty
        invariant forall j :: i <= j < SLOTS ==> aaOutput[j] == old(aaOutput[j])
        invariant SlotHolds(aOut, ds, order)
        invariant aOut == Empty <==> forall j :: 0 <= j < i ==> old(aaOutput[j]) == Empty
        invariant AllHits(contents) + Hits(ds) == old(AllHits(contents))
        invariant AllIds(contents) + Ids(ds) == old(AllIds(contents))
      {
        if aaOutput[i] != Empty {
          if aOut == Empty {
            aOut, ds := aaOutput[i], contents[i];
            SlotUpdate(contents, i, []);
            aaOutput := aaOutput[i := Empty];
            contents := contents[i := []];
          } else {
            var aNew;
            aNew, ds := MergeSlot(i, aOut.data, ds);
            aOut := Bytes(aNew);
          }
        }
      }
      NoneHeld(contents);
      if aOut != Empty {
        Store(0, aOut.data, ds);
      }
    }
  }

  /** What the slots hold together is what any of them holds. */
  lemma {:induction false} AllHitsMean(cs: seq<seq<Doc>>, h: (int, nat, nat))
    ensures h in AllHits(cs) <==> exists i :: 0 <= i < |cs| && h in Hits(cs[i])
  {
    hide Hits;
    if cs != [] {
      AllHitsMean(cs[1..], h);
      if i :| 0 <= i < |cs| && h in Hits(cs[i]) {
        if i > 0 { assert cs[1..][i - 1] == cs[i]; }
      }
      if i :| 0 <= i < |cs[1..]| && h in Hits(cs[1..][i]) {
        assert cs[i + 1] == cs[1..][i];
      }
    }
  }
}

/** The FTS3 hash table: every element is on one doubly linked list, on which
    each bucket is a contiguous run. */
module HashTable {
  import opened Varint

  type Key = seq<Byte>

  class Elem {
    const key: Key
    /** The caller's data; 0 stands for the NULL pointer. */
    var data: nat
    var next: Elem?
    var prev: Elem?

    constructor (key: Key)
      ensures this.key == key && data == 0 && next == null && prev == null
    {
      this.key, data, next, prev := key, 0, null, null;
    }
  }

  /** A bucket: its number of elements and the first of them. */
  datatype Bucket = Bucket(count: nat, chain: Elem?)

  /** The bucket of a key in a table of `n`. */
  function Slot(hash: Key -> nat, n: nat, key: Key): (h: nat)
    requires n > 0
    ensures h < n
  {
    hash(key) % n
  }

  // ---- buckets as runs of the list ----

  predicate Distinct(list: seq<Elem>) {
    forall i, j :: 0 <= i < j < |list| ==> list[i] != list[j] && list[i].key != list[j].key
  }

  /** The elements with hash `h` are exactly those from `start` on, `count` many. */
  ghost predicate Run(list: seq<Elem>, hash: Key -> nat, n: nat, h: nat, start: nat, count: nat)
    requires n > 0
  {
    start + count <= |list| && forall i :: 0 <= i < |list| ==> (start <= i < start + count <==> Slot(hash, n, list[i].key) == h)
  }

  /** Every bucket is such a run and points to its first element. */
  ghost predicate Runs(list: seq<Elem>, hash: Key -> nat, ht: seq<Bucket>, starts: seq<nat>) {
    && |starts| == |ht| && (ht == [] ==> list == [])
    && forall h :: 0 <= h < |ht| ==>
         && Run(list, hash, |ht|, h, starts[h], ht[h].count)
         && ht[h].chain == (if ht[h].count > 0 then list[starts[h]] else null)
  }

  function Inserted(list: seq<Elem>, p: nat, e: Elem): seq<Elem>
    requires p <= |list|
  {
    list[..p] + [e] + list[p..]
  }

  function Removed(list: seq<Elem>, p: nat): seq<Elem>
    requires p < |list|
  {
    list[..p] + list[p + 1..]
  }

  /** Where a new element of bucket `h` goes. */
  function Place(ht: seq<Bucket>, starts: seq<nat>, h: nat): nat
    requires h < |ht| == |starts|
  {
    if ht[h].count > 0 then starts[h] else 0
  }

  function StartsAfterInsert(starts: seq<nat>, h: nat, p: nat): (r: seq<nat>)
    ensures |r| == |starts|
  {
    seq(|starts|, g requires 0 <= g < |starts| => if g == h then p else if starts[g] >= p then starts[g] + 1 else starts[g])
  }

  function StartsAfterRemove(starts: seq<nat>, p: nat): (r: seq<nat>)
    ensures |r| == |starts|
  {
    seq(|starts|, g requires 0 <= g < |starts| => if starts[g] > p then starts[g] - 1 else starts[g])
  }

  lemma InsertRun(list: seq<Elem>, hash: Key -> nat, n: nat, g: nat, s: nat, c: nat, h: nat, p: nat, e: Elem)
    requires n > 0 && g != h && Slot(hash, n, e.key) == h && p <= |list| && Run(list, hash, n, g, s, c)
    requires p == 0 || (p < |list| && Slot(hash, n, list[p].key) == h)
    ensures Run(Inserted(list, p, e), hash, n, g, if s >= p then s + 1 else s, c)
  {
    var l' := Inserted(list, p, e);
    assert s < p ==> s + c <= p;
    forall i | 0 <= i < |l'|
      ensures (if s >= p then s + 1 else s) <= i < (if s >= p then s + 1 else s) + c <==> Slot(hash, n, l'[i].key) == g
    {
      if i < p { assert l'[i] == list[i]; } else if i > p { assert l'[i] == list[i - 1]; }
    }
  }

  lemma InsertOwnRun(list: seq<Elem>, hash: Key -> nat, n: nat, s: nat, c: nat, h: nat, p: nat, e: Elem)
    requires n > 0 && Slot(hash, n, e.key) == h && p <= |list| && Run(list, hash, n, h, s, c) && p == if c > 0 then s else 0
    ensures Run(Inserted(list, p, e), hash, n, h, p, c + 1)
  {
    var l' := Inserted(list, p, e);
    forall i | 0 <= i < |l'| ensures p <= i < p + c + 1 <==> Slot(hash, n, l'[i].key) == h {
      if i < p { assert l'[i] == list[i]; } else if i > p { assert l'[i] == list[i - 1]; }
    }
  }

  lemma InsertRuns(list: seq<Elem>, hash: Key -> nat, ht: seq<Bucket>, starts: seq<nat>, h: nat, e: Elem)
    requires Runs(list, hash, ht, starts) && h < |ht| && Slot(hash, |ht|, e.key) == h
    ensures var p := Place(ht, starts, h);
            p <= |list| && (ht[h].count > 0 ==> p < |list|) && Runs(Inserted(list, p, e), hash, ht[h := Bucket(ht[h].count + 1, e)], StartsAfterInsert(starts, h, p))
  {
    var p := Place(ht, starts, h);
    var l', ht', st' := Inserted(list, p, e), ht[h := Bucket(ht[h].count + 1, e)], StartsAfterInsert(starts, h, p);
    forall g | 0 <= g < |ht|
      ensures Run(l', hash, |ht|, g, st'[g], ht'[g].count) && ht'[g].chain == (if ht'[g].count > 0 then l'[st'[g]] else null)
    {
      if g == h {
        InsertOwnRun(list, hash, |ht|, starts[h], ht[h].count, h, p, e);
      } else {
        InsertRun(list, hash, |ht|, g, starts[g], ht[g].count, h, p, e);
      }
    }
  }

  lemma HeadOf(list: seq<Elem>, hash: Key -> nat, ht: seq<Bucket>, starts: seq<nat>, h: nat)
    requires Runs(list, hash, ht, starts) && h < |ht|
    ensures |starts| == |ht|
    ensures if ht[h].chain == null then ht[h].count == 0 else ht[h].count > 0 && starts[h] < |list| && ht[h].chain == list[starts[h]]
  {
  }

  lemma RemoveRun(list: seq<Elem>, hash: Key -> nat, n: nat, g: nat, s: nat, c: nat, p: nat)
    requires n > 0 && p < |list| && Run(list, hash, n, g, s, c)
    ensures var mine := Slot(hash, n, list[p].key) == g;
            (mine ==> c > 0) && Run(Removed(list, p), hash, n, g, if s > p then s - 1 else s, if mine then c - 1 else c)
  {
    var l' := Removed(list, p);
    var mine := Slot(hash, n, list[p].key) == g;
    var s', c' := if s > p then s - 1 else s, if mine then c - 1 else c;
    forall i | 0 <= i < |l'| ensures s' <= i < s' + c' <==> Slot(hash, n, l'[i].key) == g {
      if i < p { assert l'[i] == list[i]; } else { assert l'[i] == list[i + 1]; }
    }
  }

  function BucketAfterRemove(list: seq<Elem>, b: Bucket, p: nat): Bucket
    requires p < |list| && b.count > 0
  {
    if b.count == 1 then Bucket(0, null)
    else Bucket(b.count - 1, if b.chain == list[p] then (if p + 1 < |list| then list[p + 1] else null) else b.chain)
  }

  lemma RemoveRuns(list: seq<Elem>, hash: Key -> nat, ht: seq<Bucket>, starts: seq<nat>, p: nat)
    requires Runs(list, hash, ht, starts) && p < |list| && Distinct(list)
    ensures var h := Slot(hash, |ht|, list[p].key);
            && ht[h].count > 0
            && Runs(Removed(list, p), hash, ht[h := BucketAfterRemove(list, ht[h], p)], StartsAfterRemove(starts, p))
  {
    var h := Slot(hash, |ht|, list[p].key);
    RemoveRun(list, hash, |ht|, h, starts[h], ht[h].count, p);
    var l', ht', st' := Removed(list, p), ht[h := BucketAfterRemove(list, ht[h], p)], StartsAfterRemove(starts, p);
    forall g | 0 <= g < |ht|
      ensures Run(l', hash, |ht|, g, st'[g], ht'[g].count) && ht'[g].chain == (if ht'[g].count > 0 then l'[st'[g]] else null)
    {
      RemoveRun(list, hash, |ht|, g, starts[g], ht[g].count, p);
    }
  }

  // ---- the linked list ----

  function At(list: seq<Elem>, i: int): Elem? {
    if 0 <= i < |list| then list[i] else null
  }

  /** The pointers follow the list in both directions. */
  ghost predicate Linked(list: seq<Elem>, first: Elem?)
    reads list`next, list`prev
  {
    && first == At(list, 0)
    && forall i :: 0 <= i < |list| ==> list[i].next == At(list, i + 1) && list[i].prev == At(list, i - 1)
  }

  /** The elements carry exactly the given contents, each key once. */
  ghost predicate Holds(list: seq<Elem>, contents: map<Key, nat>)
    reads list`data
  {
    && (forall i :: 0 <= i < |list| ==> list[i].data != 0 && list[i].key in contents && contents[list[i].key] == list[i].data)
    && (forall k :: k in contents ==> exists i :: 0 <= i < |list| && list[i].key == k)
  }

  lemma InsertedDistinct(list: seq<Elem>, p: nat, e: Elem)
    requires Distinct(list) && p <= |list| && forall i :: 0 <= i < |list| ==> list[i] != e && list[i].key != e.key
    ensures Distinct(Inserted(list, p, e))
  {
  }

  /** No other position holds the same element. */
  ghost predicate OnlyAt(list: seq<Elem>, k: int) {
    0 <= k < |list| ==> forall i :: 0 <= i < |list| && i != k ==> list[i] != list[k]
  }

  lemma DistinctAt(list: seq<Elem>, k: int)
    requires Distinct(list)
    ensures OnlyAt(list, k)
  {
  }

  class Fts3Hash {
    const hash: Key -> nat
    var first: Elem?
    var count: nat
    var ht: seq<Bucket>
    /** The elements in list order and where each bucket's run begins. */
    ghost var list: seq<Elem>
    ghost var starts: seq<nat>
    /** What the table means. */
    ghost var contents: map<Key, nat>

    ghost predicate Valid()
      reads this, list
    {
      Distinct(list) && Linked(list, first) && Runs(list, hash, ht, starts) && Holds(list, contents) && count == |list|
    }

    constructor (hash: Key -> nat)
      ensures Valid() && contents == map[] && this.hash == hash && list == []
    {
      this.hash, first, count, ht, list, starts, contents := hash, null, 0, [], [], [], map[];
    }

    /** Links an element into bucket `h`: before the first of the bucket, or else
        at the front of the list. */
    method InsertElement(h: nat, e: Elem)
      requires Distinct(list) && Linked(list, first) && Runs(list, hash, ht, starts) && h < |ht| && Slot(hash, |ht|, e.key) == h
      requires forall i :: 0 <= i < |list| ==> list[i] != e && list[i].key != e.key
      modifies `first, `ht, `list, `starts, list`next, list`prev, e`next, e`prev
      ensures list == Inserted(old(list), old(Place(ht, starts, h)), e) && |ht| == old(|ht|)
      ensures Distinct(list) && Linked(list, first) && Runs(list, hash, ht, starts)
    {
      hide Run, Runs, Distinct, Linked, Inserted;
      HeadOf(list, hash, ht, starts, h);
      ghost var p := Place(ht, starts, h);
      InsertRuns(list, hash, ht, starts, h, e);
      InsertedDistinct(list, p, e);
      var head := ht[h].chain;
      if head != null {
        LinkBefore(e, head, p);
      } else {
        LinkFirst(e);
      }
      ghost var now := Inserted(list, p, e);
      assert Linked(now, first);
      ht := ht[h := Bucket(ht[h].count + 1, e)];
      starts := StartsAfterInsert(starts, h, p);
      list := now;
    }

    method LinkBefore(e: Elem, head: Elem, ghost p: nat)
      requires Distinct(list) && Linked(list, first) && p < |list| && list[p] == head && e !in list
      modifies `first, list`next, list`prev, e`next, e`prev
      ensures Linked(Inserted(list, p, e), first)
    {
      hide Inserted;
      DistinctAt(list, p);
      DistinctAt(list, p - 1);
      hide Distinct;
      assert head.prev == At(list, p - 1);
      e.next := head;
      e.prev := head.prev;
      if head.prev != null { head.prev.next := e; } else { first := e; }
      head.prev := e;
      InsertLinks(list, p, e, first);
    }

    method LinkFirst(e: Elem)
      requires Distinct(list) && Linked(list, first) && e !in list
      modifies `first, list`prev, e`next, e`prev
      ensures Linked(Inserted(list, 0, e), first)
    {
      hide Inserted;
      DistinctAt(list, 0);
      hide Distinct;
      e.next := first;
      if first != null { first.prev := e; }
      e.prev := null;
      first := e;
      InsertLinks(list, 0, e, first);
    }

    /** Unlinks element `p` of the list. */
    method Unlink(e: Elem, ghost p: nat)
      requires Distinct(list) && Linked(list, first) && p < |list| && list[p] == e
      modifies `first, list`next, list`prev
      ensures Linked(Removed(list, p), first) && e.next == old(e.next)
    {
      hide Removed;
      DistinctAt(list, p - 1);
      DistinctAt(list, p + 1);
      hide Distinct;
      assert e.prev == At(list, p - 1) && e.next == At(list, p + 1);
      if e.prev != null { e.prev.next := e.next; } else { first := e.next; }
      if e.next != null { e.next.prev := e.prev; }
      RemoveLinks(list, p, first);
    }

    /** Looks for a key in bucket `h`. */
    method FindElementByHash(key: Key, h: nat) returns (r: Elem?, ghost p: nat)
      requires Valid() && (ht != [] ==> h == Slot(hash, |ht|, key))
      ensures r == null ==> key !in contents && forall i :: 0 <= i < |list| ==> list[i].key != key
      ensures r != null ==> ht != [] && p < |list| && list[p] == r && r.key == key && key in contents && contents[key] == r.data != 0
    {
      hide Distinct, Linked, Holds, Run, Runs, Slot;
      r, p := null, 0;
      if ht != [] {
        HeadOf(list, hash, ht, starts, h);
        InRun(list, hash, ht, starts, h);
        var elem, n := ht[h].chain, ht[h].count;
        p := starts[h];
        while n > 0 && elem != null
          invariant 0 <= n <= ht[h].count && p == starts[h] + ht[h].count - n && p <= |list|
          invariant n > 0 ==> elem == At(list, p)
          invariant forall i :: starts[h] <= i < p ==> list[i].key != key
        {
          if elem.key == key {
            HeldAt(list, contents, p);
            return elem, p;
          }
          NextIs(list, first, p);
          elem := elem.next;
          n, p := n - 1, p + 1;
        }
        Absent(list, hash, |ht|, key, starts[h], ht[h].count, h);
      } else {
        NoTable(list, hash, starts);
      }
      HeldNot(list, contents, key);
    }

    /** Removes an element, and the table itself with the last one. */
    method RemoveElement(e: Elem, ghost p: nat)
      requires Valid() && ht != [] && p < |list| && list[p] == e
      modifies this, list`next, list`prev
      ensures Valid() && contents == old(contents) - {e.key} && (list == [] || list == Removed(old(list), p))
      ensures forall x :: x in list ==> x in old(list)
    {
      hide Run, Runs, Distinct, Linked, Removed, Holds;
      var h := Slot(hash, |ht|, e.key);
      RemoveRuns(list, hash, ht, starts, p);
      RemovedFacts(list, p, contents);
      ghost var now := Removed(list, p);
      var after := NextOf(e, p);
      Unlink(e, p);
      var b := ht[h];
      var chain := if b.chain == e then after else b.chain;
      ht := ht[h := if b.count == 1 then Bucket(0, null) else Bucket(b.count - 1, chain)];
      starts, list, contents := StartsAfterRemove(starts, p), now, contents - {e.key};
      count := count - 1;
      if count == 0 {
        EmptyTable(list, contents, hash);
        first, ht, starts, list := null, [], [], [];
      }
    }

    method NextOf(e: Elem, ghost p: nat) returns (n: Elem?)
      requires Linked(list, first) && p < |list| && list[p] == e
      ensures n == At(list, p + 1)
    {
      n := e.next;
    }

    /** Distributes the elements over a new table of buckets. */
    method Rehash(newSize: nat)
      requires Valid() && newSize > 0
      modifies this, list`next, list`prev
      ensures Valid() && |ht| == newSize && contents == old(contents) && count == old(count)
      ensures forall x :: x in list <==> x in old(list)
    {
      hide Distinct, Linked, Holds, Run, Runs, Slot, Inserted, Chain, Apart;
      ghost var rest := list;
      Chained(list, first);
      var elem := first;
      ht, first := seq(newSize, i => Bucket(0, null)), null;
      list, starts := [], seq(newSize, i => 0);
      Fresh(hash, ht, starts, rest);
      while elem != null
        invariant elem == At(rest, 0) && Chain(rest)
        invariant Distinct(list) && Linked(list, first) && Runs(list, hash, ht, starts) && |ht| == newSize
        invariant Apart(list, rest) && |list| + |rest| == count && contents == old(contents) && count == old(count)
        invariant forall x :: x in old(list) <==> x in list || x in rest
        decreases |rest|
      {
        ghost var before, tail := list, rest[1..];
        ChainTail(rest, list);
        var next := elem.next;
        assert elem in old(list);
        assert forall i :: 0 <= i < |list| ==> list[i] in old(list);
        var h := Slot(hash, newSize, elem.key);
        HeadOf(list, hash, ht, starts, h);
        ghost var p := Place(ht, starts, h);
        InsertElement(h, elem);
        Moved(before, rest, p);
        rest := tail;
        elem := next;
      }
      HoldsSame(old(list), list, contents);
    }

    /** The data stored under a key, or 0. */
    method Find(key: Key) returns (data: nat)
      requires Valid()
      ensures data == if key in contents then contents[key] else 0
    {
      hide Distinct, Linked, Holds, Runs, Slot;
      data := 0;
      if ht != [] {
        var e, p := FindElementByHash(key, Slot(hash, |ht|, key));
        if e != null { data := e.data; }
      } else {
        NoTable(list, hash, starts);
        HeldNot(list, contents, key);
      }
    }

    /** Stores data under a key, or with 0 removes the key; returns what was
        stored there before. */
    method Insert(key: Key, data: nat) returns (before: nat)
      requires Valid()
      modifies this, list
      ensures Valid() && contents == if data == 0 then old(contents) - {key} else old(contents)[key := data]
      ensures before == if key in old(contents) then old(contents)[key] else 0
      ensures forall x :: x in list ==> x in old(list) || fresh(x)
    {
      hide Distinct, Linked, Holds, Runs, Slot;
      var e, p := FindElementByHash(key, if ht == [] then 0 else Slot(hash, |ht|, key));
      if e != null {
        before := e.data;
        if data == 0 {
          RemoveElement(e, p);
        } else {
          SetData(e, p, data);
        }
        return;
      }
      before := 0;
      if data == 0 { return; }
      if ht == [] { Rehash(8); }
      ghost var mid := list;
      assert forall i :: 0 <= i < |list| ==> list[i] in old(list);
      if count >= |ht| { Rehash(|ht| * 2); }
      assert forall x :: x in mid ==> x in old(list);
      assert forall i :: 0 <= i < |list| ==> list[i] in mid && list[i] in old(list);
      AddElement(key, data);
    }

    method SetData(e: Elem, ghost p: nat, data: nat)
      requires Valid() && p < |list| && list[p] == e && data != 0
      modifies `contents, e`data
      ensures Valid() && contents == old(contents)[e.key := data]
    {
      hide Run, Runs, Linked;
      e.data := data;
      contents := contents[e.key := data];
    }

    method AddElement(key: Key, data: nat)
      requires Valid() && ht != [] && key !in contents && data != 0
      modifies this, list`next, list`prev
      ensures Valid() && contents == old(contents)[key := data]
      ensures forall x :: x in list ==> x in old(list) || fresh(x)
    {
      hide Run, Runs, Linked, Distinct, Holds, Slot, Inserted;
      var e := new Elem(key);
      NewKey(list, contents, key);
      count := count + 1;
      var h := Slot(hash, |ht|, key);
      HeadOf(list, hash, ht, starts, h);
      ghost var p, before := Place(ht, starts, h), list;
      InsertElement(h, e);
      e.data := data;
      HoldsMore(before, p, e, contents);
      InsertedMembers(before, p, e);
      contents := contents[key := data];
    }

    /** The keys in list order: every live key, once. */
    method Keys() returns (keys: seq<Key>)
      requires Valid()
      ensures |keys| == count && forall i, j :: 0 <= i < j < |keys| ==> keys[i] != keys[j]
      ensures forall k :: k in keys <==> k in contents
    {
      hide Run, Runs, Distinct, Holds, Linked, Slot;
      keys := [];
      Chained(list, first);
      var e := first;
      ghost var p := 0;
      while e != null
        invariant 0 <= p <= |list| && e == At(list, p) && keys == KeysOf(list)[..p]
        decreases |list| - p
      {
        NextIs(list, first, p);
        keys := keys + [e.key];
        e := e.next;
        p := p + 1;
      }
      LiveKeys(list, contents);
    }

    /** Any sequence of insertions, replacements and removals acts on the table
        as it would on a map. */
    method Apply(ops: seq<(Key, nat)>)
      requires Valid()
      modifies this, list
      ensures Valid() && contents == Applied(old(contents), ops)
    {
      hide Run, Runs, Linked, Distinct, Holds;
      var i := 0;
      assert ops[..0] == [];
      while i < |ops|
        invariant 0 <= i <= |ops| && Valid() && contents == Applied(old(contents), ops[..i])
        invariant forall x :: x in list ==> x in old(list) || fresh(x)
      {
        assert ops[..i + 1][..i] == ops[..i];
        assert forall j :: 0 <= j < |list| ==> list[j] in old(list) || fresh(list[j]);
        var before := Insert(ops[i].0, ops[i].1);
        i := i + 1;
      }
      assert ops[..i] == ops;
    }

    /** Empties the table. */
    method Clear()
      requires Valid()
      modifies this
      ensures Valid() && contents == map[]
    {
      hide Linked, Distinct, Holds, Runs;
      EmptyIsValid(hash);
      first, count, ht, list, starts, contents := null, 0, [], [], [], map[];
    }
  }

  lemma InsertLinks(list: seq<Elem>, p: nat, e: Elem, first: Elem?)
    requires p <= |list| && e.next == At(list, p) && e.prev == At(list, p - 1) && first == if p == 0 then e else At(list, 0)
    requires forall i :: 0 <= i < |list| ==> list[i].next == (if i == p - 1 then e else At(list, i + 1))
    requires forall i :: 0 <= i < |list| ==> list[i].prev == (if i == p then e else At(list, i - 1))
    ensures Linked(Inserted(list, p, e), first)
  {
    var l' := Inserted(list, p, e);
    forall i | 0 <= i < |l'| ensures l'[i].next == At(l', i + 1) && l'[i].prev == At(l', i - 1) {
      if i < p { assert l'[i] == list[i]; } else if i > p { assert l'[i] == list[i - 1]; }
    }
  }

  lemma RemoveLinks(list: seq<Elem>, p: nat, first: Elem?)
    requires p < |list| && first == if p == 0 then At(list, 1) else At(list, 0)
    requires forall i :: 0 <= i < |list| && i != p ==> list[i].next == (if i == p - 1 then At(list, p + 1) else At(list, i + 1))
    requires forall i :: 0 <= i < |list| && i != p ==> list[i].prev == (if i == p + 1 then At(list, p - 1) else At(list, i - 1))
    ensures Linked(Removed(list, p), first)
  {
    var l' := Removed(list, p);
    forall i | 0 <= i < |l'| ensures l'[i].next == At(l', i + 1) && l'[i].prev == At(l', i - 1) {
      if i < p { assert l'[i] == list[i]; } else { assert l'[i] == list[i + 1]; }
    }
  }

  lemma InRun(list: seq<Elem>, hash: Key -> nat, ht: seq<Bucket>, starts: seq<nat>, h: nat)
    requires Runs(list, hash, ht, starts) && h < |ht|
    ensures starts[h] + ht[h].count <= |list|
    ensures forall i :: 0 <= i < |list| && Slot(hash, |ht|, list[i].key) == h ==> starts[h] <= i < starts[h] + ht[h].count
  {
  }

  lemma RemovedFacts(list: seq<Elem>, p: nat, contents: map<Key, nat>)
    requires Distinct(list) && Holds(list, contents) && p < |list|
    ensures |Removed(list, p)| == |list| - 1 && Distinct(Removed(list, p)) && Holds(Removed(list, p), contents - {list[p].key})
    ensures forall i :: 0 <= i < |Removed(list, p)| ==> Removed(list, p)[i] in list
  {
    RemovedAt(list, p);
    RemovedDistinct(list, p);
    hide Removed, Distinct;
    var l', c' := Removed(list, p), contents - {list[p].key};
    forall k | k in c' ensures exists i :: 0 <= i < |l'| && l'[i].key == k {
      var j :| 0 <= j < |list| && list[j].key == k;
      var i := if j < p then j else j - 1;
      assert l'[i] == list[Skip(i, p)];
    }
  }

  lemma RemovedAt(list: seq<Elem>, p: nat)
    requires p < |list|
    ensures |Removed(list, p)| == |list| - 1 && forall i :: 0 <= i < |list| - 1 ==> Removed(list, p)[i] == list[Skip(i, p)]
  {
  }

  lemma RemovedDistinct(list: seq<Elem>, p: nat)
    requires Distinct(list) && p < |list|
    ensures Distinct(Removed(list, p)) && forall i :: 0 <= i < |list| - 1 ==> Removed(list, p)[i].key != list[p].key
  {
    RemovedAt(list, p);
    hide Removed;
    forall i | 0 <= i < |list| - 1 ensures Removed(list, p)[i].key != list[p].key {
      assert Skip(i, p) < p || p < Skip(i, p);
    }
  }

  function Skip(i: nat, p: nat): nat {
    if i < p then i else i + 1
  }

  lemma EmptyIsValid(hash: Key -> nat)
    ensures Distinct([]) && Linked([], null) && Runs([], hash, [], []) && Holds([], map[])
  {
  }

  lemma EmptyTable(list: seq<Elem>, contents: map<Key, nat>, hash: Key -> nat)
    requires list == [] && Holds(list, contents)
    ensures contents == map[] && Distinct([]) && Linked([], null) && Runs([], hash, [], []) && Holds([], contents)
  {
    assert forall k :: k !in contents;
  }

  lemma NoTable(list: seq<Elem>, hash: Key -> nat, starts: seq<nat>)
    requires Runs(list, hash, [], starts)
    ensures list == []
  {
  }

  lemma NextIs(list: seq<Elem>, first: Elem?, p: nat)
    requires Linked(list, first) && p < |list|
    ensures list[p].next == At(list, p + 1)
  {
  }

  lemma HeldAt(list: seq<Elem>, contents: map<Key, nat>, p: nat)
    requires Holds(list, contents) && p < |list|
    ensures list[p].key in contents && contents[list[p].key] == list[p].data != 0
  {
  }

  lemma HeldNot(list: seq<Elem>, contents: map<Key, nat>, key: Key)
    requires Holds(list, contents) && forall i :: 0 <= i < |list| ==> list[i].key != key
    ensures key !in contents
  {
  }

  /** A key missing from its bucket is missing altogether. */
  lemma Absent(list: seq<Elem>, hash: Key -> nat, n: nat, key: Key, start: nat, count: nat, h: nat)
    requires n > 0 && h == Slot(hash, n, key) && start + count <= |list|
    requires forall i :: 0 <= i < |list| && Slot(hash, n, list[i].key) == h ==> start <= i < start + count
    requires forall i :: start <= i < start + count ==> list[i].key != key
    ensures forall i :: 0 <= i < |list| ==> list[i].key != key
  {
    hide Slot;
    forall i | 0 <= i < |list| ensures list[i].key != key {
      var s := Slot(hash, n, list[i].key);
    }
  }

  // ---- rehashing ----

  /** The forward pointers alone. */
  ghost predicate Chain(rest: seq<Elem>)
    reads rest`next
  {
    forall i :: 0 <= i < |rest| ==> rest[i].next == At(rest, i + 1)
  }

  /** No element or key in common, and none twice in `rest`. */
  ghost predicate Apart(list: seq<Elem>, rest: seq<Elem>) {
    Distinct(rest) && forall i, j :: 0 <= i < |list| && 0 <= j < |rest| ==> list[i] != rest[j] && list[i].key != rest[j].key
  }

  lemma Chained(list: seq<Elem>, first: Elem?)
    requires Linked(list, first) && Distinct(list)
    ensures Chain(list) && first == At(list, 0) && Apart([], list)
  {
  }

  lemma Fresh(hash: Key -> nat, ht: seq<Bucket>, starts: seq<nat>, rest: seq<Elem>)
    requires |ht| > 0 && |starts| == |ht| && forall h :: 0 <= h < |ht| ==> ht[h] == Bucket(0, null) && starts[h] == 0
    ensures Distinct([]) && Linked([], null) && Runs([], hash, ht, starts)
  {
  }

  lemma ChainTail(rest: seq<Elem>, list: seq<Elem>)
    requires rest != [] && Chain(rest) && Apart(list, rest)
    ensures Chain(rest[1..]) && rest[0].next == At(rest[1..], 0) && rest[0] !in rest[1..]
    ensures forall i :: 0 <= i < |list| ==> list[i] != rest[0] && list[i].key != rest[0].key
    ensures forall x :: x in rest[1..] ==> x !in list
  {
  }

  lemma Moved(list: seq<Elem>, rest: seq<Elem>, p: nat)
    requires rest != [] && Apart(list, rest) && p <= |list|
    ensures var l' := Inserted(list, p, rest[0]);
            Apart(l', rest[1..]) && |l'| == |list| + 1 && forall x :: x in list || x in rest <==> x in l' || x in rest[1..]
  {
    var l', tail := Inserted(list, p, rest[0]), rest[1..];
    assert rest == [rest[0]] + tail;
    assert list == list[..p] + list[p..];
    forall i, j | 0 <= i < |l'| && 0 <= j < |tail| ensures l'[i] != tail[j] && l'[i].key != tail[j].key {
      assert tail[j] == rest[j + 1];
      if i < p { assert l'[i] == list[i]; } else if i > p { assert l'[i] == list[i - 1]; }
    }
  }

  lemma HoldsSame(a: seq<Elem>, b: seq<Elem>, contents: map<Key, nat>)
    requires Holds(a, contents) && forall x :: x in a <==> x in b
    ensures Holds(b, contents)
  {
    forall i | 0 <= i < |b| ensures b[i].data != 0 && b[i].key in contents && contents[b[i].key] == b[i].data {
      assert b[i] in a;
    }
    forall k | k in contents ensures exists i :: 0 <= i < |b| && b[i].key == k {
      var i :| 0 <= i < |a| && a[i].key == k;
      assert a[i] in b;
    }
  }

  function Applied(m: map<Key, nat>, ops: seq<(Key, nat)>): map<Key, nat> {
    if ops == [] then m
    else
      var before, op := Applied(m, ops[..|ops| - 1]), ops[|ops| - 1];
      if op.1 == 0 then before - {op.0} else before[op.0 := op.1]
  }

  // ---- insertion ----

  function KeysOf(list: seq<Elem>): (keys: seq<Key>)
    ensures |keys| == |list|
  {
    seq(|list|, i requires 0 <= i < |list| => list[i].key)
  }

  lemma LiveKeys(list: seq<Elem>, contents: map<Key, nat>)
    requires Distinct(list) && Holds(list, contents)
    ensures forall i, j :: 0 <= i < j < |list| ==> KeysOf(list)[i] != KeysOf(list)[j]
    ensures forall k :: k in KeysOf(list) <==> k in contents
  {
    var keys := KeysOf(list);
    forall k | k in contents ensures k in keys {
      var i :| 0 <= i < |list| && list[i].key == k;
      assert keys[i] == k;
    }
  }

  lemma NewKey(list: seq<Elem>, contents: map<Key, nat>, key: Key)
    requires Holds(list, contents) && key !in contents
    ensures forall i :: 0 <= i < |list| ==> list[i].key != key
  {
  }

  lemma InsertedMembers(list: seq<Elem>, p: nat, e: Elem)
    requires p <= |list|
    ensures forall x :: x in Inserted(list, p, e) ==> x in list || x == e
  {
  }

  lemma HoldsMore(list: seq<Elem>, p: nat, e: Elem, contents: map<Key, nat>)
    requires Holds(list, contents) && p <= |list| && e.key !in contents && e.data != 0
    ensures |Inserted(list, p, e)| == |list| + 1 && Holds(Inserted(list, p, e), contents[e.key := e.data])
  {
    var l', c' := Inserted(list, p, e), contents[e.key := e.data];
    forall i | 0 <= i < |l'| ensures l'[i].data != 0 && l'[i].key in c' && c'[l'[i].key] == l'[i].data {
      if i < p { assert l'[i] == list[i]; } else if i > p { assert l'[i] == list[i - 1]; }
    }
    forall k | k in c' ensures exists i :: 0 <= i < |l'| && l'[i].key == k {
      if k == e.key {
        assert l'[p] == e;
      } else {
        var j :| 0 <= j < |list| && list[j].key == k;
        assert l'[if j < p then j else j + 1] == list[j];
      }
    }
  }

  // ---- what a run of operations leaves ----

  /** The last operation on a key decides: data 0 removes it. */
  lemma {:induction false} AppliedLast(m: map<Key, nat>, ops: seq<(Key, nat)>, i: nat)
    requires i < |ops| && forall j :: i < j < |ops| ==> ops[j].0 != ops[i].0
    ensures var k, r := ops[i].0, Applied(m, ops); (k in r <==> ops[i].1 != 0) && (k in r ==> r[k] == ops[i].1)
    decreases |ops|
  {
    var n := |ops| - 1;
    if i < n {
      assert ops[..n][i] == ops[i];
      AppliedLast(m, ops[..n], i);
    }
  }

  /** A key that no operation names is left alone. */
  lemma {:induction false} AppliedNone(m: map<Key, nat>, ops: seq<(Key, nat)>, k: Key)
    requires forall j :: 0 <= j < |ops| ==> ops[j].0 != k
    ensures var r := Applied(m, ops); (k in r <==> k in m) && (k in r ==> r[k] == m[k])
    decreases |ops|
  {
    if ops != [] { AppliedNone(m, ops[..|ops| - 1], k); }
  }
}

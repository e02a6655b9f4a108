/** Walking over the bytes of position-lists and column-lists. */
module DoclistScan {
  import opened Varint
  import opened Doclist

  /** Read from left to right with `c` telling whether the byte before had its
      high bit set, no byte of `s` is a terminator (a byte of at most `limit`
      that ends no longer number), and `s` ends on a number's last byte. */
  ghost predicate StopFree(s: seq<Byte>, c: bool, limit: nat) {
    if s == [] then !c else (s[0] > limit || c) && StopFree(s[1..], s[0] >= 128, limit)
  }

  lemma {:induction false} StopFreeConcat(s: seq<Byte>, c: bool, t: seq<Byte>, limit: nat)
    requires StopFree(s, c, limit) && StopFree(t, false, limit)
    ensures StopFree(s + t, c, limit)
  {
    if s == [] {
      assert s + t == t;
    } else {
      StopFreeConcat(s[1..], s[0] >= 128, t, limit);
      assert (s + t)[1..] == s[1..] + t;
    }
  }

  lemma {:induction false} EncodeStopFree(u: nat, c: bool, limit: nat)
    requires c || u > limit
    requires limit <= 1
    ensures StopFree(Encode(u), c, limit)
  {
    if u >= 128 { EncodeStopFree(u / 128, true, limit); }
  }

  lemma {:induction false} PositionsStopFree(ps: seq<nat>, lo: int)
    ensures StopFree(EncodePositions(ps, lo), false, 1)
  {
    if ps != [] {
      EncodeStopFree(Distance(Base(lo), ps[0]) + 2, false, 1);
      PositionsStopFree(ps[1..], ps[0]);
      StopFreeConcat(Encode(Distance(Base(lo), ps[0]) + 2), false, EncodePositions(ps[1..], ps[0]), 1);
    }
  }

  lemma {:induction false} StopFreeWeaken(s: seq<Byte>, c: bool)
    requires StopFree(s, c, 1)
    ensures StopFree(s, c, 0)
  {
    if s != [] { StopFreeWeaken(s[1..], s[0] >= 128); }
  }

  lemma ColumnStopFree(c: Column)
    ensures StopFree(EncodeColumn(c), false, 0)
  {
    PositionsStopFree(c.positions, -1);
    StopFreeWeaken(EncodePositions(c.positions, -1), false);
    if c.index == 0 {
      assert EncodeColumn(c) == EncodePositions(c.positions, -1);
    } else {
      EncodeStopFree(c.index, false, 0);
      StopFreeConcat([POS_COLUMN], false, Encode(c.index), 0);
      StopFreeConcat(ColumnHeader(c.index), false, EncodePositions(c.positions, -1), 0);
    }
  }

  lemma {:induction false} ColumnsStopFree(cs: seq<Column>)
    ensures StopFree(EncodeColumns(cs), false, 0)
  {
    if cs != [] {
      ColumnStopFree(cs[0]);
      ColumnsStopFree(cs[1..]);
      StopFreeConcat(EncodeColumn(cs[0]), false, EncodeColumns(cs[1..]), 0);
    }
  }

  // ---- what stands in a buffer from an offset to its end ----

  ghost predicate Tail(a: seq<Byte>, p: nat, s: seq<Byte>) {
    p <= |a| && a[p..] == s
  }

  lemma TailDrop(a: seq<Byte>, p: nat, s: seq<Byte>, t: seq<Byte>)
    requires Tail(a, p, s + t)
    ensures Tail(a, p + |s|, t)
    ensures p + |s| <= |a| && a[p..p + |s|] == s
  {
    assert a[p + |s|..] == a[p..][|s|..];
    assert a[p..p + |s|] == a[p..][..|s|];
  }

  lemma TailLength(a: seq<Byte>, p: nat, s: seq<Byte>)
    requires Tail(a, p, s)
    ensures p + |s| == |a|
  {
  }

  lemma TailByte(a: seq<Byte>, p: nat, s: seq<Byte>)
    requires Tail(a, p, s) && s != []
    ensures p < |a| && a[p] == s[0] && Tail(a, p + 1, s[1..])
  {
    assert a[p + 1..] == a[p..][1..];
  }

  /** Two positions of one buffer: the bytes between them. */
  lemma TailBetween(a: seq<Byte>, p: nat, s: seq<Byte>, rest: seq<Byte>, end: nat)
    requires Tail(a, p, s + rest) && Tail(a, end, rest)
    ensures end == p + |s| && a[p..end] == s
  {
    assert |a[p..]| == |s| + |a[end..]|;
    assert a[p..end] == a[p..][..end - p];
  }

  // ---- the routines ----

  /** Finds the end of the position-list that starts at `a[p]`. */
  method PoslistEnd(a: seq<Byte>, p: nat, ghost cs: seq<Column>, ghost rest: seq<Byte>) returns (end: nat)
    requires Tail(a, p, EncodePoslist(cs) + rest)
    ensures end == p + |EncodePoslist(cs)| <= |a|
    ensures a[p..end] == EncodePoslist(cs) && Tail(a, end, rest)
  {
    end := p;
    var c := false;
    ghost var t := EncodeColumns(cs);
    ColumnsStopFree(cs);
    Associative(t, [POS_END], rest);
    hide Tail, EncodeColumns;
    TailByte(a, p, t + ([POS_END] + rest));
    while a[end] != 0 || c
      invariant end < |a|
      invariant Tail(a, end, t + ([POS_END] + rest))
      invariant a[end] == (t + ([POS_END] + rest))[0]
      invariant StopFree(t, c, 0)
      decreases |a| - end
    {
      TailByte(a, end, t + ([POS_END] + rest));
      assert (t + ([POS_END] + rest))[1..] == t[1..] + ([POS_END] + rest);
      t := t[1..];
      c := a[end] >= 128;
      end := end + 1;
      TailByte(a, end, t + ([POS_END] + rest));
    }
    assert t + ([POS_END] + rest) == [POS_END] + rest;
    TailDrop(a, end, [POS_END], rest);
    end := end + 1;
    TailBetween(a, p, EncodePoslist(cs), rest, end);
  }

  /** Finds the terminator of the column-list whose positions start at `a[p]`. */
  method ColumnlistEnd(a: seq<Byte>, p: nat, ghost ps: seq<nat>, ghost lo: int, ghost rest: seq<Byte>) returns (end: nat)
    requires rest != [] && rest[0] <= 1
    requires Tail(a, p, EncodePositions(ps, lo) + rest)
    ensures end == p + |EncodePositions(ps, lo)| <= |a|
    ensures a[p..end] == EncodePositions(ps, lo) && Tail(a, end, rest)
  {
    end := p;
    var c := false;
    ghost var t := EncodePositions(ps, lo);
    PositionsStopFree(ps, lo);
    hide Tail, EncodePositions;
    TailByte(a, p, t + rest);
    while a[end] > 1 || c
      invariant end < |a|
      invariant Tail(a, end, t + rest) && a[end] == (t + rest)[0]
      invariant StopFree(t, c, 1)
      decreases |a| - end
    {
      TailByte(a, end, t + rest);
      assert (t + rest)[1..] == t[1..] + rest;
      t := t[1..];
      c := a[end] >= 128;
      end := end + 1;
      TailByte(a, end, t + rest);
    }
    assert t + rest == rest;
    TailBetween(a, p, EncodePositions(ps, lo), rest, end);
  }

  /** Copies `src` over `o` from offset `q`. */
  method CopyBytes(o: array<Byte>, q: nat, src: seq<Byte>)
    requires q + |src| <= o.Length
    modifies o
    ensures o[..] == Splice(old(o[..]), q, src)
  {
    for i := 0 to |src|
      invariant forall k :: 0 <= k < i ==> o[q + k] == src[k]
      invariant forall k :: 0 <= k < q || q + i <= k < o.Length ==> o[k] == old(o[k])
    {
      o[q + i] := src[i];
    }
    assert forall k :: q <= k < q + |src| ==> o[k] == src[k - q];
  }

  method PutByte(o: array<Byte>, p: nat, b: Byte)
    requires p < o.Length
    modifies o
    ensures o[..] == Splice(old(o[..]), p, [b])
  {
    o[p] := b;
  }

  /** Reads a number that is known to stand at `a[p..]`. */
  method ReadVarint(a: seq<Byte>, p: nat, ghost u: nat, ghost rest: seq<Byte>) returns (v: Int64, q: nat)
    requires u < TWO_64
    requires Tail(a, p, Encode(u) + rest)
    ensures ToUnsigned(v) == u && (u < TWO_63 ==> v == u)
    ensures q == p + |Encode(u)| <= |a| && Tail(a, q, rest)
  {
    ReadBack(a, p, u, rest);
    var n;
    v, n := GetVarint(a, p);
    q := p + n;
  }
}

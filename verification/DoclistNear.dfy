/** Which positions a phrase or NEAR merge keeps, as a filter on contents, and
    why the two-pointer scan over sorted positions computes it. */
module DoclistNear {
  import opened Varint
  import opened Doclist

  /** What one merge keeps: right positions exactly `n` after a left one, right
      positions 1 to `n` after a left one, or left positions 1 to `n` before a
      right one. */
  datatype Mode = Exact | SaveRight | SaveLeft

  /** `p`, from the list being saved, has a partner in the other list. */
  ghost predicate Near(m: Mode, n: nat, p: nat, other: seq<nat>) {
    match m
    case Exact => p >= n && p - n in other
    case SaveRight => exists q :: q in other && q < p <= q + n
    case SaveLeft => exists q :: q in other && p < q <= p + n
  }

  ghost function Kept(m: Mode, n: nat, ps: seq<nat>, other: seq<nat>): seq<nat> {
    if ps == [] then []
    else (if Near(m, n, ps[0], other) then [ps[0]] else []) + Kept(m, n, ps[1..], other)
  }

  /** The positions of column `index`, if the list has it. */
  ghost function PositionsOf(cs: seq<Column>, index: nat): seq<nat> {
    if cs == [] then [] else if cs[0].index == index then cs[0].positions else PositionsOf(cs[1..], index)
  }

  ghost function KeptColumns(m: Mode, n: nat, cs: seq<Column>, other: seq<Column>): seq<Column> {
    if cs == [] then []
    else
      var ps := Kept(m, n, cs[0].positions, PositionsOf(other, cs[0].index));
      (if ps == [] then [] else [Column(cs[0].index, ps)]) + KeptColumns(m, n, cs[1..], other)
  }

  // ---- the filter is a filter ----

  lemma {:induction false} KeptMembers(m: Mode, n: nat, ps: seq<nat>, other: seq<nat>, lo: int)
    requires Sorted(ps, lo)
    ensures Sorted(Kept(m, n, ps, other), lo)
    ensures forall p :: p in Kept(m, n, ps, other) <==> p in ps && Near(m, n, p, other)
  {
    if ps != [] {
      KeptMembers(m, n, ps[1..], other, ps[0]);
      assert ps == [ps[0]] + ps[1..];
      var rest := Kept(m, n, ps[1..], other);
      SortedWeaken(rest, ps[0], lo);
      assert Kept(m, n, ps, other) == if Near(m, n, ps[0], other) then [ps[0]] + rest else rest;
      assert ([ps[0]] + rest)[1..] == rest;
    }
  }

  lemma SortedWeaken(ps: seq<nat>, lo: int, lo': int)
    requires Sorted(ps, lo) && lo' <= lo
    ensures Sorted(ps, lo')
  {
  }

  lemma {:induction false} ColumnsWeaken(cs: seq<Column>, lo: int, lo': int)
    requires ValidColumns(cs, lo) && lo' <= lo
    ensures ValidColumns(cs, lo')
  {
  }

  lemma {:induction false} PositionsOfHits(cs: seq<Column>, index: nat, lo: int)
    requires ValidColumns(cs, lo)
    ensures forall p :: p in PositionsOf(cs, index) <==> (index, p) in ColumnHits(cs)
    ensures index <= lo ==> PositionsOf(cs, index) == []
  {
    if cs != [] {
      PositionsOfHits(cs[1..], index, cs[0].index);
      ColumnsMembers(cs[1..], cs[0].index);
    }
  }

  /** The kept hits are the saved list's hits with a partner in the same column
      of the other list. */
  lemma {:induction false} KeptColumnsMembers(m: Mode, n: nat, cs: seq<Column>, other: seq<Column>, lo: int)
    requires ValidColumns(cs, lo)
    ensures ValidColumns(KeptColumns(m, n, cs, other), lo)
    ensures forall h :: h in ColumnHits(KeptColumns(m, n, cs, other))
                   <==> h in ColumnHits(cs) && Near(m, n, h.1, PositionsOf(other, h.0))
  {
    if cs != [] {
      KeptColumnsMembers(m, n, cs[1..], other, cs[0].index);
      ColumnsWeaken(KeptColumns(m, n, cs[1..], other), cs[0].index, lo);
      KeptMembers(m, n, cs[0].positions, PositionsOf(other, cs[0].index), -1);
      ConsKept(m, n, cs, other);
    }
  }

  lemma ConsKept(m: Mode, n: nat, cs: seq<Column>, other: seq<Column>)
    requires cs != []
    ensures var ps := Kept(m, n, cs[0].positions, PositionsOf(other, cs[0].index));
            var rest := KeptColumns(m, n, cs[1..], other);
            if ps == [] then KeptColumns(m, n, cs, other) == rest
            else && KeptColumns(m, n, cs, other) == [Column(cs[0].index, ps)] + rest
                 && KeptColumns(m, n, cs, other)[0] == Column(cs[0].index, ps)
                 && KeptColumns(m, n, cs, other)[1..] == rest
  {
  }

  // ---- the scan: what may be dropped ----

  lemma {:induction false} KeptSame(m: Mode, n: nat, ps: seq<nat>, other: seq<nat>, other': seq<nat>)
    requires forall p :: p in ps ==> Near(m, n, p, other) == Near(m, n, p, other')
    ensures Kept(m, n, ps, other) == Kept(m, n, ps, other')
  {
    if ps != [] { KeptSame(m, n, ps[1..], other, other'); }
  }

  lemma {:induction false} KeptNone(m: Mode, n: nat, ps: seq<nat>)
    ensures Kept(m, n, ps, []) == []
  {
    if ps != [] { KeptNone(m, n, ps[1..]); }
  }

  /** The head of the other list is out of reach of everything still to be
      saved, and may be dropped. */
  lemma DropOther(m: Mode, n: nat, ps: seq<nat>, other: seq<nat>, lo: int, lo': int)
    requires Sorted(ps, lo) && Sorted(other, lo') && ps != [] && other != []
    requires if m == SaveLeft then other[0] <= ps[0] else ps[0] > other[0] + n
    ensures Kept(m, n, ps, other) == Kept(m, n, ps, other[1..])
  {
    SortedMembers(ps[1..], ps[0]);
    assert ps == [ps[0]] + ps[1..];
    assert forall q :: q in other <==> q == other[0] || q in other[1..] by {
      assert other == [other[0]] + other[1..];
    }
    forall p | p in ps
      ensures Near(m, n, p, other) == Near(m, n, p, other[1..])
    {
      assert p >= ps[0];
    }
    KeptSame(m, n, ps, other, other[1..]);
  }

  /** The head of the list being saved is decided by the head of the other. */
  lemma DecideHead(m: Mode, n: nat, p: nat, other: seq<nat>, lo': int)
    requires Sorted(other, lo') && other != [] && n > 0
    requires if m == SaveLeft then p < other[0] else p <= other[0] + n
    ensures Near(m, n, p, other) <==>
            match m
            case Exact => p == other[0] + n
            case SaveRight => other[0] < p
            case SaveLeft => other[0] <= p + n
  {
    SortedMembers(other[1..], other[0]);
    assert other == [other[0]] + other[1..];
    assert other[0] in other;
  }

  /** What a merge of left and right positions keeps. */
  ghost function Merged(m: Mode, n: nat, left: seq<nat>, right: seq<nat>): seq<nat> {
    if m == SaveLeft then Kept(m, n, left, right) else Kept(m, n, right, left)
  }

  /** The two heads are close enough to be kept. */
  predicate Hit(m: Mode, n: nat, p1: int, p2: int) {
    p2 == p1 + n || (m != Exact && p1 < p2 <= p1 + n)
  }

  /** It is the right-hand head that is done with. */
  predicate DropRight(m: Mode, n: nat, p1: int, p2: int) {
    (m != SaveLeft && p2 <= p1 + n) || p2 <= p1
  }

  ghost function Saved(m: Mode, left: seq<nat>, right: seq<nat>): seq<nat> {
    if m == SaveLeft then left else right
  }

  ghost function LeftRest(m: Mode, n: nat, left: seq<nat>, right: seq<nat>): seq<nat>
    requires left != [] && right != []
  {
    if DropRight(m, n, left[0], right[0]) then left else left[1..]
  }

  ghost function RightRest(m: Mode, n: nat, left: seq<nat>, right: seq<nat>): seq<nat>
    requires left != [] && right != []
  {
    if DropRight(m, n, left[0], right[0]) then right[1..] else right
  }

  /** One turn of the scan: a hit emits the saved head, and then one head is
      dropped without losing anything; a list that runs out ends the scan. */
  lemma ScanStep(m: Mode, n: nat, left: seq<nat>, right: seq<nat>, l1: int, l2: int)
    requires Sorted(left, l1) && Sorted(right, l2) && left != [] && right != [] && n > 0
    ensures var s, t := LeftRest(m, n, left, right), RightRest(m, n, left, right);
            && Merged(m, n, left, right)
               == (if Hit(m, n, left[0], right[0]) then [Saved(m, left, right)[0]] else []) + Merged(m, n, s, t)
            && (Hit(m, n, left[0], right[0]) ==> DropRight(m, n, left[0], right[0]) == (m != SaveLeft))
            && (s == [] || t == [] ==> Merged(m, n, s, t) == [])
  {
    KeptNone(m, n, left);
    KeptNone(m, n, right);
    if m == SaveLeft {
      if right[0] <= left[0] {
        DropOther(m, n, left, right, l1, l2);
      } else {
        DecideHead(m, n, left[0], right, l2);
      }
    } else if right[0] <= left[0] + n {
      DecideHead(m, n, right[0], left, l1);
    } else {
      DropOther(m, n, right, left, l2, l1);
    }
  }

  // ---- the scan over columns ----

  ghost function MergedColumns(m: Mode, n: nat, left: seq<Column>, right: seq<Column>): seq<Column> {
    if m == SaveLeft then KeptColumns(m, n, left, right) else KeptColumns(m, n, right, left)
  }

  ghost function SavedColumns(m: Mode, left: seq<Column>, right: seq<Column>): seq<Column> {
    if m == SaveLeft then left else right
  }

  lemma {:induction false} KeptColumnsSame(m: Mode, n: nat, cs: seq<Column>, other: seq<Column>, lo: int)
    requires ValidColumns(cs, lo) && other != [] && other[0].index <= lo
    ensures KeptColumns(m, n, cs, other) == KeptColumns(m, n, cs, other[1..])
  {
    if cs != [] { KeptColumnsSame(m, n, cs[1..], other, cs[0].index); }
  }

  lemma {:induction false} KeptColumnsNone(m: Mode, n: nat, cs: seq<Column>)
    ensures KeptColumns(m, n, cs, []) == []
  {
    if cs != [] {
      KeptNone(m, n, cs[0].positions);
      KeptColumnsNone(m, n, cs[1..]);
    }
  }

  /** A column that the other list lacks keeps nothing. */
  lemma DropUnmatched(m: Mode, n: nat, cs: seq<Column>, other: seq<Column>, lo: int)
    requires ValidColumns(other, lo) && cs != [] && cs[0].index <= lo
    ensures KeptColumns(m, n, cs, other) == KeptColumns(m, n, cs[1..], other)
  {
    PositionsOfHits(other, cs[0].index, lo);
    KeptNone(m, n, cs[0].positions);
  }

  lemma SameColumnStep(m: Mode, n: nat, cs: seq<Column>, other: seq<Column>, lo: int)
    requires ValidColumns(cs, lo) && ValidColumns(other, lo) && cs != [] && other != []
    requires cs[0].index == other[0].index
    ensures var ps := Kept(m, n, cs[0].positions, other[0].positions);
            (KeptColumns(m, n, cs, other)
             == (if ps == [] then [] else [Column(cs[0].index, ps)]) + KeptColumns(m, n, cs[1..], other[1..]))
  {
    KeptColumnsSame(m, n, cs[1..], other, cs[0].index);
  }

  lemma SmallerColumnStep(m: Mode, n: nat, cs: seq<Column>, other: seq<Column>, lo: int)
    requires ValidColumns(cs, lo) && ValidColumns(other, lo) && cs != [] && other != []
    ensures cs[0].index < other[0].index ==> KeptColumns(m, n, cs, other) == KeptColumns(m, n, cs[1..], other)
    ensures other[0].index < cs[0].index ==> KeptColumns(m, n, cs, other) == KeptColumns(m, n, cs, other[1..])
  {
    if cs[0].index < other[0].index {
      DropUnmatched(m, n, cs, other, other[0].index - 1);
    } else if other[0].index < cs[0].index {
      KeptColumnsSame(m, n, cs, other, cs[0].index - 1);
    }
  }

  /** One turn of the column scan. */
  lemma ColumnScanStep(m: Mode, n: nat, left: seq<Column>, right: seq<Column>, lo: int)
    requires ValidColumns(left, lo) && ValidColumns(right, lo) && left != [] && right != []
    ensures left[0].index == right[0].index ==>
              var ps := Merged(m, n, left[0].positions, right[0].positions);
              (MergedColumns(m, n, left, right)
               == (if ps == [] then [] else [Column(left[0].index, ps)]) + MergedColumns(m, n, left[1..], right[1..]))
    ensures left[0].index < right[0].index ==>
              MergedColumns(m, n, left, right) == MergedColumns(m, n, left[1..], right)
    ensures right[0].index < left[0].index ==>
              MergedColumns(m, n, left, right) == MergedColumns(m, n, left, right[1..])
  {
    if left[0].index == right[0].index {
      SameColumnStep(m, n, left, right, lo);
      SameColumnStep(m, n, right, left, lo);
    } else {
      SmallerColumnStep(m, n, left, right, lo);
      SmallerColumnStep(m, n, right, left, lo);
    }
  }

  lemma ColumnScanEnd(m: Mode, n: nat, left: seq<Column>, right: seq<Column>)
    requires left == [] || right == []
    ensures MergedColumns(m, n, left, right) == []
  {
    KeptColumnsNone(m, n, left);
    KeptColumnsNone(m, n, right);
  }

  // ---- a filtered list is no longer than the list ----

  lemma {:induction false} SubsetSize(ks: seq<nat>, ps: seq<nat>, lo: int)
    requires Sorted(ks, lo) && Sorted(ps, lo) && forall k :: k in ks ==> k in ps
    ensures |EncodePositions(ks, lo)| <= |EncodePositions(ps, lo)|
    decreases |ps|
  {
    hide Encode;
    if ks != [] {
      assert ks[0] in ps;
      assert ps == [ps[0]] + ps[1..] && ks == [ks[0]] + ks[1..];
      SortedMembers(ks[1..], ks[0]);
      SortedMembers(ps[1..], ps[0]);
      if ks[0] == ps[0] {
        assert forall k :: k in ks[1..] ==> k in ks;
        SubsetSize(ks[1..], ps[1..], ks[0]);
      } else {
        SortedWeaken(ps[1..], ps[0], lo);
        SubsetSize(ks, ps[1..], lo);
        DropHeadSize(ps, lo);
      }
    }
  }

  lemma {:induction false} SubColumnsSize(ks: seq<Column>, cs: seq<Column>, lo: int)
    requires ValidColumns(ks, lo) && ValidColumns(cs, lo) && ColumnHits(ks) <= ColumnHits(cs)
    ensures |EncodeColumns(ks)| <= |EncodeColumns(cs)|
    decreases |cs|
  {
    hide Encode, EncodePositions, Sorted;
    if ks != [] {
      ColumnsMembers(ks[1..], ks[0].index);
      FirstHit(ks);
      ColumnsMembers(cs[1..], cs[0].index);
      if ks[0].index == cs[0].index {
        FirstColumnHits(ks);
        FirstColumnHits(cs);
        SubsetSize(ks[0].positions, cs[0].positions, -1);
        SubColumnsSize(ks[1..], cs[1..], ks[0].index);
      } else {
        ColumnsWeaken(cs[1..], cs[0].index, lo);
        SubColumnsSize(ks, cs[1..], lo);
      }
    }
  }

  lemma FirstHit(cs: seq<Column>)
    requires cs != [] && cs[0].positions != []
    ensures (cs[0].index, cs[0].positions[0]) in ColumnHits(cs)
  {
  }

  lemma FirstColumnHits(cs: seq<Column>)
    requires cs != [] && ValidColumns(cs[1..], cs[0].index)
    ensures forall p :: p in cs[0].positions <==> (cs[0].index, p) in ColumnHits(cs)
  {
    ColumnsMembers(cs[1..], cs[0].index);
  }

  lemma DropHeadSize(ps: seq<nat>, lo: int)
    requires Sorted(ps, lo) && ps != []
    ensures |EncodePositions(ps[1..], lo)| <= |EncodePositions(ps, lo)|
  {
    if |ps| > 1 {
      var u, w := Distance(Base(lo), ps[0]) + 2, Distance(ps[0], ps[1]) + 2;
      LengthSubadditive(u, w);
      LengthMonotone(Distance(Base(lo), ps[1]) + 2, u + w);
    }
  }

  lemma MergedSize(m: Mode, n: nat, left: seq<nat>, right: seq<nat>)
    requires Sorted(left, -1) && Sorted(right, -1)
    ensures |EncodePositions(Merged(m, n, left, right), -1)| <= |EncodePositions(Saved(m, left, right), -1)|
  {
    KeptMembers(m, n, left, right, -1);
    KeptMembers(m, n, right, left, -1);
    SubsetSize(Merged(m, n, left, right), Saved(m, left, right), -1);
  }
}

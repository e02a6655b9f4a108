/** The stat3 sampler: out of all keys of an index, offered in order, it keeps
    every periodic one and the most frequent of the others. */
module Stat3 {

  datatype Sample = Sample(rowid: int, nEq: nat, nLt: nat, nDLt: nat, isPSample: bool, hash: nat)

  /** The order of retention: frequency, then the tie-breaking hash. */
  predicate Below(a: Sample, b: Sample) {
    a.nEq < b.nEq || (a.nEq == b.nEq && a.hash < b.hash)
  }

  function End(s: Sample): nat {
    s.nLt + s.nEq
  }

  /** A key is periodic if its rows cross a multiple of the period. */
  predicate Crosses(s: Sample, period: nat)
    requires period > 0
  {
    Straddles(s.nLt, s.nEq, period)
  }

  predicate Straddles(nLt: nat, nEq: nat, period: nat)
    requires period > 0
  {
    nLt / period != (nEq + nLt) / period
  }

  /** The pseudo-random sequence that breaks ties. */
  function NextRandom(r: nat): nat {
    (r * 1103515245 + 12345) % 0x1_0000_0000
  }

  function Periodic(samples: seq<Sample>): nat {
    if samples == [] then 0 else (if samples[0].isPSample then 1 else 0) + Periodic(samples[1..])
  }

  function Period(nRow: nat, mxSample: nat): (p: nat)
    ensures p > 0
  {
    nRow / (mxSample / 3 + 1) + 1
  }

  /** Keys in order, each starting where its predecessors end or later. */
  predicate InOrder(samples: seq<Sample>) {
    forall i, j :: 0 <= i < j < |samples| ==> End(samples[i]) <= samples[j].nLt
  }

  function Without(samples: seq<Sample>, i: nat): seq<Sample>
    requires i < |samples|
  {
    samples[..i] + samples[i + 1..]
  }

  /** A key is periodic exactly if a multiple of the period falls among its rows. */
  lemma StraddlesMeans(nLt: nat, nEq: nat, period: nat)
    requires period > 0
    ensures Straddles(nLt, nEq, period) <==> exists k: nat :: nLt < k * period <= nLt + nEq
  {
    var a, b := nLt / period, (nEq + nLt) / period;
    if a != b {
      DivMono(nLt, nEq + nLt, period);
      Within(nLt, period, b);
      Within(nEq + nLt, period, b);
      assert nLt < b * period <= nLt + nEq;
    }
    if k: nat :| nLt < k * period <= nLt + nEq {
      Within(nLt, period, k);
      Within(nEq + nLt, period, k);
    }
  }

  /** A quotient reaches `k` exactly from `k` times the divisor on. */
  lemma Within(n: nat, p: nat, k: nat)
    requires p > 0
    ensures n / p >= k <==> n >= k * p
  {
    var q := n / p;
    assert n == q * p + n % p;
    MulMono(k, q, p);
    MulMono(q + 1, k, p);
  }

  /** The period is the least with which a third of the samples, and no more, can be
      periodic. */
  lemma PeriodMeans(nRow: nat, mxSample: nat)
    ensures (Period(nRow, mxSample) - 1) * (mxSample / 3 + 1) <= nRow < Period(nRow, mxSample) * (mxSample / 3 + 1)
  {
    var k := mxSample / 3 + 1;
    assert nRow == nRow / k * k + nRow % k;
  }

  /** The first random numbers from the seed 0. */
  lemma RandomStarts()
    ensures NextRandom(0) == 12345 && NextRandom(12345) == 3554416254
  {
  }

  // ---- the state of the sampler, as a value ----

  datatype Accum = Accum(nRow: nat, mxSample: nat, kept: seq<Sample>, iMin: nat, pushed: seq<Sample>, dropped: seq<Sample>, total: nat)

  ghost predicate Least(kept: seq<Sample>, i: nat) {
    && i < |kept| && !kept[i].isPSample
    && forall j :: 0 <= j < |kept| && !kept[j].isPSample ==> !Below(kept[j], kept[i])
  }

  ghost predicate Sane(a: Accum) {
    && a.mxSample >= 1 && |a.kept| <= a.mxSample && a.total <= a.nRow
    && InOrder(a.kept) && InOrder(a.pushed) && (a.pushed != [] ==> End(a.pushed[|a.pushed| - 1]) == a.total)
    && (forall i :: 0 <= i < |a.kept| ==> a.kept[i].nEq > 0 && End(a.kept[i]) <= a.total)
    && (forall i :: 0 <= i < |a.kept| ==> (a.kept[i].isPSample <==> Crosses(a.kept[i], Period(a.nRow, a.mxSample))))
    && Periodic(a.kept) <= a.total / Period(a.nRow, a.mxSample)
  }

  /** Nothing is lost: what was offered is kept or dropped, nothing periodic is
      dropped, and no dropped key is above a kept one that is not periodic. */
  ghost predicate Fair(a: Accum) {
    && multiset(a.kept) + multiset(a.dropped) == multiset(a.pushed)
    && (forall d :: 0 <= d < |a.dropped| ==> !a.dropped[d].isPSample)
    && (forall d, k :: 0 <= d < |a.dropped| && 0 <= k < |a.kept| && !a.kept[k].isPSample ==> !Below(a.kept[k], a.dropped[d]))
    && (a.dropped != [] ==> |a.kept| == a.mxSample)
  }

  ghost predicate Good(a: Accum) {
    Sane(a) && Fair(a) && (|a.kept| == a.mxSample ==> Least(a.kept, a.iMin))
  }

  /** At most a third of the samples are periodic. */
  lemma PeriodicBound(nRow: nat, mxSample: nat, total: nat)
    requires total <= nRow
    ensures total / Period(nRow, mxSample) <= mxSample / 3
  {
    var k := mxSample / 3;
    PeriodCovers(nRow, k);
    var p := Period(nRow, mxSample);
    assert total == total / p * p + total % p;
    MulMono(k + 1, total / p, p);
  }

  lemma PeriodCovers(n: nat, k: nat)
    ensures n < (k + 1) * (n / (k + 1) + 1)
  {
    assert n == (k + 1) * (n / (k + 1)) + n % (k + 1);
  }

  lemma MulMono(a: nat, b: nat, p: nat)
    requires p > 0
    ensures a <= b ==> a * p <= b * p
  {
  }

  lemma {:induction false} PeriodicAppend(s: seq<Sample>, x: Sample)
    ensures Periodic(s + [x]) == Periodic(s) + if x.isPSample then 1 else 0
  {
    if s != [] {
      assert (s + [x])[1..] == s[1..] + [x];
      PeriodicAppend(s[1..], x);
    } else {
      assert (s + [x])[1..] == [];
    }
  }

  lemma {:induction false} PeriodicWithout(s: seq<Sample>, i: nat)
    requires i < |s| && !s[i].isPSample
    ensures Periodic(Without(s, i)) == Periodic(s)
  {
    if i == 0 {
      assert Without(s, 0) == s[1..];
    } else {
      assert Without(s, i)[1..] == Without(s[1..], i - 1);
      PeriodicWithout(s[1..], i - 1);
    }
  }

  /** Where fewer than all are periodic, one is not. */
  lemma {:induction false} SomePlain(s: seq<Sample>) returns (i: nat)
    requires Periodic(s) < |s|
    ensures i < |s| && !s[i].isPSample
  {
    if !s[0].isPSample {
      i := 0;
    } else {
      var j := SomePlain(s[1..]);
      i := j + 1;
    }
  }

  /** The share of periodic keys grows with the rows seen. */
  lemma ShareGrows(x: Sample, total: nat, period: nat)
    requires period > 0 && x.nLt >= total
    ensures total / period + (if Crosses(x, period) then 1 else 0) <= End(x) / period
  {
    DivMono(total, x.nLt, period);
    DivMono(x.nLt, End(x), period);
  }

  lemma DivMono(a: nat, b: nat, p: nat)
    requires a <= b && p > 0
    ensures a / p <= b / p
  {
    assert a == a / p * p + a % p && b == b / p * p + b % p;
    MulMono(b / p + 1, a / p, p);
  }

  // ---- one push ----

  function Appended(a: Accum, x: Sample): Accum {
    a.(kept := a.kept + [x], pushed := a.pushed + [x], total := End(x))
  }

  function Rejected(a: Accum, x: Sample): Accum {
    a.(pushed := a.pushed + [x], dropped := a.dropped + [x], total := End(x))
  }

  function Replaced(a: Accum, x: Sample): Accum
    requires a.iMin < |a.kept|
  {
    a.(kept := Without(a.kept, a.iMin) + [x], pushed := a.pushed + [x], dropped := a.dropped + [a.kept[a.iMin]], total := End(x))
  }

  /** A key that comes after all others. */
  ghost predicate Fits(a: Accum, x: Sample) {
    && x.nEq > 0 && x.nLt == a.total && End(x) <= a.nRow
    && (x.isPSample <==> Crosses(x, Period(a.nRow, a.mxSample)))
  }

  lemma PushedInOrder(a: Accum, x: Sample)
    requires Sane(a) && Fits(a, x)
    ensures InOrder(a.pushed + [x])
  {
    var p := a.pushed + [x];
    forall i, j | 0 <= i < j < |p| ensures End(p[i]) <= p[j].nLt {
      if j == |a.pushed| && i < j - 1 { assert End(p[i]) <= p[j - 1].nLt; }
    }
  }

  lemma AppendedSane(a: Accum, x: Sample)
    requires Sane(a) && Fits(a, x) && |a.kept| < a.mxSample
    ensures Sane(Appended(a, x))
  {
    hide Crosses, Period;
    PushedInOrder(a, x);
    PeriodicAppend(a.kept, x);
    ShareGrows(x, a.total, Period(a.nRow, a.mxSample));
  }

  lemma RejectedSane(a: Accum, x: Sample)
    requires Sane(a) && Fits(a, x)
    ensures Sane(Rejected(a, x))
  {
    hide Crosses, Period;
    PushedInOrder(a, x);
    ShareGrows(x, a.total, Period(a.nRow, a.mxSample));
  }

  lemma ReplacedSane(a: Accum, x: Sample)
    requires Sane(a) && Fits(a, x) && |a.kept| == a.mxSample && Least(a.kept, a.iMin)
    ensures Sane(Replaced(a, x))
  {
    hide Crosses, Period, Without;
    PushedInOrder(a, x);
    WithoutSame(a.kept, a.iMin);
    PeriodicWithout(a.kept, a.iMin);
    var rest := Without(a.kept, a.iMin);
    PeriodicAppend(rest, x);
    ShareGrows(x, a.total, Period(a.nRow, a.mxSample));
    var kept := rest + [x];
    forall i | 0 <= i < |kept|
      ensures kept[i].nEq > 0 && End(kept[i]) <= End(x) && (kept[i].isPSample <==> Crosses(kept[i], Period(a.nRow, a.mxSample)))
      ensures i < |rest| ==> End(kept[i]) <= x.nLt
    {
      if i < |rest| { assert kept[i] == a.kept[Shift(i, a.iMin)]; }
    }
    assert InOrder(kept);
  }

  function Shift(k: nat, i: nat): nat {
    if k < i then k else k + 1
  }

  lemma WithoutSame(s: seq<Sample>, i: nat)
    requires i < |s|
    ensures |Without(s, i)| == |s| - 1 && forall k :: 0 <= k < |s| - 1 ==> Without(s, i)[k] == s[Shift(k, i)]
    ensures InOrder(s) ==> InOrder(Without(s, i))
  {
  }

  /** The index of the minimum matters only when the sampler is full. */
  lemma NewMin(a: Accum, m: nat)
    requires Sane(a) && Fair(a) && (|a.kept| == a.mxSample ==> Least(a.kept, m))
    ensures Good(a.(iMin := m))
  {
  }

  lemma AppendedFair(a: Accum, x: Sample)
    requires Fair(a) && |a.kept| < a.mxSample
    ensures Fair(Appended(a, x))
  {
  }

  lemma RejectedFair(a: Accum, x: Sample)
    requires Fair(a) && |a.kept| == a.mxSample && Least(a.kept, a.iMin) && !x.isPSample && !Below(a.kept[a.iMin], x)
    ensures Fair(Rejected(a, x))
  {
  }

  lemma ReplacedFair(a: Accum, x: Sample)
    requires Fair(a) && |a.kept| == a.mxSample && Least(a.kept, a.iMin) && (x.isPSample || Below(a.kept[a.iMin], x))
    ensures Fair(Replaced(a, x))
  {
    var kept := Without(a.kept, a.iMin);
    assert a.kept == a.kept[..a.iMin] + [a.kept[a.iMin]] + a.kept[a.iMin + 1..];
    assert multiset(a.kept) == multiset(kept) + multiset{a.kept[a.iMin]};
    var b := Replaced(a, x);
    forall d, k | 0 <= d < |b.dropped| && 0 <= k < |b.kept| && !b.kept[k].isPSample
      ensures !Below(b.kept[k], b.dropped[d])
    {
      if k < |kept| {
        assert b.kept[k] == a.kept[if k < a.iMin then k else k + 1];
      }
    }
  }

  lemma SaneFull(a: Accum)
    requires Good(a)
    ensures a.mxSample >= 1 && |a.kept| <= a.mxSample && (|a.kept| == a.mxSample ==> a.iMin < |a.kept|)
  {
  }

  /** When the sampler is full, the search for the minimum finds a sample. */
  lemma FullHasPlain(a: Accum) returns (i: nat)
    requires Sane(a) && |a.kept| == a.mxSample
    ensures i < |a.kept| && !a.kept[i].isPSample
  {
    PeriodicBound(a.nRow, a.mxSample, a.total);
    i := SomePlain(a.kept);
  }

  /** What a run amounts to: few periodic samples, none of them lost, samples in
      key order, and the rest the greatest of their kind. */
  lemma Retention(a: Accum)
    requires Good(a)
    ensures Periodic(a.kept) <= a.mxSample / 3 && InOrder(a.kept)
    ensures forall x :: x in a.pushed && x.isPSample ==> x in a.kept
    ensures forall x :: x in a.pushed ==> x in a.kept || x in a.dropped
    ensures multiset(a.kept) <= multiset(a.pushed)
    ensures forall x, y :: x in a.dropped && y in a.kept && !y.isPSample ==> y.nEq > x.nEq || (y.nEq == x.nEq && y.hash >= x.hash)
    ensures |a.kept| < a.mxSample ==> multiset(a.kept) == multiset(a.pushed)
  {
    PeriodicBound(a.nRow, a.mxSample, a.total);
    forall x | x in a.pushed ensures x in a.kept || x in a.dropped {
      assert x in multiset(a.pushed);
      assert x in multiset(a.kept) + multiset(a.dropped);
    }
  }

  datatype Key = Key(nEq: nat, nDLt: nat, rowid: int)

  function Rows(keys: seq<Key>): nat {
    if keys == [] then 0 else Rows(keys[..|keys| - 1]) + keys[|keys| - 1].nEq
  }

  lemma {:induction false} RowsPrefix(keys: seq<Key>, i: nat)
    requires i <= |keys|
    ensures Rows(keys[..i]) <= Rows(keys)
  {
    if i < |keys| {
      var shorter := keys[..|keys| - 1];
      assert shorter[..i] == keys[..i];
      RowsPrefix(shorter, i);
    } else {
      assert keys[..i] == keys;
    }
  }

  /** The random number in use after some keys; keys without rows use none. */
  function Random(keys: seq<Key>, seed: nat): nat {
    if keys == [] then seed % 0x1_0000_0000
    else
      var before := Random(keys[..|keys| - 1], seed);
      if keys[|keys| - 1].nEq == 0 then before else NextRandom(before)
  }

  /** The samples the keys of an index amount to, if all were retained. */
  function Offered(keys: seq<Key>, period: nat, seed: nat): seq<Sample>
    requires period > 0
  {
    if keys == [] then []
    else
      var init, k := keys[..|keys| - 1], keys[|keys| - 1];
      if k.nEq == 0 then Offered(init, period, seed)
      else Offered(init, period, seed)
           + [Sample(k.rowid, k.nEq, Rows(init), k.nDLt, Straddles(Rows(init), k.nEq, period), Random(keys, seed))]
  }

  /** Samples all the keys of an index: every periodic key, and of the others the
      greatest there is room for. */
  method Sampled(nRow: nat, mxSample: nat, seed: nat, keys: seq<Key>) returns (s: seq<Sample>)
    requires mxSample >= 1 && Rows(keys) <= nRow
    ensures |s| <= mxSample && Periodic(s) <= mxSample / 3 && forall i, j :: 0 <= i < j < |s| ==> s[i].nLt + s[i].nEq <= s[j].nLt
    ensures var offered := Offered(keys, Period(nRow, mxSample), seed);
            && multiset(s) <= multiset(offered)
            && (forall x :: x in offered && x.isPSample ==> x in s)
            && (forall x, y :: x in offered && x !in s && y in s && !y.isPSample ==> y.nEq > x.nEq || (y.nEq == x.nEq && y.hash >= x.hash))
            && (|s| < mxSample ==> multiset(s) == multiset(offered))
  {
    hide Sane, Fair, Period, NextRandom, Straddles, Below;
    var acc := new Stat3Accum(nRow, mxSample, seed);
    var i, nLt := 0, 0;
    while i < |keys|
      invariant 0 <= i <= |keys| && acc.Valid() && nLt == acc.total == Rows(keys[..i])
      invariant acc.nRow == nRow && acc.mxSample == mxSample && fresh(acc) && fresh(acc.a)
      invariant acc.iPrn == Random(keys[..i], seed) && acc.pushed == Offered(keys[..i], Period(nRow, mxSample), seed)
    {
      RowsPrefix(keys, i + 1);
      assert keys[..i + 1][..i] == keys[..i];
      acc.Push(keys[i].nEq, nLt, keys[i].nDLt, keys[i].rowid);
      nLt := nLt + keys[i].nEq;
      i := i + 1;
    }
    assert keys[..i] == keys;
    Retention(acc.View());
    s := acc.a[..acc.nSample];
  }

  /** What a key that is offered becomes. */
  lemma {:induction false} OfferedMeans(keys: seq<Key>, k: Key, period: nat, seed: nat)
    requires period > 0
    ensures var before, now := Offered(keys, period, seed), Offered(keys + [k], period, seed);
            if k.nEq == 0 then now == before
            else
              && |now| == |before| + 1 && now[..|before|] == before
              && var x := now[|before|];
                 && x.rowid == k.rowid && x.nEq == k.nEq && x.nDLt == k.nDLt && x.nLt == Rows(keys) && x.hash == Random(keys + [k], seed)
                 && (x.isPSample <==> exists n: nat :: x.nLt < n * period <= x.nLt + x.nEq)
  {
    assert (keys + [k])[..|keys|] == keys;
    StraddlesMeans(Rows(keys), k.nEq, period);
  }

  /** Three keys of an index of ten rows, and room for one sample: the most frequent
      key is kept. */
  method MostFrequent(seed: nat) returns (s: seq<Sample>)
    ensures |s| == 1 && s[0].rowid == 2 && s[0].nEq == 5 && s[0].nLt == 2 && s[0].nDLt == 1 && !s[0].isPSample
  {
    hide Rows, Offered, Random, NextRandom, Straddles, Period;
    var keys := [Key(2, 0, 1), Key(5, 1, 2), Key(3, 2, 3)];
    ThreeKeys(seed);
    s := Sampled(10, 1, seed, keys);
    ghost var offered := Offered(keys, Period(10, 1), seed);
    assert multiset(s)[s[0]] > 0 by { assert s[0] in multiset(s); }
    assert s[0] in multiset(offered);
    assert s[0] in offered && offered[1] in offered;
    assert s[0].nEq >= 5;
  }

  lemma ThreeKeys(seed: nat)
    ensures var keys := [Key(2, 0, 1), Key(5, 1, 2), Key(3, 2, 3)];
            var offered := Offered(keys, Period(10, 1), seed);
            && Rows(keys) == 10 && |offered| == 3 && offered[0].nEq == 2 && offered[2].nEq == 3
            && offered[1].rowid == 2 && offered[1].nEq == 5 && offered[1].nLt == 2 && offered[1].nDLt == 1
            && !offered[0].isPSample && !offered[1].isPSample && !offered[2].isPSample
  {
    var k0: seq<Key> := [];
    var k1, k2, k3 := k0 + [Key(2, 0, 1)], [Key(2, 0, 1), Key(5, 1, 2)], [Key(2, 0, 1), Key(5, 1, 2), Key(3, 2, 3)];
    assert k2 == k1 + [Key(5, 1, 2)] && k3 == k2 + [Key(3, 2, 3)] && k1 == [Key(2, 0, 1)];
    assert Period(10, 1) == 11;
    assert k1[..0] == k0 && k2[..1] == k1 && k3[..2] == k2;
    assert Rows(k1) == 2 && Rows(k2) == 7;
    hide Random, NextRandom;
    assert Offered(k1, 11, seed) == Offered(k0, 11, seed) + [Sample(1, 2, 0, 0, false, Random(k1, seed))];
    assert Offered(k2, 11, seed) == Offered(k1, 11, seed) + [Sample(2, 5, 2, 1, false, Random(k2, seed))];
    assert Offered(k3, 11, seed) == Offered(k2, 11, seed) + [Sample(3, 3, 7, 2, false, Random(k3, seed))];
  }

  // ---- the sampler ----

  class Stat3Accum {
    const nRow: nat
    const nPSample: nat
    const mxSample: nat
    const a: array<Sample>
    var nSample: nat
    var iMin: nat
    var iPrn: nat
    /** All keys offered so far, those not retained, and how many rows they are. */
    ghost var pushed: seq<Sample>
    ghost var dropped: seq<Sample>
    ghost var total: nat

    ghost function View(): Accum
      requires nSample <= a.Length
      reads this, a
    {
      Accum(nRow, mxSample, a[..nSample], iMin, pushed, dropped, total)
    }

    ghost predicate Valid()
      reads this, a
    {
      a.Length == mxSample && nSample <= mxSample && nPSample == Period(nRow, mxSample) && Good(View())
    }

    constructor (nRow: nat, mxSample: nat, seed: nat)
      requires mxSample >= 1
      ensures Valid() && this.nRow == nRow && this.mxSample == mxSample && pushed == [] && total == 0 && fresh(a)
      ensures iPrn == seed % 0x1_0000_0000
    {
      this.nRow, this.mxSample, nPSample := nRow, mxSample, nRow / (mxSample / 3 + 1) + 1;
      a := new Sample[mxSample](_ => Sample(0, 0, 0, 0, false, 0));
      nSample, iMin, iPrn := 0, 0, seed % 0x1_0000_0000;
      pushed, dropped, total := [], [], 0;
    }

    /** Offers one key: `nEq` rows, after `nLt` smaller ones. */
    method Push(nEq: nat, nLt: nat, nDLt: nat, rowid: int)
      requires Valid() && (nEq > 0 ==> nLt == total && nLt + nEq <= nRow)
      modifies this, a
      ensures Valid()
      ensures nEq == 0 ==> pushed == old(pushed) && total == old(total) && a[..] == old(a[..])
      ensures nEq > 0 ==> pushed == old(pushed) + [Sample(rowid, nEq, nLt, nDLt, Straddles(nLt, nEq, nPSample), iPrn)]
      ensures nEq > 0 ==> total == nLt + nEq && old(dropped) <= dropped
      ensures iPrn == if nEq == 0 then old(iPrn) else NextRandom(old(iPrn))
    {
      hide Sane, Fair, Period, Straddles, NextRandom, Least;
      if nEq == 0 { return; }
      iPrn := NextRandom(iPrn);
      var x := Sample(rowid, nEq, nLt, nDLt, Straddles(nLt, nEq, nPSample), iPrn);
      SaneFull(View());
      if x.isPSample || nSample < mxSample || Below(a[iMin], x) {
        Insert(x);
      } else {
        ghost var v := View();
        RejectedSane(v, x);
        RejectedFair(v, x);
        pushed, dropped, total := pushed + [x], dropped + [x], End(x);
      }
    }

    /** Adds a key, in the place of the minimum if there is no room. */
    method Insert(x: Sample)
      requires Valid() && Fits(View(), x) && (nSample < mxSample || (iMin < nSample && (x.isPSample || Below(a[iMin], x))))
      modifies `nSample, `iMin, `pushed, `dropped, `total, a
      ensures Valid() && pushed == old(pushed) + [x] && total == End(x) && old(dropped) <= dropped
    {
      hide Sane, Fair, Period, Fits, Below, Without, Least, End;
      if nSample == mxSample {
        StoreFull(x);
      } else {
        StoreSpare(x);
      }
      ghost var v := View();
      if nSample == mxSample {
        iMin := FindMin();
      }
      NewMin(v, iMin);
    }

    method StoreFull(x: Sample)
      requires Valid() && Fits(View(), x) && nSample == mxSample && iMin < nSample && (x.isPSample || Below(a[iMin], x))
      modifies `pushed, `dropped, `total, a
      ensures Sane(View()) && Fair(View())
      ensures pushed == old(pushed) + [x] && total == End(x) && old(dropped) <= dropped
    {
      hide Sane, Fair, Period, Fits, Below, Without, Least, End;
      ghost var v := View();
      ReplacedSane(v, x);
      ReplacedFair(v, x);
      pushed, dropped, total := pushed + [x], dropped + [a[iMin]], End(x);
      Evict(x);
      assert View() == Replaced(v, x);
    }

    method StoreSpare(x: Sample)
      requires Valid() && Fits(View(), x) && nSample < mxSample
      modifies `nSample, `pushed, `total, a
      ensures nSample == old(nSample) + 1 && Sane(View()) && Fair(View())
      ensures pushed == old(pushed) + [x] && total == End(x)
    {
      hide Sane, Fair, Period, Fits, Below, Least, End;
      ghost var v := View();
      AppendedSane(v, x);
      AppendedFair(v, x);
      pushed, total := pushed + [x], End(x);
      Append(x);
      assert View() == Appended(v, x);
    }

    method Append(x: Sample)
      requires nSample < a.Length
      modifies `nSample, a
      ensures nSample == old(nSample) + 1 && a[..nSample] == old(a[..nSample]) + [x]
    {
      a[nSample] := x;
      nSample := nSample + 1;
    }

    /** Closes the gap left by sample `iMin` and puts `x` last. */
    method Evict(x: Sample)
      requires a.Length == nSample && iMin < nSample
      modifies a
      ensures a[..nSample] == Without(old(a[..nSample]), iMin) + [x]
    {
      forall i | iMin <= i < nSample - 1 { a[i] := a[i + 1]; }
      a[nSample - 1] := x;
    }

    /** The least sample that is not periodic. */
    method FindMin() returns (m: nat)
      requires a.Length == mxSample == nSample && Sane(View())
      ensures Least(a[..nSample], m)
    {
      hide Sane;
      ghost var k := FullHasPlain(View());
      var i := 0;
      while a[i].isPSample
        invariant 0 <= i <= k && forall j :: 0 <= j < i ==> a[j].isPSample
        decreases k - i
      {
        i := i + 1;
      }
      m := i;
      i := i + 1;
      while i < nSample
        invariant m < i <= nSample && !a[m].isPSample
        invariant forall j :: 0 <= j < i && !a[j].isPSample ==> !Below(a[j], a[m])
      {
        if !a[i].isPSample && Below(a[i], a[m]) {
          m := i;
        }
        i := i + 1;
      }
    }
  }
}

/** Foreign-key bookkeeping: counters that are adjusted row by row and must
    always equal the number of child rows without a parent. */
module ForeignKeys {

  datatype Value = Null | Val(v: int)
  type Row = seq<Value>
  datatype Rowid = Rowid(n: int)
  /** Rows by rowid. */
  type Table = map<Rowid, Row>
  type Db = map<nat, Table>

  /** A list of constraints is in the order in which they are checked: the one
      declared last comes first. */
  datatype ForeignKey = ForeignKey(child: nat, childCols: seq<nat>, parent: nat, parentCols: seq<nat>, isDeferred: bool)

  function Rows(db: Db, t: nat): Table {
    if t in db then db[t] else map[]
  }

  function Cell(row: Row, c: nat): Value {
    if c < |row| then row[c] else Null
  }

  function KeyOf(row: Row, cols: seq<nat>): seq<Value> {
    seq(|cols|, i requires 0 <= i < |cols| => Cell(row, cols[i]))
  }

  predicate NonNull(key: seq<Value>) {
    forall i :: 0 <= i < |key| ==> key[i] != Null
  }

  predicate HasParent(f: ForeignKey, db: Db, key: seq<Value>) {
    exists p :: p in Rows(db, f.parent) && KeyOf(Rows(db, f.parent)[p], f.parentCols) == key
  }

  /** The child rows whose key is entirely non-NULL and has no parent. */
  ghost function Violations(f: ForeignKey, db: Db): set<Rowid> {
    set r | r in Rows(db, f.child) && NonNull(KeyOf(Rows(db, f.child)[r], f.childCols))
            && !HasParent(f, db, KeyOf(Rows(db, f.child)[r], f.childCols))
  }

  /** The parent key columns are subject to a UNIQUE constraint. */
  ghost predicate Unique(f: ForeignKey, db: Db) {
    forall p, q :: p in Rows(db, f.parent) && q in Rows(db, f.parent) && p != q
                   && NonNull(KeyOf(Rows(db, f.parent)[p], f.parentCols))
                   ==> KeyOf(Rows(db, f.parent)[p], f.parentCols) != KeyOf(Rows(db, f.parent)[q], f.parentCols)
  }

  // ---- one row added or removed ----

  datatype Change = Change(db: Db, table: nat, rowid: Rowid, row: Row, insert: bool)

  ghost predicate Proper(c: Change) {
    if c.insert then c.rowid !in Rows(c.db, c.table)
    else c.rowid in Rows(c.db, c.table) && Rows(c.db, c.table)[c.rowid] == c.row
  }

  function Done(c: Change): Db {
    var t := Rows(c.db, c.table);
    c.db[c.table := if c.insert then t[c.rowid := c.row] else t - {c.rowid}]
  }

  /** The row itself is a child without a parent (an inserted row may be its own
      parent). */
  predicate Orphan(c: Change, f: ForeignKey) {
    var key := KeyOf(c.row, f.childCols);
    && f.child == c.table
    && NonNull(key)
    && !(c.insert && f.parent == c.table && KeyOf(c.row, f.parentCols) == key)
    && !HasParent(f, c.db, key)
  }

  /** Child row `r` refers to the row added or removed; a row being removed does
      not count as its own child. */
  predicate Refers(c: Change, f: ForeignKey, r: Rowid)
    requires r in Rows(c.db, f.child)
  {
    var key := KeyOf(Rows(c.db, f.child)[r], f.childCols);
    && NonNull(key) && key == KeyOf(c.row, f.parentCols)
    && (f.parent == f.child && !c.insert ==> r != c.rowid)
  }

  ghost function Children(c: Change, f: ForeignKey): set<Rowid> {
    if f.parent != c.table then {} else set r | r in Rows(c.db, f.child) && Refers(c, f, r)
  }

  lemma DoneRows(c: Change, t: nat)
    ensures Rows(Done(c), t) == if t != c.table then Rows(c.db, t)
                                else if c.insert then Rows(c.db, t)[c.rowid := c.row] else Rows(c.db, t) - {c.rowid}
  {
  }

  /** How the existence of a parent changes. */
  lemma ParentsAfter(c: Change, f: ForeignKey, key: seq<Value>)
    requires Proper(c) && NonNull(key) && Unique(f, c.db)
    ensures HasParent(f, Done(c), key)
       <==> if f.parent != c.table || key != KeyOf(c.row, f.parentCols) then HasParent(f, c.db, key) else c.insert
  {
    DoneRows(c, f.parent);
    var t, t' := Rows(c.db, f.parent), Rows(Done(c), f.parent);
    if f.parent == c.table {
      if HasParent(f, c.db, key) {
        var p :| p in t && KeyOf(t[p], f.parentCols) == key;
        if p != c.rowid { assert p in t' && t'[p] == t[p]; }
      }
      if HasParent(f, Done(c), key) {
        var p :| p in t' && KeyOf(t'[p], f.parentCols) == key;
        if p != c.rowid { assert p in t && t[p] == t'[p]; }
      }
      if c.insert { assert c.rowid in t' && t'[c.rowid] == c.row; }
    }
  }

  /** Removing a row: its own violation goes, and its children become orphans. */
  lemma DeleteViolations(c: Change, f: ForeignKey)
    requires Proper(c) && !c.insert && Unique(f, c.db)
    ensures Violations(f, Done(c)) == Violations(f, c.db) - (if Orphan(c, f) then {c.rowid} else {}) + Children(c, f)
    ensures Violations(f, c.db) !! Children(c, f)
    ensures Orphan(c, f) ==> c.rowid in Violations(f, c.db)
  {
    DoneRows(c, f.child);
    var t, t' := Rows(c.db, f.child), Rows(Done(c), f.child);
    forall r | r in t
      ensures r in Violations(f, Done(c))
         <==> r in Violations(f, c.db) - (if Orphan(c, f) then {c.rowid} else {}) + Children(c, f)
      ensures r in Violations(f, c.db) ==> r !in Children(c, f)
    {
      var key := KeyOf(t[r], f.childCols);
      if NonNull(key) {
        ParentsAfter(c, f, key);
        if f.parent == c.table && key == KeyOf(c.row, f.parentCols) { assert HasParent(f, c.db, key); }
      }
    }
  }

  /** A row that can be added without breaking uniqueness takes nobody's place. */
  lemma NoEarlierParent(c: Change, f: ForeignKey)
    requires Proper(c) && c.insert && f.parent == c.table && Unique(f, Done(c)) && NonNull(KeyOf(c.row, f.parentCols))
    ensures !HasParent(f, c.db, KeyOf(c.row, f.parentCols))
  {
    DoneRows(c, f.parent);
    var p, p' := Rows(c.db, f.parent), Rows(Done(c), f.parent);
    assert c.rowid in p' && p'[c.rowid] == c.row;
    forall q | q in p
      ensures KeyOf(p[q], f.parentCols) != KeyOf(c.row, f.parentCols)
    {
      assert q in p' && p'[q] == p[q] && q != c.rowid;
    }
  }

  /** Adding a row: its children are orphans no more, and it may be one. */
  lemma InsertViolations(c: Change, f: ForeignKey)
    requires Proper(c) && c.insert && Unique(f, c.db) && Unique(f, Done(c))
    ensures Violations(f, Done(c)) == Violations(f, c.db) - Children(c, f) + (if Orphan(c, f) then {c.rowid} else {})
    ensures Children(c, f) <= Violations(f, c.db)
    ensures Orphan(c, f) ==> c.rowid !in Violations(f, c.db)
  {
    DoneRows(c, f.child);
    var t, t' := Rows(c.db, f.child), Rows(Done(c), f.child);
    forall r | r in t'
      ensures r in Violations(f, Done(c))
         <==> r in Violations(f, c.db) - Children(c, f) + (if Orphan(c, f) then {c.rowid} else {})
      ensures r in Children(c, f) ==> r in Violations(f, c.db)
    {
      var key := KeyOf(t'[r], f.childCols);
      if NonNull(key) {
        ParentsAfter(c, f, key);
        if f.parent == c.table && key == KeyOf(c.row, f.parentCols) { NoEarlierParent(c, f); }
      }
    }
  }

  // ---- the counters, constraint by constraint ----

  /** What one constraint contributes to its counter while a change is being
      processed: the violations before it (0), corrected for the row as a child
      (1), and also for the row as a parent (2). */
  ghost function Weight(c: Change, f: ForeignKey, phase: nat): int {
    |Violations(f, c.db)|
    + (if phase >= 1 && Orphan(c, f) then (if c.insert then 1 else -1) else 0)
    + (if phase >= 2 then (if c.insert then -|Children(c, f)| else |Children(c, f)|) else 0)
  }

  /** The first `k` constraints are one phase ahead of the rest. */
  ghost function Total(c: Change, fks: seq<ForeignKey>, k: nat, phase: nat, deferred: bool): int {
    if fks == [] then 0
    else (if fks[0].isDeferred == deferred then Weight(c, fks[0], if k > 0 then phase + 1 else phase) else 0)
         + Total(c, fks[1..], if k > 0 then k - 1 else 0, phase, deferred)
  }

  /** The number of violations of all deferred, or all immediate, constraints. */
  ghost function Count(fks: seq<ForeignKey>, db: Db, deferred: bool): nat {
    if fks == [] then 0
    else (if fks[0].isDeferred == deferred then |Violations(fks[0], db)| else 0) + Count(fks[1..], db, deferred)
  }

  ghost predicate AllUnique(fks: seq<ForeignKey>, db: Db) {
    forall i :: 0 <= i < |fks| ==> Unique(fks[i], db)
  }

  lemma WeightAfter(c: Change, f: ForeignKey)
    requires Proper(c) && Unique(f, c.db) && Unique(f, Done(c))
    ensures Weight(c, f, 2) == |Violations(f, Done(c))|
    ensures Weight(c, f, 1) >= 0
    ensures c.insert ==> Weight(c, f, 1) >= |Children(c, f)| && |Children(c, f)| <= |Violations(f, c.db)|
    ensures !c.insert && Orphan(c, f) ==> Weight(c, f, 0) >= 1
  {
    var v, k := Violations(f, c.db), Children(c, f);
    var me := if Orphan(c, f) then {c.rowid} else {};
    if c.insert {
      InsertViolations(c, f);
      Subset(k, v);
      assert |v - k| == |v| - |k|;
      assert (v - k) !! me;
      assert |v - k + me| == |v - k| + |me|;
    } else {
      DeleteViolations(c, f);
      Subset(me, v);
      assert |v - me| == |v| - |me|;
      assert (v - me) !! k;
      assert |(v - me) + k| == |v - me| + |k|;
    }
  }

  lemma Subset(a: set<Rowid>, b: set<Rowid>)
    requires a <= b
    ensures |a| <= |b| && |b - a| == |b| - |a|
  {
    assert b == a + (b - a);
  }

  lemma {:induction false} TotalBefore(c: Change, fks: seq<ForeignKey>, deferred: bool)
    ensures Total(c, fks, 0, 0, deferred) == Count(fks, c.db, deferred)
  {
    hide Violations;
    if fks != [] { TotalBefore(c, fks[1..], deferred); }
  }

  lemma {:induction false} TotalAfter(c: Change, fks: seq<ForeignKey>, deferred: bool)
    requires Proper(c) && AllUnique(fks, c.db) && AllUnique(fks, Done(c))
    ensures Total(c, fks, |fks|, 1, deferred) == Count(fks, Done(c), deferred)
  {
    hide Violations, Weight, Unique;
    if fks != [] {
      WeightAfter(c, fks[0]);
      TotalAfter(c, fks[1..], deferred);
    }
  }

  lemma {:induction false} TotalBetween(c: Change, fks: seq<ForeignKey>, deferred: bool)
    ensures Total(c, fks, |fks|, 0, deferred) == Total(c, fks, 0, 1, deferred)
  {
    hide Weight;
    if fks != [] { TotalBetween(c, fks[1..], deferred); }
  }

  lemma {:induction false} TotalStep(c: Change, fks: seq<ForeignKey>, k: nat, phase: nat, deferred: bool)
    requires k < |fks|
    ensures Total(c, fks, k + 1, phase, deferred)
         == Total(c, fks, k, phase, deferred)
            + (if fks[k].isDeferred == deferred then Weight(c, fks[k], phase + 1) - Weight(c, fks[k], phase) else 0)
  {
    hide Weight;
    if k > 0 { TotalStep(c, fks[1..], k - 1, phase, deferred); }
  }

  /** A counter is at least the contribution of any one of its constraints. */
  lemma {:induction false} TotalCovers(c: Change, fks: seq<ForeignKey>, k: nat, phase: nat, j: nat)
    requires Proper(c) && AllUnique(fks, c.db) && AllUnique(fks, Done(c)) && phase <= 1 && j < |fks|
    ensures Total(c, fks, k, phase, fks[j].isDeferred) >= Weight(c, fks[j], if j < k then phase + 1 else phase)
  {
    hide Weight, Unique, Done, Proper;
    NonNegative(c, fks[1..], if k > 0 then k - 1 else 0, phase, fks[j].isDeferred);
    WeightNonNegative(c, fks[0]);
    if j > 0 {
      TotalCovers(c, fks[1..], if k > 0 then k - 1 else 0, phase, j - 1);
    }
  }

  lemma WeightNonNegative(c: Change, f: ForeignKey)
    requires Proper(c) && Unique(f, c.db) && Unique(f, Done(c))
    ensures Weight(c, f, 0) >= 0 && Weight(c, f, 1) >= 0 && Weight(c, f, 2) >= 0
  {
    WeightAfter(c, f);
  }

  lemma {:induction false} NonNegative(c: Change, fks: seq<ForeignKey>, k: nat, phase: nat, deferred: bool)
    requires Proper(c) && AllUnique(fks, c.db) && AllUnique(fks, Done(c)) && phase <= 1
    ensures Total(c, fks, k, phase, deferred) >= 0
  {
    hide Weight, Unique, Done, Proper;
    if fks != [] {
      WeightNonNegative(c, fks[0]);
      NonNegative(c, fks[1..], if k > 0 then k - 1 else 0, phase, deferred);
    }
  }

  // ---- the engine ----

  class Engine {
    const fks: seq<ForeignKey>
    var db: Db
    /** Violations of deferred and of immediate constraints. */
    var nDeferredCons: int
    var nFkConstraint: int

    /** Each counter equals the number of violations. */
    ghost predicate Conserved()
      reads this
    {
      Ahead(0)
    }

    /** The deferred counter is too high by `n`. */
    ghost predicate Ahead(n: nat)
      reads this
    {
      AllUnique(fks, db) && nDeferredCons == Count(fks, db, true) + n && nFkConstraint == Count(fks, db, false)
    }

    constructor (fks: seq<ForeignKey>)
      ensures Conserved() && this.fks == fks && db == map[]
    {
      this.fks, this.db, nDeferredCons, nFkConstraint := fks, map[], 0, 0;
      new;
      EmptyCount(fks, true);
      EmptyCount(fks, false);
    }

    function Counter(deferred: bool): int
      reads this
    {
      if deferred then nDeferredCons else nFkConstraint
    }

    /** OP_FkCounter. */
    method Adjust(deferred: bool, n: int)
      modifies `nDeferredCons, `nFkConstraint
      ensures Counter(deferred) == old(Counter(deferred)) + n && Counter(!deferred) == old(Counter(!deferred))
    {
      if deferred {
        nDeferredCons := nDeferredCons + n;
      } else {
        nFkConstraint := nFkConstraint + n;
      }
    }

    /** Steps I.1 and D.1: looks for the parent of the changed row. With `halt`
        a missing parent stops the statement at once. */
    method LookupParent(f: ForeignKey, c: Change, halt: bool) returns (ok: bool)
      requires c.db == db && f.child == c.table && (halt ==> c.insert)
      requires !c.insert && Counter(f.isDeferred) == 0 ==> !Orphan(c, f)
      modifies `nDeferredCons, `nFkConstraint
      ensures ok == !(halt && Orphan(c, f))
      ensures Counter(!f.isDeferred) == old(Counter(!f.isDeferred))
      ensures Counter(f.isDeferred) == old(Counter(f.isDeferred)) + if ok && Orphan(c, f) then (if c.insert then 1 else -1) else 0
    {
      var inc := if c.insert then 1 else -1;
      ok := true;
      if inc < 0 && Counter(f.isDeferred) == 0 { return; }
      var key := KeyOf(c.row, f.childCols);
      var i := 0;
      while i < |key|
        invariant 0 <= i <= |key| && forall j :: 0 <= j < i ==> key[j] != Null
      {
        if key[i] == Null { return; }
        i := i + 1;
      }
      if f.parent == f.child && inc == 1 && KeyOf(c.row, f.parentCols) == key { return; }
      if HasParent(f, db, key) { return; }
      if halt {
        ok := false;
      } else {
        Adjust(f.isDeferred, inc);
      }
    }

    /** Steps I.2 and D.2: adjusts the counter for each child of the changed row. */
    method ScanChildren(f: ForeignKey, c: Change)
      requires c.db == db && f.parent == c.table
      requires c.insert && Counter(f.isDeferred) == 0 ==> Children(c, f) == {}
      modifies `nDeferredCons, `nFkConstraint
      ensures Counter(!f.isDeferred) == old(Counter(!f.isDeferred))
      ensures Counter(f.isDeferred) == old(Counter(f.isDeferred)) + if c.insert then -|Children(c, f)| else |Children(c, f)|
    {
      var inc := if c.insert then -1 else 1;
      if inc < 0 && Counter(f.isDeferred) == 0 { return; }
      var rows := Rows(db, f.child);
      var todo := rows.Keys;
      ghost var found: set<Rowid> := {};
      while todo != {}
        invariant todo <= rows.Keys && db == old(db)
        invariant found == set r | r in rows.Keys - todo && Refers(c, f, r)
        invariant Counter(!f.isDeferred) == old(Counter(!f.isDeferred))
        invariant Counter(f.isDeferred) == old(Counter(f.isDeferred)) + inc * |found|
        decreases todo
      {
        var r :| r in todo;
        todo := todo - {r};
        if Refers(c, f, r) {
          Adjust(f.isDeferred, inc);
          found := found + {r};
        }
      }
      assert found == Children(c, f);
    }

    /** The constraints for which the table is the child. In a statement that
        inserts a single row, immediate constraints are checked on the spot. */
    method CheckAsChild(c: Change, single: bool, ghost ahead: nat) returns (ok: bool)
      requires Ahead(ahead) && c.db == db && Proper(c) && AllUnique(fks, Done(c))
      requires single ==> c.insert && nFkConstraint == 0
      modifies `nDeferredCons, `nFkConstraint
      ensures ok ==> nDeferredCons == Total(c, fks, 0, 1, true) + ahead && nFkConstraint == Total(c, fks, 0, 1, false)
      ensures single ==> nFkConstraint == 0
      ensures !ok <==> single && exists i :: 0 <= i < |fks| && !fks[i].isDeferred && Orphan(c, fks[i])
      ensures !ok ==> nDeferredCons == old(nDeferredCons) + Leaked(c, fks)
    {
      hide Weight, Total, Orphan, Children, Unique, Done, Count, Proper;
      ok := true;
      TotalBefore(c, fks, true);
      TotalBefore(c, fks, false);
      assert fks[0..] == fks;
      var i := 0;
      while i < |fks|
        invariant 0 <= i <= |fks| && db == old(db)
        invariant nDeferredCons == Total(c, fks, i, 0, true) + ahead && nFkConstraint == Total(c, fks, i, 0, false)
        invariant single ==> nFkConstraint == 0 && forall j :: 0 <= j < i && !fks[j].isDeferred ==> !Orphan(c, fks[j])
        invariant single ==> nDeferredCons + Leaked(c, fks[i..]) == old(nDeferredCons) + Leaked(c, fks)
      {
        LeakStep(c, fks, i);
        ghost var f := fks[i];
        TotalStep(c, fks, i, 0, true);
        TotalStep(c, fks, i, 0, false);
        TotalCovers(c, fks, i, 0, i);
        WeightAfter(c, f);
        WeightSteps(c, f);
        if fks[i].child == c.table {
          ok := LookupParent(fks[i], c, single && !fks[i].isDeferred);
          if !ok { return; }
        }
        i := i + 1;
      }
      TotalBetween(c, fks, true);
      TotalBetween(c, fks, false);
    }

    /** The constraints for which the table is the parent. */
    method CheckAsParent(c: Change, single: bool, ghost ahead: nat)
      requires AllUnique(fks, db) && c.db == db && Proper(c) && AllUnique(fks, Done(c))
      requires nDeferredCons == Total(c, fks, 0, 1, true) + ahead && nFkConstraint == Total(c, fks, 0, 1, false)
      requires single ==> c.insert && nFkConstraint == 0
      modifies `nDeferredCons, `nFkConstraint
      ensures nDeferredCons == Count(fks, Done(c), true) + ahead && nFkConstraint == Count(fks, Done(c), false)
    {
      hide Weight, Total, Orphan, Children, Unique, Done, Count, Proper;
      var i := 0;
      while i < |fks|
        invariant 0 <= i <= |fks| && db == old(db)
        invariant nDeferredCons == Total(c, fks, i, 1, true) + ahead && nFkConstraint == Total(c, fks, i, 1, false)
        invariant single ==> nFkConstraint == 0
      {
        ghost var f := fks[i];
        TotalStep(c, fks, i, 1, true);
        TotalStep(c, fks, i, 1, false);
        TotalCovers(c, fks, i, 1, i);
        WeightAfter(c, f);
        WeightSteps(c, f);
        if fks[i].parent == c.table && !(single && !fks[i].isDeferred) {
          ScanChildren(fks[i], c);
        }
        i := i + 1;
      }
      TotalAfter(c, fks, true);
      TotalAfter(c, fks, false);
    }

    /** Foreign-key processing for one row added or removed. A halted statement
        leaves the deferred counter as it is at that point. */
    method FkCheck(c: Change, single: bool, ghost ahead: nat) returns (ok: bool)
      requires Ahead(ahead) && c.db == db && Proper(c) && AllUnique(fks, Done(c))
      requires single ==> c.insert && nFkConstraint == 0
      modifies `nDeferredCons, `nFkConstraint
      ensures ok ==> nDeferredCons == Count(fks, Done(c), true) + ahead && nFkConstraint == Count(fks, Done(c), false)
      ensures !ok <==> single && exists i :: 0 <= i < |fks| && !fks[i].isDeferred && Orphan(c, fks[i])
      ensures !ok ==> nDeferredCons == old(nDeferredCons) + Leaked(c, fks) && nFkConstraint == 0
    {
      hide Total, Orphan, Unique, Done, Count, Proper, Leaked;
      ok := CheckAsChild(c, single, ahead);
      if ok {
        CheckAsParent(c, single, ahead);
      }
    }

    /** Adds a row. A single-row statement is refused, and the row not added,
        exactly when it would violate an immediate constraint; what it has added
        to the deferred counter by then stays there. */
    method InsertRow(t: nat, rowid: Rowid, row: Row, single: bool, ghost ahead: nat) returns (ok: bool)
      requires Ahead(ahead) && rowid !in Rows(db, t) && AllUnique(fks, Done(Change(db, t, rowid, row, true)))
      requires single ==> nFkConstraint == 0
      modifies this
      ensures !ok <==> single && Count(fks, old(Done(Change(db, t, rowid, row, true))), false) > 0
      ensures db == if ok then old(Done(Change(db, t, rowid, row, true))) else old(db)
      ensures Ahead(ahead + if ok then 0 else Leaked(old(Change(db, t, rowid, row, true)), fks))
      ensures ok || old(Blameless(Change(db, t, rowid, row, true), fks)) <==> nDeferredCons == Count(fks, db, true) + ahead
    {
      hide Unique, Count, Orphan, Leaked, Blameless;
      var c := Change(db, t, rowid, row, true);
      SingleInsert(c, fks);
      LeakedNone(c, fks);
      ok := FkCheck(c, single, ahead);
      if ok {
        db := Done(c);
      }
    }

    method DeleteRow(t: nat, rowid: Rowid, ghost ahead: nat)
      requires Ahead(ahead) && rowid in Rows(db, t)
      modifies this
      ensures Ahead(ahead) && db == old(Done(Change(db, t, rowid, Rows(db, t)[rowid], false)))
    {
      hide Count;
      var c := Change(db, t, rowid, Rows(db, t)[rowid], false);
      DoneRows(c, t);
      forall i | 0 <= i < |fks|
        ensures Unique(fks[i], Done(c))
      {
        DoneRows(c, fks[i].parent);
      }
      var ok := FkCheck(c, false, ahead);
      db := Done(c);
    }

    /** Replaces a row. Unless no key column is touched, the old row is deleted
        and the new one inserted, each with its own foreign-key processing. */
    method UpdateRow(t: nat, rowid: Rowid, newRowid: Rowid, row: Row, changed: set<nat>, ghost ahead: nat)
      requires Ahead(ahead) && rowid in Rows(db, t) && (newRowid == rowid || newRowid !in Rows(db, t))
      requires forall c :: c !in changed ==> Cell(row, c) == Cell(Rows(db, t)[rowid], c)
      requires AllUnique(fks, Moved(db, t, rowid, newRowid, row))
      modifies this
      ensures Ahead(ahead) && db == Moved(old(db), t, rowid, newRowid, row)
    {
      hide Unique, Count, Orphan;
      if FkRequired(fks, t, changed) {
        ghost var before := db;
        DeleteRow(t, rowid, ahead);
        DoneRows(Change(before, t, rowid, Rows(before, t)[rowid], false), t);
        assert Done(Change(db, t, newRowid, row, true)) == Moved(before, t, rowid, newRowid, row);
        var ok := InsertRow(t, newRowid, row, false, ahead);
      } else {
        UntouchedCount(fks, db, t, rowid, newRowid, row, changed, true);
        UntouchedCount(fks, db, t, rowid, newRowid, row, changed, false);
        db := Moved(db, t, rowid, newRowid, row);
      }
    }

    /** After every run of row changes the immediate counter equals the global
        count, and the deferred counter exceeds it by exactly what refused
        inserts have left behind: the counters are right if and only if that is
        nothing. */
    method Run(ops: seq<Op>)
      requires Conserved() && PermittedRun(fks, db, ops)
      modifies this
      ensures db == AfterAll(fks, old(db), ops) && Ahead(LeakedBy(fks, old(db), ops))
      ensures Conserved() <==> BlamelessRun(fks, old(db), ops)
    {
      hide Unique, Count, Done, Moved, Leaked, Blameless;
      var i := 0;
      ghost var ahead: nat := 0;
      LeakedByNone(fks, db, ops);
      while i < |ops|
        invariant 0 <= i <= |ops| && Ahead(ahead)
        invariant PermittedRun(fks, db, ops[i..]) && AfterAll(fks, db, ops[i..]) == AfterAll(fks, old(db), ops)
        invariant ahead + LeakedBy(fks, db, ops[i..]) == LeakedBy(fks, old(db), ops)
      {
        assert ops[i..][0] == ops[i] && ops[i..][1..] == ops[i + 1..];
        ghost var left := LeakedOne(fks, db, ops[i]);
        match ops[i] {
          case Insert(t, rowid, row, single) => var ok := InsertRow(t, rowid, row, single, ahead);
          case Delete(t, rowid) => DeleteRow(t, rowid, ahead);
          case Update(t, rowid, newRowid, row, changed) => UpdateRow(t, rowid, newRowid, row, changed, ahead);
        }
        ahead := ahead + left;
        i := i + 1;
      }
    }

    /** A transaction may be committed exactly when no child row lacks its parent
        and no refused insert has left the counter too high. */
    method Commit(ghost ahead: nat) returns (ok: bool)
      requires Ahead(ahead)
      ensures ok <==> ahead == 0 && forall i :: 0 <= i < |fks| ==> Violations(fks[i], db) == {}
    {
      CountZero(fks, db);
      ok := nDeferredCons == 0 && nFkConstraint == 0;
    }
  }

  // ---- refused inserts ----

  /** The deferred constraints that an insert violates, in the order in which they
      are checked, before the first immediate one that it violates. */
  ghost function Leaked(c: Change, fks: seq<ForeignKey>): nat {
    if fks == [] || (!fks[0].isDeferred && Orphan(c, fks[0])) then 0
    else (if Orphan(c, fks[0]) then 1 else 0) + Leaked(c, fks[1..])
  }

  /** Any deferred constraint violated comes behind an immediate one. */
  ghost predicate Blameless(c: Change, fks: seq<ForeignKey>) {
    forall i :: 0 <= i < |fks| && fks[i].isDeferred && Orphan(c, fks[i]) ==>
      exists j :: 0 <= j < i && !fks[j].isDeferred && Orphan(c, fks[j])
  }

  lemma LeakStep(c: Change, fks: seq<ForeignKey>, i: nat)
    requires i < |fks|
    ensures Leaked(c, fks[i..]) == if !fks[i].isDeferred && Orphan(c, fks[i]) then 0
                                   else (if Orphan(c, fks[i]) then 1 else 0) + Leaked(c, fks[i + 1..])
  {
    hide Orphan;
    assert fks[i..][1..] == fks[i + 1..];
  }

  lemma {:induction false} LeakedNone(c: Change, fks: seq<ForeignKey>)
    ensures Leaked(c, fks) == 0 <==> Blameless(c, fks)
  {
    hide Orphan;
    if fks != [] {
      var rest := fks[1..];
      LeakedNone(c, rest);
      assert forall i :: 0 <= i < |rest| ==> rest[i] == fks[i + 1];
      if !fks[0].isDeferred && Orphan(c, fks[0]) {
        assert Blameless(c, fks);
      } else {
        BlamelessTail(c, fks);
      }
    }
  }

  lemma BlamelessTail(c: Change, fks: seq<ForeignKey>)
    requires fks != [] && !(!fks[0].isDeferred && Orphan(c, fks[0]))
    ensures Blameless(c, fks) <==> !Orphan(c, fks[0]) && Blameless(c, fks[1..])
  {
    hide Orphan;
    var rest := fks[1..];
    assert forall i :: 0 <= i < |rest| ==> rest[i] == fks[i + 1];
    if Blameless(c, fks) {
      forall i | 0 <= i < |rest| && rest[i].isDeferred && Orphan(c, rest[i])
        ensures exists j :: 0 <= j < i && !rest[j].isDeferred && Orphan(c, rest[j])
      {
        assert fks[i + 1] == rest[i];
        var j :| 0 <= j < i + 1 && !fks[j].isDeferred && Orphan(c, fks[j]);
        assert rest[j - 1] == fks[j];
      }
    }
    if !Orphan(c, fks[0]) && Blameless(c, rest) {
      forall i | 0 <= i < |fks| && fks[i].isDeferred && Orphan(c, fks[i])
        ensures exists j :: 0 <= j < i && !fks[j].isDeferred && Orphan(c, fks[j])
      {
        assert rest[i - 1] == fks[i];
        var j :| 0 <= j < i - 1 && !rest[j].isDeferred && Orphan(c, rest[j]);
        assert fks[j + 1] == rest[j];
      }
    }
  }

  // ---- runs ----

  /** A single-row insert is the kind checked on the spot. */
  datatype Op =
    | Insert(t: nat, rowid: Rowid, row: Row, single: bool)
    | Delete(t: nat, rowid: Rowid)
    | Update(t: nat, rowid: Rowid, newRowid: Rowid, row: Row, changed: set<nat>)

  /** What the UNIQUE constraints and the statement itself guarantee. */
  ghost predicate Permitted(fks: seq<ForeignKey>, db: Db, op: Op) {
    match op
    case Insert(t, rowid, row, single) =>
      && rowid !in Rows(db, t) && AllUnique(fks, Done(Change(db, t, rowid, row, true)))
      && (single ==> Count(fks, db, false) == 0)
    case Delete(t, rowid) => rowid in Rows(db, t)
    case Update(t, rowid, newRowid, row, changed) =>
      && rowid in Rows(db, t) && (newRowid == rowid || newRowid !in Rows(db, t))
      && (forall c :: c !in changed ==> Cell(row, c) == Cell(Rows(db, t)[rowid], c))
      && AllUnique(fks, Moved(db, t, rowid, newRowid, row))
  }

  ghost function After(fks: seq<ForeignKey>, db: Db, op: Op): Db
    requires Permitted(fks, db, op)
  {
    match op
    case Insert(t, rowid, row, single) =>
      var next := Done(Change(db, t, rowid, row, true));
      if single && Count(fks, next, false) > 0 then db else next
    case Delete(t, rowid) => Done(Change(db, t, rowid, Rows(db, t)[rowid], false))
    case Update(t, rowid, newRowid, row, _) => Moved(db, t, rowid, newRowid, row)
  }

  ghost predicate PermittedRun(fks: seq<ForeignKey>, db: Db, ops: seq<Op>)
    decreases ops
  {
    ops == [] || (Permitted(fks, db, ops[0]) && PermittedRun(fks, After(fks, db, ops[0]), ops[1..]))
  }

  ghost function AfterAll(fks: seq<ForeignKey>, db: Db, ops: seq<Op>): Db
    requires PermittedRun(fks, db, ops)
    decreases ops
  {
    if ops == [] then db else AfterAll(fks, After(fks, db, ops[0]), ops[1..])
  }

  /** What an operation leaves in the deferred counter without a violation. */
  ghost function LeakedOne(fks: seq<ForeignKey>, db: Db, op: Op): nat {
    if op.Insert? && op.single && Count(fks, Done(Change(db, op.t, op.rowid, op.row, true)), false) > 0
    then Leaked(Change(db, op.t, op.rowid, op.row, true), fks) else 0
  }

  ghost function LeakedBy(fks: seq<ForeignKey>, db: Db, ops: seq<Op>): nat
    requires PermittedRun(fks, db, ops)
    decreases ops
  {
    if ops == [] then 0 else LeakedOne(fks, db, ops[0]) + LeakedBy(fks, After(fks, db, ops[0]), ops[1..])
  }

  /** Every insert that is refused is blameless. */
  ghost predicate BlamelessRun(fks: seq<ForeignKey>, db: Db, ops: seq<Op>)
    requires PermittedRun(fks, db, ops)
    decreases ops
  {
    ops == []
    || (&& (var op := ops[0];
            op.Insert? && op.single && Count(fks, Done(Change(db, op.t, op.rowid, op.row, true)), false) > 0
            ==> Blameless(Change(db, op.t, op.rowid, op.row, true), fks))
        && BlamelessRun(fks, After(fks, db, ops[0]), ops[1..]))
  }

  lemma {:induction false} LeakedByNone(fks: seq<ForeignKey>, db: Db, ops: seq<Op>)
    requires PermittedRun(fks, db, ops)
    ensures LeakedBy(fks, db, ops) == 0 <==> BlamelessRun(fks, db, ops)
    decreases ops
  {
    hide Leaked, Blameless, Count, Done, Moved, Unique;
    if ops != [] {
      var op := ops[0];
      if op.Insert? { LeakedNone(Change(db, op.t, op.rowid, op.row, true), fks); }
      LeakedByNone(fks, After(fks, db, op), ops[1..]);
    }
  }

  /** A table with a deferred key and, checked after it, an immediate one, both
      without parents: a refused insert blocks the commit of an empty database. */
  method RefusedBlocksCommit() returns (inserted: bool, committed: bool, rows: Table)
    ensures !inserted && !committed && rows == map[]
  {
    hide Count, Unique, Done, Leaked, Orphan;
    var fks := [ForeignKey(0, [0], 1, [0], true), ForeignKey(0, [0], 2, [0], false)];
    var e := new Engine(fks);
    var row := [Val(1)];
    TwoKeys(fks, row);
    inserted := e.InsertRow(0, Rowid(1), row, true, 0);
    committed := e.Commit(1);
    rows := Rows(e.db, 0);
  }

  lemma TwoKeys(fks: seq<ForeignKey>, row: Row)
    requires fks == [ForeignKey(0, [0], 1, [0], true), ForeignKey(0, [0], 2, [0], false)] && row == [Val(1)]
    ensures var c := Change(map[], 0, Rowid(1), row, true);
            && AllUnique(fks, Done(c)) && Count(fks, map[], false) == 0 && Count(fks, Done(c), false) > 0 && Leaked(c, fks) == 1
  {
    var c := Change(map[], 0, Rowid(1), row, true);
    DoneRows(c, 1);
    DoneRows(c, 2);
    EmptyCount(fks, false);
    assert KeyOf(row, [0]) == [Val(1)];
    assert Orphan(c, fks[0]) && Orphan(c, fks[1]);
    assert fks[1..] == [fks[1]];
    assert AllUnique(fks, c.db);
    SingleInsert(c, fks);
  }

  lemma {:induction false} CountZero(fks: seq<ForeignKey>, db: Db)
    ensures Count(fks, db, true) + Count(fks, db, false) == 0 <==> forall i :: 0 <= i < |fks| ==> Violations(fks[i], db) == {}
  {
    hide Violations;
    if fks != [] {
      CountZero(fks[1..], db);
      assert |Violations(fks[0], db)| == 0 <==> Violations(fks[0], db) == {};
      assert forall i :: 0 <= i < |fks| - 1 ==> fks[1..][i] == fks[i + 1];
      assert (forall i :: 0 <= i < |fks| ==> Violations(fks[i], db) == {})
        <==> Violations(fks[0], db) == {} && forall i :: 0 <= i < |fks[1..]| ==> Violations(fks[1..][i], db) == {} by {
        assert forall i :: 1 <= i < |fks| ==> fks[i] == fks[1..][i - 1];
      }
    }
  }


  lemma WeightSteps(c: Change, f: ForeignKey)
    ensures Weight(c, f, 1) - Weight(c, f, 0) == if Orphan(c, f) then (if c.insert then 1 else -1) else 0
    ensures Weight(c, f, 2) - Weight(c, f, 1) == if c.insert then -|Children(c, f)| else |Children(c, f)|
    ensures Orphan(c, f) ==> f.child == c.table
    ensures f.parent != c.table ==> Children(c, f) == {}
    ensures |Children(c, f)| == 0 ==> Children(c, f) == {}
  {
  }

  /** Where no immediate constraint is violated, inserting one row violates one
      exactly when the row is an orphan. */
  lemma {:induction false} SingleInsert(c: Change, fks: seq<ForeignKey>)
    requires c.insert && Proper(c) && AllUnique(fks, c.db) && AllUnique(fks, Done(c))
    ensures Count(fks, c.db, false) == 0 ==>
              (Count(fks, Done(c), false) > 0
               <==> exists i :: 0 <= i < |fks| && !fks[i].isDeferred && Orphan(c, fks[i]))
  {
    hide Orphan, Unique, Violations, Children, Weight, Proper, Done;
    if fks != [] {
      SingleInsert(c, fks[1..]);
      WeightAfter(c, fks[0]);
      WeightSteps(c, fks[0]);
      WeightZero(c, fks[0]);
      if i :| 0 <= i < |fks| && !fks[i].isDeferred && Orphan(c, fks[i]) {
        assert i > 0 ==> fks[1..][i - 1] == fks[i];
      }
      if i :| 0 <= i < |fks[1..]| && !fks[1..][i].isDeferred && Orphan(c, fks[1..][i]) {
        assert fks[1..][i] == fks[i + 1];
        assert exists k :: 0 <= k < |fks| && !fks[k].isDeferred && Orphan(c, fks[k]);
      }
    }
  }

  lemma WeightZero(c: Change, f: ForeignKey)
    ensures Weight(c, f, 0) == |Violations(f, c.db)|
  {
  }

  lemma {:induction false} EmptyCount(fks: seq<ForeignKey>, deferred: bool)
    ensures Count(fks, map[], deferred) == 0
  {
    if fks != [] {
      assert Rows(map[], fks[0].child) == map[];
      assert Violations(fks[0], map[]) == {};
      EmptyCount(fks[1..], deferred);
    }
  }

  // ---- updates ----

  function Moved(db: Db, t: nat, rowid: Rowid, newRowid: Rowid, row: Row): Db {
    db[t := (Rows(db, t) - {rowid})[newRowid := row]]
  }

  /** Whether an update of the given columns can matter to any constraint. */
  predicate FkRequired(fks: seq<ForeignKey>, t: nat, changed: set<nat>) {
    exists i :: 0 <= i < |fks| &&
      ((fks[i].child == t && exists k :: 0 <= k < |fks[i].childCols| && fks[i].childCols[k] in changed) ||
       (fks[i].parent == t && exists k :: 0 <= k < |fks[i].parentCols| && fks[i].parentCols[k] in changed))
  }

  /** Neither side of the constraint has a changed column. */
  ghost predicate Untouched(f: ForeignKey, t: nat, changed: set<nat>) {
    && (f.child == t ==> forall k :: 0 <= k < |f.childCols| ==> f.childCols[k] !in changed)
    && (f.parent == t ==> forall k :: 0 <= k < |f.parentCols| ==> f.parentCols[k] !in changed)
  }

  lemma SameKey(was: Row, now: Row, changed: set<nat>, cols: seq<nat>)
    requires forall c :: c !in changed ==> Cell(now, c) == Cell(was, c)
    requires forall k :: 0 <= k < |cols| ==> cols[k] !in changed
    ensures KeyOf(now, cols) == KeyOf(was, cols)
  {
  }

  lemma MovedRows(db: Db, t: nat, rowid: Rowid, newRowid: Rowid, row: Row, u: nat)
    ensures Rows(Moved(db, t, rowid, newRowid, row), u)
         == if u == t then (Rows(db, t) - {rowid})[newRowid := row] else Rows(db, u)
  {
  }

  lemma MovedParents(f: ForeignKey, db: Db, t: nat, rowid: Rowid, newRowid: Rowid, row: Row, changed: set<nat>, key: seq<Value>)
    requires rowid in Rows(db, t) && (newRowid == rowid || newRowid !in Rows(db, t))
    requires forall c :: c !in changed ==> Cell(row, c) == Cell(Rows(db, t)[rowid], c)
    requires Untouched(f, t, changed)
    ensures HasParent(f, Moved(db, t, rowid, newRowid, row), key) <==> HasParent(f, db, key)
  {
    MovedRows(db, t, rowid, newRowid, row, f.parent);
    if f.parent == t {
      var before, after := Rows(db, t), Rows(Moved(db, t, rowid, newRowid, row), t);
      SameKey(before[rowid], row, changed, f.parentCols);
      if HasParent(f, db, key) {
        var p :| p in before && KeyOf(before[p], f.parentCols) == key;
        var q := if p == rowid then newRowid else p;
        assert q in after && KeyOf(after[q], f.parentCols) == key;
      }
      if HasParent(f, Moved(db, t, rowid, newRowid, row), key) {
        var q :| q in after && KeyOf(after[q], f.parentCols) == key;
        var p := if q == newRowid then rowid else q;
        assert p in before && KeyOf(before[p], f.parentCols) == key;
      }
    }
  }

  lemma MovedViolations(f: ForeignKey, db: Db, t: nat, rowid: Rowid, newRowid: Rowid, row: Row, changed: set<nat>)
    requires rowid in Rows(db, t) && (newRowid == rowid || newRowid !in Rows(db, t))
    requires forall c :: c !in changed ==> Cell(row, c) == Cell(Rows(db, t)[rowid], c)
    requires Untouched(f, t, changed)
    ensures |Violations(f, Moved(db, t, rowid, newRowid, row))| == |Violations(f, db)|
  {
    hide HasParent, Moved, KeyOf, NonNull;
    var db' := Moved(db, t, rowid, newRowid, row);
    MovedRows(db, t, rowid, newRowid, row, f.child);
    var v, v' := Violations(f, db), Violations(f, db');
    forall key ensures HasParent(f, db', key) <==> HasParent(f, db, key) {
      MovedParents(f, db, t, rowid, newRowid, row, changed, key);
    }
    if f.child == t {
      SameKey(Rows(db, t)[rowid], row, changed, f.childCols);
      assert newRowid in v' <==> rowid in v;
      assert forall r :: r != rowid && r != newRowid ==> (r in v' <==> r in v);
      assert rowid != newRowid ==> newRowid !in v && rowid !in v';
      Renamed(v, v', rowid, newRowid);
    } else {
      assert v' == v;
    }
  }

  lemma Renamed(v: set<Rowid>, v': set<Rowid>, a: Rowid, b: Rowid)
    requires b in v' <==> a in v
    requires forall r :: r != a && r != b ==> (r in v' <==> r in v)
    requires a != b ==> b !in v && a !in v'
    ensures |v'| == |v|
  {
    if a in v {
      assert v' == v - {a} + {b};
    } else {
      assert v' == v;
    }
  }

  lemma {:induction false} UntouchedCount(fks: seq<ForeignKey>, db: Db, t: nat, rowid: Rowid, newRowid: Rowid, row: Row, changed: set<nat>, deferred: bool)
    requires rowid in Rows(db, t) && (newRowid == rowid || newRowid !in Rows(db, t))
    requires forall c :: c !in changed ==> Cell(row, c) == Cell(Rows(db, t)[rowid], c)
    requires !FkRequired(fks, t, changed)
    ensures Count(fks, Moved(db, t, rowid, newRowid, row), deferred) == Count(fks, db, deferred)
  {
    hide Violations, Moved;
    if fks != [] {
      assert Untouched(fks[0], t, changed);
      MovedViolations(fks[0], db, t, rowid, newRowid, row, changed);
      forall i | 0 <= i < |fks[1..]|
        ensures Untouched(fks[1..][i], t, changed)
      {
        assert fks[1..][i] == fks[i + 1];
      }
      UntouchedCount(fks[1..], db, t, rowid, newRowid, row, changed, deferred);
    }
  }

  // ---- violations, spelled out ----

  /** A child row violates a constraint if none of its key columns is NULL and no row
      of the parent table agrees with it in all of them. */
  lemma ViolationsMean(f: ForeignKey, db: Db, r: Rowid)
    requires |f.childCols| == |f.parentCols|
    ensures r in Violations(f, db) <==>
              && r in Rows(db, f.child)
              && (forall i :: 0 <= i < |f.childCols| ==> Cell(Rows(db, f.child)[r], f.childCols[i]) != Null)
              && forall p :: p in Rows(db, f.parent) ==>
                   exists i :: 0 <= i < |f.childCols|
                               && Cell(Rows(db, f.parent)[p], f.parentCols[i]) != Cell(Rows(db, f.child)[r], f.childCols[i])
  {
    if r in Rows(db, f.child) {
      var key := KeyOf(Rows(db, f.child)[r], f.childCols);
      forall p | p in Rows(db, f.parent)
        ensures KeyOf(Rows(db, f.parent)[p], f.parentCols) != key
           <==> exists i :: 0 <= i < |f.childCols| && Cell(Rows(db, f.parent)[p], f.parentCols[i]) != Cell(Rows(db, f.child)[r], f.childCols[i])
      {
        SameCells(Rows(db, f.parent)[p], f.parentCols, Rows(db, f.child)[r], f.childCols);
      }
      assert NonNull(key) <==> forall i :: 0 <= i < |f.childCols| ==> Cell(Rows(db, f.child)[r], f.childCols[i]) != Null by {
        assert forall i :: 0 <= i < |f.childCols| ==> key[i] == Cell(Rows(db, f.child)[r], f.childCols[i]);
      }
    }
  }

  lemma SameCells(a: Row, as': seq<nat>, b: Row, bs: seq<nat>)
    requires |as'| == |bs|
    ensures KeyOf(a, as') != KeyOf(b, bs) <==> exists i :: 0 <= i < |bs| && Cell(a, as'[i]) != Cell(b, bs[i])
  {
    if KeyOf(a, as') != KeyOf(b, bs) {
      var i :| 0 <= i < |bs| && KeyOf(a, as')[i] != KeyOf(b, bs)[i];
      assert Cell(a, as'[i]) != Cell(b, bs[i]);
    }
    if i :| 0 <= i < |bs| && Cell(a, as'[i]) != Cell(b, bs[i]) {
      assert KeyOf(a, as')[i] != KeyOf(b, bs)[i];
    }
  }

  /** The count adds up the violations of the constraints of one kind. */
  lemma CountMeans(fks: seq<ForeignKey>, f: ForeignKey, db: Db, deferred: bool)
    ensures Count([], db, deferred) == 0
    ensures Count([f] + fks, db, deferred) == Count(fks, db, deferred) + if f.isDeferred == deferred then |Violations(f, db)| else 0
  {
    assert ([f] + fks)[1..] == fks;
  }

  /** A child row before its parent, with a deferred constraint: no commit until the
      parent is there. */
  method ParentComesLater() returns (early: bool, late: bool)
    ensures !early && late
  {
    hide Count, Unique, Done, Violations, Leaked, Orphan, Blameless;
    var f := ForeignKey(0, [0], 1, [0], true);
    var e := new Engine([f]);
    var row := [Val(1)];
    Later(f, row);
    var first := e.InsertRow(0, Rowid(1), row, true, 0);
    assert Violations(e.fks[0], e.db) != {};
    early := e.Commit(0);
    var second := e.InsertRow(1, Rowid(1), row, true, 0);
    late := e.Commit(0);
  }

  lemma Later(f: ForeignKey, row: Row)
    requires f == ForeignKey(0, [0], 1, [0], true) && row == [Val(1)]
    ensures var c := Change(map[], 0, Rowid(1), row, true);
            var d := Change(Done(c), 1, Rowid(1), row, true);
            && AllUnique([f], Done(c)) && AllUnique([f], Done(d)) && Count([f], Done(c), false) == 0 == Count([f], Done(d), false)
            && Count([f], map[], false) == 0 && Rowid(1) !in Rows(Done(c), 1) && Rowid(1) in Violations(f, Done(c)) && Violations(f, Done(d)) == {}
  {
    var c := Change(map[], 0, Rowid(1), row, true);
    var d := Change(Done(c), 1, Rowid(1), row, true);
    DoneRows(c, 0);
    DoneRows(c, 1);
    DoneRows(d, 0);
    DoneRows(d, 1);
    assert Rows(Done(c), 0) == map[Rowid(1) := row] && Rows(Done(c), 1) == map[];
    assert Rows(Done(d), 0) == map[Rowid(1) := row] && Rows(Done(d), 1) == map[Rowid(1) := row];
    assert KeyOf(row, [0]) == [Val(1)];
    forall db: Db ensures Count([f], db, false) == 0 {
      CountMeans([], f, db, false);
      assert [f] + [] == [f];
    }
    hide Count, Done;
    assert Rowid(1) in Rows(Done(d), f.parent) && KeyOf(Rows(Done(d), f.parent)[Rowid(1)], f.parentCols) == KeyOf(row, [0]);
    assert HasParent(f, Done(d), KeyOf(row, [0]));
    assert !HasParent(f, Done(c), KeyOf(row, [0]));
  }
}

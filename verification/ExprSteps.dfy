/** Why each step of the compiler is right: what it does to registers, labels and
    the cache, and that the code so far keeps its meaning. */
module ExprSteps {
  import opened ExprMachine
  import opened ExprSpec
  import opened ExprCases

  /** A BETWEEN weighs as much as the conjunction it is coded as. */
  function Weight(e: Expr): nat {
    match e
    case Column(_, _) => 1
    case Register(_) => 1
    case Literal(_) => 1
    case And(a, b) => 1 + Weight(a) + Weight(b)
    case Or(a, b) => 1 + Weight(a) + Weight(b)
    case Not(a) => 1 + Weight(a)
    case Compare(_, a, b) => 1 + Weight(a) + Weight(b)
    case Is(a, b) => 1 + Weight(a) + Weight(b)
    case IsNot(a, b) => 1 + Weight(a) + Weight(b)
    case IsNull(a) => 1 + Weight(a)
    case NotNull(a) => 1 + Weight(a)
    case Between(x, low, high) => 6 + Weight(x) + Weight(low) + Weight(high)
    case In(x, _, _) => 1 + Weight(x)
  }

  // ---- register bookkeeping ----

  /** A register has been taken out of the pool, or added to the machine. */
  ghost predicate Taken(g: Gen, g': Gen, r: nat) {
    && Steps(g, g', 0) && Available(g, r) && Owned(g', r)
    && g'.code == g.code && g'.labels == g.labels && g'.cache == g.cache && g'.nLabel == g.nLabel
    && forall q :: InUse(g, q) ==> InUse(g', q) && q != r
  }

  lemma GrownSteps(g: Gen)
    requires WellFormed(g) && g.pool == []
    ensures Taken(g, g.(nMem := g.nMem + 1), g.nMem + 1)
  {
    hide Continues;
    Same(g, g.(nMem := g.nMem + 1));
  }

  lemma TakenSteps(g: Gen)
    requires WellFormed(g) && g.pool != []
    ensures var n := |g.pool| - 1; Taken(g, g.(pool := g.pool[..n]), g.pool[n])
  {
    hide Continues;
    var n := |g.pool| - 1;
    var g' := g.(pool := g.pool[..n]);
    Same(g, g');
    assert g.pool == g'.pool + [g.pool[n]];
    assert WellFormed(g');
    assert g.pool[n] !in g'.pool;
    assert !Cached(g', g.pool[n]);
  }

  lemma Same(g: Gen, g': Gen)
    requires WellFormed(g) && g'.code == g.code && g'.labels == g.labels
    ensures Continues(g.code, g.labels, g'.code, g'.labels)
  {
  }

  /** A register has gone back to the pool, or waits for its cache line. */
  ghost predicate Freed(g: Gen, g': Gen, r: nat) {
    && WellFormed(g') && g' == g.(pool := g'.pool, cache := g'.cache)
    && g'.pool == (if r == 0 || Cached(g, r) then g.pool else g.pool + [r])
    && |g'.cache| == |g.cache| && forall i :: 0 <= i < |g.cache| ==> SameLine(g.cache[i], g'.cache[i])
  }

  lemma FreedLine(g: Gen, i: nat, r: nat)
    requires WellFormed(g) && InUse(g, r) && i < |g.cache| && g.cache[i].reg == r
    ensures Freed(g, g.(cache := g.cache[i := g.cache[i].(needsFreeing := true)]), r)
  {
  }

  lemma FreedPool(g: Gen, r: nat)
    requires WellFormed(g) && InUse(g, r) && !Cached(g, r)
    ensures Freed(g, g.(pool := g.pool + [r]), r)
  {
  }

  lemma FreedAfter(g0: Gen, g1: Gen, g2: Gen, t: nat, r: nat, goal: Goal)
    requires Steps(g0, g1, t) && Does(g0, g1, t, goal) && Freed(g1, g2, r) && (r == 0 || Available(g0, r))
    ensures Steps(g0, g2, t) && Does(g0, g2, t, goal)
  {
    Later(g0, g1, g2, t, goal);
    hide Does, WellFormed, Continues;
  }

  predicate Stored(before: seq<Line>, after: seq<Line>, k: int, line: Line) {
    0 <= k < |before| && after == before[k := line]
  }

  lemma StoredWell(g: Gen, k: nat, line: Line)
    requires WellFormed(g) && k < |g.cache| && Owned(g, line.reg) && line.level == g.level
    ensures WellFormed(g.(cache := g.cache[k := line]))
  {
  }

  /** Popping has dealt with the first `i` lines. */
  ghost predicate PoppedTo(g: Gen, g': Gen, i: nat) {
    && g.level > 0 && g' == g.(level := g.level - 1, pool := g'.pool, cache := g'.cache) && i <= |g.cache| == |g'.cache|
    && (forall j :: 0 <= j < i ==>
          if g.cache[j].reg != 0 && g.cache[j].level == g.level then g'.cache[j].reg == 0 else g'.cache[j] == g.cache[j])
    && (forall j :: i <= j < |g.cache| ==> g'.cache[j] == g.cache[j])
    && (forall r :: r in g.pool ==> r in g'.pool)
    && (forall r :: r in g'.pool && r !in g.pool ==>
          exists j :: 0 <= j < i && g.cache[j].reg == r && r != 0 && g.cache[j].level == g.level && g.cache[j].needsFreeing)
    && (forall a, b :: 0 <= a < b < |g'.pool| ==> g'.pool[a] != g'.pool[b])
  }

  function Popped(g': Gen, i: nat): Gen
    requires i < |g'.cache|
  {
    var line := g'.cache[i];
    if line.reg != 0 && line.level > g'.level then
      g'.(pool := if line.needsFreeing then g'.pool + [line.reg] else g'.pool,
          cache := g'.cache[i := line.(reg := 0, needsFreeing := false)])
    else g'
  }

  lemma PopLine(g: Gen, g': Gen, i: nat)
    requires WellFormed(g) && PoppedTo(g, g', i) && i < |g.cache|
    ensures PoppedTo(g, Popped(g', i), i + 1)
  {
    var h := Popped(g', i);
    assert g'.cache[i] == g.cache[i];
    forall r | r in h.pool && r !in g.pool
      ensures exists j :: 0 <= j < i + 1 && g.cache[j].reg == r && r != 0 && g.cache[j].level == g.level && g.cache[j].needsFreeing
    {
      if r !in g'.pool { assert r == g.cache[i].reg; }
    }
    if g.cache[i].reg != 0 { assert g.cache[i].reg !in g'.pool; }
  }

  lemma PoppedAll(g: Gen, g': Gen)
    requires WellFormed(g) && PoppedTo(g, g', |g.cache|)
    ensures WellFormed(g') && Left(g, g')
  {
    forall i | 0 <= i < |g'.pool| ensures 0 < g'.pool[i] <= g'.nMem {
      var r := g'.pool[i];
      if r in g.pool { var k :| 0 <= k < |g.pool| && g.pool[k] == r; }
    }
  }

  lemma FreedInUse(g: Gen, g': Gen, r: nat)
    requires Freed(g, g', r)
    ensures forall q :: InUse(g, q) && q != r ==> InUse(g', q)
  {
  }

  lemma EmittedOwned(g: Gen, i: Instruction, r: nat)
    requires Owned(g, r)
    ensures Owned(Emitted(g, i), r)
  {
  }

  // ---- columns ----

  lemma HitCoded(g0: Gen, g1: Gen, k: nat, target: nat)
    requires WellFormed(g0) && g1 == g0.(cache := g1.cache) && |g1.cache| == |g0.cache| && k < |g0.cache| && g0.cache[k].reg != 0
    requires Owned(g0, target) && forall i :: 0 <= i < |g0.cache| ==> SameLine(g0.cache[i], g1.cache[i])
    ensures CodedValue(g0, g1, Column(g0.cache[k].table, g0.cache[k].column), target, g0.cache[k].reg)
  {
    var e, r := Column(g0.cache[k].table, g0.cache[k].column), g0.cache[k].reg;
    assert WellFormed(g1);
    Same(g0, g1);
    hide Continues, WellFormed;
    assert Steps(g0, g1, 0);
    forall w, regs | CacheOk(g0.cache, w, regs)
      ensures Meets(g0, g1, 0, ExprSpec.Value(e, r), w, regs, Out(g0, g1, w, regs))
    {
      AtEnd(g0, g1, w, regs);
    }
    assert InUse(g1, r) && Cached(g0, r);
    OwnedLater(g0, g1, target);
    WiderTarget(g0, g1, target, ExprSpec.Value(e, r));
  }

  lemma MissCoded(g0: Gen, g2: Gen, table: nat, column: int, target: nat, lru: int)
    requires WellFormed(g0) && WellFormed(g2) && Owned(g0, target)
    requires var g1 := Emitted(g0, OpColumn(table, column, target));
             g2 == g1.(cache := g2.cache) && |g2.cache| == |g0.cache|
    requires g2.cache == g0.cache || exists k :: Stored(g0.cache, g2.cache, k, Line(table, column, target, g0.level, false, lru))
    ensures CodedValue(g0, g2, Column(table, column), target, target)
  {
    var i := OpColumn(table, column, target);
    var g1 := Emitted(g0, i);
    EmittedSteps(g0, i);
    hide Continues, WellFormed, Run;
    assert Steps(g0, g2, target);
    forall w, regs | CacheOk(g0.cache, w, regs)
      ensures Meets(g0, g2, target, ExprSpec.Value(Column(table, column), target), w, regs, Out(g0, g2, w, regs))
    {
      EmittedRun(g0, i, w, regs);
      SetRegister(g0, g0, 0, target, w.column(table, column), w, regs, regs);
    }
  }

  // ---- proof obligations of the value coder ----

  lemma RegisterCoded(g: Gen, r: nat, target: nat)
    requires WellFormed(g) && Owned(g, target) && Clear(Register(r), g, target)
    ensures CodedValue(g, g, Register(r), target, r)
  {
    StepsRefl(g);
    assert r in RegistersIn(Register(r));
    forall w, regs | CacheOk(g.cache, w, regs)
      ensures Meets(g, g, 0, ExprSpec.Value(Register(r), r), w, regs, Out(g, g, w, regs))
    {
      AtEnd(g, g, w, regs);
    }
    WiderTarget(g, g, target, ExprSpec.Value(Register(r), r));
  }

  lemma LiteralCoded(g: Gen, v: ExprMachine.Value, target: nat)
    requires WellFormed(g) && Owned(g, target)
    ensures CodedValue(g, Emitted(g, OpLoad(v, target)), Literal(v), target, target)
  {
    var i := OpLoad(v, target);
    EmittedSteps(g, i);
    StepsRefl(g);
    forall w, regs | CacheOk(g.cache, w, regs)
      ensures Meets(g, Emitted(g, i), target, ExprSpec.Value(Literal(v), target), w, regs, Out(g, Emitted(g, i), w, regs))
    {
      EmittedRun(g, i, w, regs);
      SetRegister(g, g, 0, target, v, w, regs, regs);
      HoldingValue(Literal(v), target, w, regs, regs);
    }
  }

  lemma TakenClear(e: Expr, g0: Gen, gT: Gen, r: nat)
    requires Taken(g0, gT, r) && Clear(e, g0, 0)
    ensures WellFormed(gT) && Owned(gT, r) && Clear(e, gT, r)
  {
    hide WellFormed, Continues;
  }

  lemma TakenCoded(e: Expr, g0: Gen, gT: Gen, g1: Gen, r1: nat, r: nat)
    requires Taken(g0, gT, r1) && CodedValue(gT, g1, e, r1, r)
    ensures CodedValue(g0, g1, e, 0, r) && WellFormed(g1) && InUse(g1, r1) && Available(g0, r1)
  {
    Earlier(g0, gT, g1, 0, r1, ExprSpec.Value(e, r));
    StepsThen(g0, gT, g1, 0, r1, 0);
    InUseLater(gT, g1, r1, r1);
    hide WellFormed, Continues, Does;
  }

  lemma FreedCoded(e: Expr, g0: Gen, g1: Gen, g2: Gen, r1: nat, r: nat)
    requires CodedValue(g0, g1, e, 0, r) && Freed(g1, g2, r1) && Available(g0, r1) && r != r1
    ensures CodedValue(g0, g2, e, 0, r)
  {
    FreedAfter(g0, g1, g2, 0, r1, ExprSpec.Value(e, r));
    FreedInUse(g1, g2, r1);
  }

  lemma CodedWell(g0: Gen, g1: Gen, e: Expr, target: nat, r: nat)
    requires CodedValue(g0, g1, e, target, r)
    ensures WellFormed(g1)
  {
  }

  lemma CopyCoded(g0: Gen, g1: Gen, e: Expr, target: nat, r: nat)
    requires WellFormed(g0) && Owned(g0, target) && CodedValue(g0, g1, e, target, r) && r != target
    ensures CodedValue(g0, Emitted(g1, OpCopy(r, target)), e, target, target)
  {
    var i := OpCopy(r, target);
    StoreAfter(g0, g1, target, ExprSpec.Value(e, r), i, target, e);
    EmittedSteps(g1, i);
    StepsThen(g0, g1, Emitted(g1, i), target, 0, target);
    TargetCoded(g0, Emitted(g1, i), e, target);
  }

  lemma TempThen(a: Expr, b: Expr, g0: Gen, g1: Gen, r1: nat, free1: nat)
    requires CodedTemp(g0, g1, a, r1, free1) && Clear(b, g0, 0)
    ensures WellFormed(g1) && Clear(b, g1, 0)
  {
    ClearLater(b, g0, g1, 0, 0);
  }

  lemma TwoTemps(a: Expr, b: Expr, g0: Gen, g1: Gen, g2: Gen, r1: nat, free1: nat, r2: nat, free2: nat)
    requires CodedTemp(g0, g1, a, r1, free1) && CodedTemp(g1, g2, b, r2, free2) && Clear(b, g0, 0)
    ensures WellFormed(g2) && Coded(g0, g2, Pair(a, r1, b, r2)) && InUse(g2, r1) && InUse(g2, r2)
    ensures Disposable(g0, g2, free1) && Disposable(g0, g2, free2) && (free1 != free2 || free1 == 0) && free2 != r1
  {
    PairUp(g0, g1, g2, a, r1, b, r2);
    StepsThen(g0, g1, g2, 0, 0, 0);
    InUseLater(g1, g2, 0, r1);
    if free2 != 0 { AvailableBefore(g0, g1, 0, free2); }
    hide WellFormed, Continues, Does, Steps;
  }

  /** Nothing to release, or a temporary of our own. */
  ghost predicate Disposable(g0: Gen, g: Gen, r: nat) {
    r == 0 || (InUse(g, r) && Available(g0, r))
  }

  lemma BinaryCoded(e: Expr, g0: Gen, g2: Gen, target: nat, r1: nat, r2: nat, free1: nat, free2: nat)
    requires IsBinary(e) && WellFormed(g2) && Coded(g0, g2, Pair(e.left, r1, e.right, r2)) && Owned(g0, target)
    requires Disposable(g0, g2, free1) && Disposable(g0, g2, free2)
    ensures var g3 := Emitted(g2, StoreOp(e, r1, r2, target));
            && Steps(g0, g3, target) && Does(g0, g3, target, ExprSpec.Value(e, target))
            && Disposable(g0, g3, free1) && Disposable(g0, g3, free2)
  {
    var i := StoreOp(e, r1, r2, target);
    StoreOpRight(e, r1, r2, target);
    OwnedLater(g0, g2, target);
    StoreAfter(g0, g2, 0, Pair(e.left, r1, e.right, r2), i, target, e);
    EmittedSteps(g2, i);
    StepsThen(g0, g2, Emitted(g2, i), 0, 0, target);
  }

  lemma TargetCoded(g0: Gen, g: Gen, e: Expr, target: nat)
    requires Steps(g0, g, target) && Does(g0, g, target, ExprSpec.Value(e, target)) && Owned(g0, target)
    ensures CodedValue(g0, g, e, target, target)
  {
    InUseLater(g0, g, target, target);
  }

  lemma OneTemp(a: Expr, g0: Gen, g1: Gen, r: nat, free: nat)
    requires CodedTemp(g0, g1, a, r, free)
    ensures WellFormed(g1) && Coded(g0, g1, ExprSpec.Value(a, r)) && InUse(g1, r) && Disposable(g0, g1, free)
  {
  }

  lemma NotCoded(e: Expr, g0: Gen, g1: Gen, target: nat, r: nat, free: nat)
    requires e.Not? && WellFormed(g1) && Coded(g0, g1, ExprSpec.Value(e.arg, r)) && Owned(g0, target) && Disposable(g0, g1, free)
    ensures var g2 := Emitted(g1, OpNot(r, target));
            Steps(g0, g2, target) && Does(g0, g2, target, ExprSpec.Value(e, target)) && Disposable(g0, g2, free)
  {
    var i := OpNot(r, target);
    OwnedLater(g0, g1, target);
    StoreAfter(g0, g1, 0, ExprSpec.Value(e.arg, r), i, target, e);
    EmittedSteps(g1, i);
    StepsThen(g0, g1, Emitted(g1, i), 0, 0, target);
  }

  lemma LoadThen(a: Expr, g0: Gen, v: ExprMachine.Value, target: nat)
    requires WellFormed(g0) && Owned(g0, target) && Clear(a, g0, 0)
    ensures var gA := Emitted(g0, OpLoad(v, target)); WellFormed(gA) && Owned(gA, target) && Clear(a, gA, 0) && Steps(g0, gA, 0)
  {
    EmittedSteps(g0, OpLoad(v, target));
  }

  lemma TestOpen(e: Expr, gB: Gen, gL: Gen, gE: Gen, r: nat, l: nat, target: nat)
    requires IsTest(e) && WellFormed(gB) && l == gB.nLabel && gL == gB.(nLabel := l + 1)
    requires gE == Emitted(Emitted(gL, TestOp(e, r, l, true)), OpAddImm(target, -1))
    ensures WellFormed(gE) && l < gE.nLabel && l !in gE.labels && Steps(gB, gE, 0)
    ensures gE.code == gB.code + [TestOp(e, r, l, true), OpAddImm(target, -1)] && gE.cache == gB.cache && gE.pool == gB.pool && gE.nMem == gB.nMem
  {
    FreshLabel(gB);
    hide Continues, Kept;
    var gD := Emitted(gL, TestOp(e, r, l, true));
    LabelSteps(gB);
    EmittedSteps(gL, TestOp(e, r, l, true));
    EmittedSteps(gD, OpAddImm(target, -1));
    StepsThen(gB, gL, gD, 0, 0, 0);
    StepsThen(gB, gD, gE, 0, 0, 0);
  }

  lemma LabelSteps(g: Gen)
    requires WellFormed(g)
    ensures Steps(g, g.(nLabel := g.nLabel + 1), 0)
  {
  }

  lemma TestCoded(e: Expr, g0: Gen, gA: Gen, gB: Gen, gL: Gen, gE: Gen, gF: Gen, target: nat, r: nat, free: nat, l: nat)
    requires IsTest(e) && WellFormed(g0) && Owned(g0, target) && Clear(e, g0, target)
    requires gA == Emitted(g0, OpLoad(Int(1), target)) && CodedTemp(gA, gB, e.arg, r, free)
    requires l == gB.nLabel && l !in gE.labels && l < gE.nLabel && Steps(gB, gE, 0)
    requires gE.code == gB.code + [TestOp(e, r, l, true), OpAddImm(target, -1)] && gE.cache == gB.cache && gE.pool == gB.pool && gE.nMem == gB.nMem
    requires gF == Resolved(gE, l)
    ensures Steps(g0, gF, target) && Does(g0, gF, target, ExprSpec.Value(e, target)) && Disposable(g0, gF, free)
  {
    hide Does, Continues, WellFormed, Kept;
    ClearParts(e, g0, target);
    LoadThen(e.arg, g0, Int(1), target);
    StepsThen(g0, gA, gB, 0, 0, 0);
    StepsThen(g0, gB, gE, 0, 0, target);
    ResolvedSteps(g0, gE, l, target);
    ResolvedContinues(gE, gF, l);
    ContinuesThen(gB, gE, gF);
    OwnedLater(gA, gB, target);
    NotOwned(gA, e.arg, r, target);
    TestDoes(g0, gA, gB, gF, e, target, r, l);
    if free != 0 { AvailableBefore(g0, gA, 0, free); }
  }

  lemma GoalCoded(g0: Gen, g: Gen, goal: Goal)
    requires Steps(g0, g, 0) && Does(g0, g, 0, goal)
    ensures Coded(g0, g, goal)
  {
  }

  lemma CompareCoded(e: Expr, g0: Gen, g2: Gen, r1: nat, r2: nat, free1: nat, free2: nat, dest: nat, sense: bool, j: bool)
    requires IsComparison(e) && WellFormed(g2) && Coded(g0, g2, Pair(e.left, r1, e.right, r2))
    requires Disposable(g0, g2, free1) && Disposable(g0, g2, free2)
    ensures var g3 := Emitted(g2, JumpOp(e, r1, r2, dest, sense, j));
            Coded(g0, g3, JumpGoal(e, dest, sense, j)) && Disposable(g0, g3, free1) && Disposable(g0, g3, free2)
  {
    var i, goal := JumpOp(e, r1, r2, dest, sense, j), JumpGoal(e, dest, sense, j);
    JumpOpRight(e, r1, r2, dest, sense, j);
    JumpAfter(g0, g2, Pair(e.left, r1, e.right, r2), i, e, goal.onTrue, goal.onFalse, goal.onNull);
    EmittedSteps(g2, i);
    StepsThen(g0, g2, Emitted(g2, i), 0, 0, 0);
  }

  lemma NullTestCoded(e: Expr, g0: Gen, g1: Gen, r: nat, free: nat, dest: nat, sense: bool, j: bool)
    requires IsTest(e) && WellFormed(g1) && Coded(g0, g1, ExprSpec.Value(e.arg, r)) && Disposable(g0, g1, free)
    ensures var g2 := Emitted(g1, TestOp(e, r, dest, sense)); Coded(g0, g2, JumpGoal(e, dest, sense, j)) && Disposable(g0, g2, free)
  {
    var i, goal := TestOp(e, r, dest, sense), JumpGoal(e, dest, sense, j);
    TestOpRight(e, r, dest, sense, j);
    JumpAfter(g0, g1, ExprSpec.Value(e.arg, r), i, e, goal.onTrue, goal.onFalse, goal.onNull);
    EmittedSteps(g1, i);
    StepsThen(g0, g1, Emitted(g1, i), 0, 0, 0);
  }

  lemma TruthCoded(e: Expr, g0: Gen, g1: Gen, r: nat, free: nat, dest: nat, sense: bool, j: bool)
    requires WellFormed(g1) && Coded(g0, g1, ExprSpec.Value(e, r)) && Disposable(g0, g1, free) && IsLeaf(e)
    ensures var g2 := Emitted(g1, TruthOp(r, dest, sense, j)); Coded(g0, g2, JumpGoal(e, dest, sense, j)) && Disposable(g0, g2, free)
  {
    var i, goal := TruthOp(r, dest, sense, j), JumpGoal(e, dest, sense, j);
    TruthOpRight(e, r, dest, sense, j);
    JumpAfter(g0, g1, ExprSpec.Value(e, r), i, e, goal.onTrue, goal.onFalse, goal.onNull);
    EmittedSteps(g1, i);
    StepsThen(g0, g1, Emitted(g1, i), 0, 0, 0);
  }

  lemma BetweenThen(e: Expr, g0: Gen, g1: Gen, r: nat, free: nat, dest: nat)
    requires e.Between? && CodedTemp(g0, g1, e.x, r, free) && Clear(e, g0, 0) && OpenLabel(g0, dest)
    ensures WellFormed(g1) && Clear(Conjunction(r, e.low, e.high), g1, 0) && OpenLabel(g1, dest)
    ensures Weight(Conjunction(r, e.low, e.high)) < Weight(e)
  {
    ClearParts(e, g0, 0);
    ClearLater(e.low, g0, g1, 0, 0);
    ClearLater(e.high, g0, g1, 0, 0);
    OpenLater(g0, g1, 0, dest);
    ConjunctionRegisters(r, e.low, e.high);
    ConjunctionWeight(r, e.low, e.high);
    hide Does, Steps, Continues, RegistersIn, Cached;
  }

  lemma ConjunctionWeight(r: nat, low: Expr, high: Expr)
    ensures Weight(Conjunction(r, low, high)) == 5 + Weight(low) + Weight(high)
  {
    var x := Register(r);
    assert Weight(x) == 1;
    var a := Compare(Ge, x, low);
    assert Weight(a) == 2 + Weight(low);
    var b := Compare(Le, x, high);
    assert Weight(b) == 2 + Weight(high);
    assert Weight(And(a, b)) == 1 + Weight(a) + Weight(b);
  }

  lemma ConjunctionRegisters(r: nat, low: Expr, high: Expr)
    ensures forall q :: q in RegistersIn(Conjunction(r, low, high)) ==> q == r || q in RegistersIn(low) || q in RegistersIn(high)
  {
    var a, b := Compare(Ge, Register(r), low), Compare(Le, Register(r), high);
    forall q | q in RegistersIn(Conjunction(r, low, high))
      ensures q == r || q in RegistersIn(low) || q in RegistersIn(high)
    {
      assert q in RegistersIn(a) || q in RegistersIn(b);
      assert q in RegistersIn(Register(r)) || q in RegistersIn(low) || q in RegistersIn(high);
    }
  }

  lemma BetweenCoded(e: Expr, g0: Gen, g1: Gen, g2: Gen, r: nat, free: nat, dest: nat, sense: bool, j: bool)
    requires e.Between? && CodedTemp(g0, g1, e.x, r, free) && Clear(e, g0, 0)
    requires Coded(g1, g2, JumpGoal(Conjunction(r, e.low, e.high), dest, sense, j))
    ensures Steps(g0, g2, 0) && Does(g0, g2, 0, JumpGoal(e, dest, sense, j)) && Disposable(g0, g2, free)
  {
    BetweenJump(g0, g1, g2, e, r, dest, sense, j);
    StepsThen(g0, g1, g2, 0, 0, 0);
    InUseLater(g1, g2, 0, r);
  }

  // ---- AND and OR ----

  lemma EnteredThen(e: Expr, g0: Gen, gE: Gen, dest: nat)
    requires (e.And? || e.Or?) && WellFormed(g0) && Clear(e, g0, 0) && OpenLabel(g0, dest)
    requires gE == Entered(g0.(nLabel := g0.nLabel + 1))
    ensures WellFormed(gE) && Clear(e.left, gE, 0) && Clear(e.right, gE, 0) && OpenLabel(gE, dest) && OpenLabel(gE, g0.nLabel)
    ensures Steps(Entered(g0), gE, 0)
  {
    ClearParts(e, g0, 0);
    ClearSame(e.left, g0, gE, 0);
    ClearSame(e.right, g0, gE, 0);
    LabelSteps(Entered(g0));
  }

  lemma SkipThen(b: Expr, gE: Gen, g1: Gen, goal: Goal, dest: nat, d2: nat)
    requires Coded(gE, g1, goal) && Clear(b, gE, 0) && OpenLabel(gE, dest) && OpenLabel(gE, d2)
    ensures WellFormed(g1) && Clear(b, g1, 0) && OpenLabel(g1, dest) && OpenLabel(g1, d2)
  {
    ClearLater(b, gE, g1, 0, 0);
    OpenLater(gE, g1, 0, dest);
    OpenLater(gE, g1, 0, d2);
  }

  lemma SkipResolve(g0: Gen, gE: Gen, g1: Gen, g2: Gen, first: Goal, second: Goal, d2: nat)
    requires WellFormed(g0) && Steps(Entered(g0), gE, 0) && Coded(gE, g1, first) && Coded(g1, g2, second) && OpenLabel(g1, d2) && g0.nLabel <= d2
    ensures WellFormed(g2) && OpenLabel(g2, d2) && Steps(Entered(g0), Resolved(g2, d2), 0) && WellFormed(Resolved(g2, d2))
    ensures Resolved(g2, d2).level == g0.level + 1
  {
    OpenLater(g1, g2, 0, d2);
    StepsThen(gE, g1, g2, 0, 0, 0);
    StepsThen(Entered(g0), gE, g2, 0, 0, 0);
    ResolvedSteps(Entered(g0), g2, d2, 0);
  }

  lemma SkipCoded(e: Expr, g0: Gen, gE: Gen, g1: Gen, g2: Gen, g4: Gen, d2: nat, dest: nat, sense: bool, j: bool)
    requires (if sense then e.And? else e.Or?) && WellFormed(g0) && Clear(e, g0, 0) && OpenLabel(g0, dest) && d2 == g0.nLabel
    requires gE == Entered(g0.(nLabel := g0.nLabel + 1))
    requires Coded(gE, g1, JumpGoal(e.left, d2, !sense, !j)) && Coded(g1, g2, JumpGoal(e.right, dest, sense, j))
    requires OpenLabel(g2, d2) && Steps(Entered(g0), Resolved(g2, d2), 0) && Left(Resolved(g2, d2), g4) && WellFormed(g4)
    ensures Coded(g0, g4, JumpGoal(e, dest, sense, j))
  {
    hide Does, Continues, WellFormed, Kept, Eval, Cond, Skips;
    EnteredThen(e, g0, gE, dest);
    ScopeSteps(g0, Resolved(g2, d2), g4);
    OpenLater(gE, g1, 0, dest);
    OpenLater(g1, g2, 0, dest);
    SkipDecides(e, dest, d2, sense, j);
    Skipping(gE, g1, g2, g4, d2, JumpGoal(e.left, d2, !sense, !j), JumpGoal(e.right, dest, sense, j), JumpGoal(e, dest, sense, j));
    Earlier(g0, gE, g4, 0, 0, JumpGoal(e, dest, sense, j));
  }

  lemma TurnThen(e: Expr, g0: Gen, g1: Gen, goal: Goal, dest: nat)
    requires (e.And? || e.Or?) && Coded(g0, g1, goal) && Clear(e, g0, 0) && OpenLabel(g0, dest)
    ensures WellFormed(g1) && Clear(e.right, g1, 0) && OpenLabel(g1, dest)
  {
    ClearParts(e, g0, 0);
    ClearLater(e.right, g0, g1, 0, 0);
    OpenLater(g0, g1, 0, dest);
  }

  lemma TurnCoded(e: Expr, g0: Gen, g1: Gen, g2: Gen, dest: nat, sense: bool, j: bool)
    requires (if sense then e.Or? else e.And?) && Clear(e, g0, 0) && OpenLabel(g0, dest)
    requires Coded(g0, g1, JumpGoal(e.left, dest, sense, j)) && Coded(g1, g2, JumpGoal(e.right, dest, sense, j))
    ensures Coded(g0, g2, JumpGoal(e, dest, sense, j))
  {
    ClearParts(e, g0, 0);
    OpenLater(g0, g1, 0, dest);
    OpenLater(g1, g2, 0, dest);
    InTurnDecides(e, dest, sense, j);
    InSequence(g0, g1, g2, JumpGoal(e.left, dest, sense, j), JumpGoal(e.right, dest, sense, j), JumpGoal(e, dest, sense, j));
    StepsThen(g0, g1, g2, 0, 0, 0);
  }

  lemma NotJumpCoded(e: Expr, g0: Gen, g1: Gen, dest: nat, sense: bool, j: bool)
    requires e.Not? && Coded(g0, g1, JumpGoal(e.arg, dest, !sense, j))
    ensures Coded(g0, g1, JumpGoal(e, dest, sense, j))
  {
    NotDecides(e.arg, dest, sense, j);
    SameDecision(g0, g1, JumpGoal(e.arg, dest, !sense, j), JumpGoal(e, dest, sense, j));
  }

  // ---- proof obligations of IN ----

  lemma HasNullLabels(g: Gen, g3: Gen)
    requires WellFormed(g) && g3 == g.(nLabel := g.nLabel + 3)
    ensures OpenLabel(g3, g.nLabel) && OpenLabel(g3, g.nLabel + 1) && OpenLabel(g3, g.nLabel + 2)
  {
  }

  lemma StillOpen(g: Gen, g': Gen, j1: nat, j2: nat, j3: nat)
    requires g' == g.(code := g'.code) && OpenLabel(g, j1) && OpenLabel(g, j2) && OpenLabel(g, j3)
    ensures OpenLabel(g', j1) && OpenLabel(g', j2) && OpenLabel(g', j3)
  {
  }

  lemma StillOpenTwo(g: Gen, g': Gen, j1: nat, j2: nat, j3: nat)
    requires g' == g.(code := g'.code, labels := g.labels[j3 := |g.code|]) && OpenLabel(g, j1) && OpenLabel(g, j2) && j1 != j3 && j2 != j3
    ensures OpenLabel(g', j1) && OpenLabel(g', j2)
  {
  }

  lemma StillOpenOne(g: Gen, g': Gen, j1: nat, j2: nat)
    requires g' == g.(code := g'.code, labels := g.labels[j2 := |g.code|]) && OpenLabel(g, j1) && j1 != j2
    ensures OpenLabel(g', j1)
  {
  }

  lemma HasNullShape(g: Gen, g3: Gen, g4: Gen, g6: Gen, g8: Gen, g9: Gen, e: Expr, r: nat, destF: nat, destN: nat, rHasNull: nat)
    requires e.In? && NullMatters(e.kind, destF, destN)
    requires var l := g.nLabel;
             && g3 == g.(nLabel := l + 3)
             && g4 == g3.(code := g3.code + [OpFound(e.rhs, e.kind, l, r), OpNotNull(rHasNull, l + 1), OpFound(e.rhs, e.kind, l + 2, rHasNull), OpLoad(Int(-1), rHasNull)])
             && g6 == Resolved(g4, l + 2).(code := g4.code + [OpAddImm(rHasNull, 1)])
             && g8 == Resolved(g6, l + 1).(code := g6.code + [OpIf(rHasNull, destN, false), OpGoto(destF)])
             && g9 == Resolved(g8, l)
    ensures var l := g.nLabel;
            g9 == g.(code := g.code + MemberCode(r, e.rhs, e.kind, destF, destN, rHasNull, l, l + 1, l + 2), nLabel := l + 3,
                     labels := g.labels[l + 2 := |g.code| + 4][l + 1 := |g.code| + 5][l := |g.code| + 7])
  {
  }

  /** A block of straight code with labels of its own. */
  lemma BlockSteps(g: Gen, g': Gen)
    requires WellFormed(g) && |g.code| <= |g'.code| && g'.code[..|g.code|] == g.code && g.nLabel <= g'.nLabel
    requires g' == g.(code := g'.code, labels := g'.labels, nLabel := g'.nLabel)
    requires forall l :: l in g.labels ==> l in g'.labels && g'.labels[l] == g.labels[l]
    requires forall l :: l in g'.labels && l !in g.labels ==> g.nLabel <= l < g'.nLabel && |g.code| <= g'.labels[l] <= |g'.code|
    ensures Steps(g, g', 0)
  {
  }

  lemma LeftNullCoded(g: Gen, g': Gen, e: Expr, r: nat, destF: nat, destN: nat, l: nat)
    requires WellFormed(g) && e.In? && OpenLabel(g, destF) && OpenLabel(g, destN) && l == g.nLabel
    requires g'.code == g.code + NullTestCode(r, e.rhs, e.kind, destF, destN, l)
    requires if destN == destF then g' == g.(code := g'.code) else g' == g.(code := g'.code, labels := g.labels[l := |g'.code|], nLabel := l + 1)
    ensures Steps(g, g', 0) && TestsNull(g, g', r, e.rhs, e.kind, destF, destN)
  {
    BlockSteps(g, g');
    forall w, regs
      ensures Out(g, g', w, regs) == Outcome(NullExit(Get(regs, r), Rhs(w, e.rhs, e.kind), destF, destN), regs)
    {
      NullTestRun(g, g', r, e.rhs, e.kind, destF, destN, l, w, regs);
    }
  }

  lemma MemberCoded(g: Gen, g': Gen, e: Expr, r: nat, destF: nat, destN: nat, rHasNull: nat, l: nat)
    requires WellFormed(g) && e.In? && OpenLabel(g, destF) && OpenLabel(g, destN) && l == g.nLabel && r != rHasNull
    requires g'.code == g.code + MemberCode(r, e.rhs, e.kind, destF, destN, rHasNull, l, l + 1, l + 2)
    requires if NullMatters(e.kind, destF, destN)
             then g' == g.(code := g'.code, labels := g.labels[l + 2 := |g.code| + 4][l + 1 := |g.code| + 5][l := |g.code| + 7], nLabel := l + 3)
             else g' == g.(code := g'.code)
    ensures Steps(g, g', 0) && TestsMember(g, g', r, e.rhs, e.kind, destF, destN, rHasNull)
  {
    BlockSteps(g, g');
    forall w, regs | Get(regs, r) != Null && (e.kind == AnyValues ==> Remembers(regs, rHasNull, Rhs(w, e.rhs, e.kind)))
      ensures Tested(Out(g, g', w, regs), regs, r, Rhs(w, e.rhs, e.kind), e.kind, destF, destN, rHasNull)
    {
      hide Out, Rhs, Remembers, MemberCode;
      MemberRun(g, g', r, e.rhs, e.kind, destF, destN, rHasNull, l, l + 1, l + 2, w, regs);
    }
  }

  lemma PreparedWell(g: Gen)
    requires WellFormed(g)
    ensures Prepared(g, g, Rowids, 0) && Prepared(g, g, NotNullColumn, 0)
    ensures var h := g.(nMem := g.nMem + 1); WellFormed(h) && Prepared(g, Emitted(h, OpLoad(Null, h.nMem)), AnyValues, h.nMem)
  {
    StepsRefl(g);
    var h := g.(nMem := g.nMem + 1);
    Same(g, h);
    assert Steps(g, h, 0);
    EmittedSteps(h, OpLoad(Null, h.nMem));
    StepsThen(g, h, Emitted(h, OpLoad(Null, h.nMem)), 0, 0, 0);
  }

  lemma PreparedThen(e: Expr, g0: Gen, g1: Gen, rHasNull: nat, destF: nat, destN: nat)
    requires e.In? && Prepared(g0, g1, e.kind, rHasNull) && Clear(e, g0, 0) && OpenLabel(g0, destF) && OpenLabel(g0, destN)
    ensures WellFormed(g1) && WellFormed(Entered(g1)) && Clear(e.x, g1, 0) && OpenLabel(g1, destF) && OpenLabel(g1, destN)
    ensures rHasNull == 0 || InUse(g1, rHasNull)
  {
    ClearParts(e, g0, 0);
    ClearLater(e.x, g0, g1, 0, 0);
    OpenLater(g0, g1, 0, destF);
    OpenLater(g0, g1, 0, destN);
  }

  lemma InClear(e: Expr, g1: Gen, gT: Gen, r: nat, destF: nat, destN: nat, rHasNull: nat)
    requires e.In? && WellFormed(g1) && Taken(Entered(g1), gT, r) && Clear(e.x, g1, 0) && OpenLabel(g1, destF) && OpenLabel(g1, destN)
    requires rHasNull == 0 || InUse(g1, rHasNull)
    ensures WellFormed(gT) && Owned(gT, r) && Clear(e.x, gT, r) && OpenLabel(gT, destF) && OpenLabel(gT, destN) && r != rHasNull
  {
    assert Clear(e.x, Entered(g1), 0);
    TakenClear(e.x, Entered(g1), gT, r);
    assert rHasNull == 0 || InUse(Entered(g1), rHasNull);
  }

  lemma InLeftCoded(e: Expr, g1: Gen, gT: Gen, g3: Gen, r: nat, destF: nat, destN: nat)
    requires e.In? && Taken(Entered(g1), gT, r) && CodedValue(gT, g3, e.x, r, r) && OpenLabel(gT, destF) && OpenLabel(gT, destN)
    ensures WellFormed(g3) && Coded(Entered(g1), g3, ExprSpec.Value(e.x, r)) && InUse(g3, r) && Available(Entered(g1), r)
    ensures OpenLabel(g3, destF) && OpenLabel(g3, destN)
  {
    TakenCoded(e.x, Entered(g1), gT, g3, r, r);
    OpenLater(gT, g3, r, destF);
    OpenLater(gT, g3, r, destN);
  }

  lemma OpenBoth(g: Gen, g': Gen, destF: nat, destN: nat, r: nat)
    requires Steps(g, g', 0) && OpenLabel(g, destF) && OpenLabel(g, destN) && InUse(g, r)
    ensures WellFormed(g') && OpenLabel(g', destF) && OpenLabel(g', destN) && InUse(g', r)
  {
    OpenLater(g, g', 0, destF);
    OpenLater(g, g', 0, destN);
    InUseLater(g, g', 0, r);
  }

  lemma InScope(g1: Gen, g3: Gen, g4: Gen, g5: Gen, g6: Gen, r: nat)
    requires Steps(Entered(g1), g3, 0) && Steps(g3, g4, 0) && Steps(g4, g5, 0) && Freed(g5, g6, r) && Available(Entered(g1), r)
    ensures Steps(Entered(g1), g6, 0) && WellFormed(g6) && g6.level > 0
  {
    StepsThen(Entered(g1), g3, g4, 0, 0, 0);
    StepsThen(Entered(g1), g4, g5, 0, 0, 0);
    FreedSteps(Entered(g1), g5, g6, 0, r);
  }

  lemma InCoded(e: Expr, g0: Gen, g1: Gen, g3: Gen, g4: Gen, g5: Gen, g6: Gen, g7: Gen, r: nat, rHasNull: nat, destF: nat, destN: nat)
    requires e.In? && Prepared(g0, g1, e.kind, rHasNull) && Clear(e, g0, 0)
    requires Coded(Entered(g1), g3, ExprSpec.Value(e.x, r)) && InUse(g3, r) && Steps(g3, g4, 0) && Steps(g4, g5, 0)
    requires TestsNull(g3, g4, r, e.rhs, e.kind, destF, destN) && TestsMember(g4, g5, r, e.rhs, e.kind, destF, destN, rHasNull)
    requires OpenLabel(g5, destF) && OpenLabel(g5, destN) && Freed(g5, g6, r) && Steps(Entered(g1), g6, 0) && Left(g6, g7) && WellFormed(g7) && WellFormed(g1)
    ensures Coded(g0, g7, Decide(e, Fall, Jump(destF), Jump(destN))) && NoNewLines(g0, g7)
  {
    ScopeSteps(g1, g6, g7);
    StepsThen(g0, g1, g7, 0, 0, 0);
    ClearParts(e, g0, 0);
    assert NoNewLines(g0, g7);
    InDoes(g0, g1, g3, g4, g5, g7, e, destF, destN, r, rHasNull);
  }

  lemma InThen(e: Expr, g0: Gen, gL: Gen, dest: nat)
    requires e.In? && WellFormed(g0) && Clear(e, g0, 0) && OpenLabel(g0, dest) && gL == g0.(nLabel := g0.nLabel + 1)
    ensures WellFormed(gL) && Clear(e, gL, 0) && OpenLabel(gL, dest) && OpenLabel(gL, g0.nLabel) && Steps(g0, gL, 0)
  {
    LabelSteps(g0);
  }

  lemma CodedIn(gL: Gen, gB: Gen, goal: Goal, l: nat, dest: nat)
    requires Coded(gL, gB, goal) && OpenLabel(gL, l) && OpenLabel(gL, dest)
    ensures WellFormed(gB) && OpenLabel(gB, l) && OpenLabel(gB, dest)
  {
    OpenLater(gL, gB, 0, l);
    OpenLater(gL, gB, 0, dest);
  }

  lemma InTrueCoded(e: Expr, g0: Gen, gL: Gen, gB: Gen, gD: Gen, dest: nat, destF: nat, j: bool)
    requires e.In? && WellFormed(g0) && OpenLabel(g0, dest) && gL == g0.(nLabel := g0.nLabel + 1) && destF == g0.nLabel && Steps(g0, gL, 0)
    requires Coded(gL, gB, Decide(e, Fall, Jump(destF), Jump(if j then dest else destF))) && NoNewLines(gL, gB)
    requires OpenLabel(gB, destF) && OpenLabel(gB, dest) && gD == Resolved(Emitted(gB, OpGoto(dest)), destF)
    ensures Coded(g0, gD, TrueGoal(e, dest, j))
  {
    EmittedSteps(gB, OpGoto(dest));
    StepsThen(g0, gL, gB, 0, 0, 0);
    StepsThen(g0, gB, Emitted(gB, OpGoto(dest)), 0, 0, 0);
    ResolvedSteps(g0, Emitted(gB, OpGoto(dest)), destF, 0);
    InTrue(gL, gB, gD, e, dest, destF, j);
    Earlier(g0, gL, gD, 0, 0, TrueGoal(e, dest, j));
  }

  lemma InFalseCoded(e: Expr, g0: Gen, gL: Gen, gB: Gen, gC: Gen, dest: nat, destN: nat)
    requires e.In? && WellFormed(g0) && OpenLabel(g0, dest) && gL == g0.(nLabel := g0.nLabel + 1) && destN == g0.nLabel && Steps(g0, gL, 0)
    requires Coded(gL, gB, Decide(e, Fall, Jump(dest), Jump(destN))) && NoNewLines(gL, gB)
    requires OpenLabel(gB, destN) && OpenLabel(gB, dest) && gC == Resolved(gB, destN)
    ensures Coded(g0, gC, FalseGoal(e, dest, false))
  {
    StepsThen(g0, gL, gB, 0, 0, 0);
    ResolvedSteps(g0, gB, destN, 0);
    InFalse(gL, gB, gC, e, dest, destN);
    Earlier(g0, gL, gC, 0, 0, FalseGoal(e, dest, false));
  }

  lemma InBothCoded(e: Expr, g0: Gen, g1: Gen, dest: nat)
    requires e.In? && Coded(g0, g1, Decide(e, Fall, Jump(dest), Jump(dest)))
    ensures Coded(g0, g1, FalseGoal(e, dest, true))
  {
  }

  lemma FreedSteps(g0: Gen, g1: Gen, g2: Gen, t: nat, r: nat)
    requires Steps(g0, g1, t) && Freed(g1, g2, r) && (r == 0 || Available(g0, r))
    ensures Steps(g0, g2, t)
  {
    hide WellFormed, Continues;
  }

  lemma InValueThen(e: Expr, g0: Gen, gL: Gen, target: nat)
    requires e.In? && WellFormed(g0) && Owned(g0, target) && Clear(e, g0, target) && gL == g0.(nLabel := g0.nLabel + 2)
    ensures WellFormed(gL) && Steps(g0, gL, 0) && Owned(gL, target) && Clear(e, gL, target)
    ensures var gA := Emitted(gL, OpLoad(Null, target));
            WellFormed(gA) && Clear(e, gA, 0) && OpenLabel(gA, g0.nLabel) && OpenLabel(gA, g0.nLabel + 1) && Steps(gL, gA, 0)
  {
    LabelSteps(g0);
    LabelSteps(g0.(nLabel := g0.nLabel + 1));
    StepsThen(g0, g0.(nLabel := g0.nLabel + 1), gL, 0, 0, 0);
    EmittedSteps(gL, OpLoad(Null, target));
    ZeroUnused(e, g0, target);
  }

  lemma InValueOpen(e: Expr, gA: Gen, gB: Gen, target: nat, destF: nat, destN: nat)
    requires e.In? && Coded(gA, gB, Decide(e, Fall, Jump(destF), Jump(destN))) && OpenLabel(gA, destF) && OpenLabel(gA, destN)
    ensures WellFormed(gB) && OpenLabel(gB, destF) && OpenLabel(gB, destN)
    ensures OpenLabel(Emitted(gB, OpLoad(Int(1), target)), destF)
  {
    OpenLater(gA, gB, 0, destF);
    OpenLater(gA, gB, 0, destN);
  }

  lemma InValueResolved(gB: Gen, gC: Gen, gD: Gen, gE: Gen, destF: nat, destN: nat, target: nat)
    requires gC == Emitted(gB, OpLoad(Int(1), target)) && gD == Resolved(gC, destF) && gE == Emitted(gD, OpAddImm(target, 0))
    requires OpenLabel(gB, destN) && destF != destN
    ensures OpenLabel(gE, destN)
  {
  }

  lemma InValueCoded(e: Expr, g0: Gen, gL: Gen, gA: Gen, gB: Gen, gC: Gen, gD: Gen, gE: Gen, gF: Gen, target: nat, destF: nat, destN: nat)
    requires e.In? && WellFormed(g0) && Owned(g0, target) && Clear(e, g0, target) && gL == g0.(nLabel := g0.nLabel + 2)
    requires destF == g0.nLabel && destN == destF + 1 && gA == Emitted(gL, OpLoad(Null, target))
    requires Coded(gA, gB, Decide(e, Fall, Jump(destF), Jump(destN))) && NoNewLines(gA, gB) && OpenLabel(gB, destF) && OpenLabel(gB, destN)
    requires gC == Emitted(gB, OpLoad(Int(1), target)) && gD == Resolved(gC, destF) && gE == Emitted(gD, OpAddImm(target, 0)) && gF == Resolved(gE, destN)
    ensures CodedValue(g0, gF, e, target, target)
  {
    InValueThen(e, g0, gL, target);
    InValueTail(gB, gF, target, destF, destN);
    StepsThen(g0, gL, gA, 0, 0, 0);
    StepsThen(g0, gA, gB, 0, 0, 0);
    InValueSteps(g0, gB, gF, target, destF, destN);
    InValue(gL, gA, gB, gF, e, target, destF, destN);
    Earlier(g0, gL, gF, target, target, ExprSpec.Value(e, target));
    TargetCoded(g0, gF, e, target);
  }

  lemma InValueTail(gB: Gen, gF: Gen, target: nat, destF: nat, destN: nat)
    requires WellFormed(gB) && OpenLabel(gB, destF) && OpenLabel(gB, destN) && destF != destN
    requires var gD := Resolved(Emitted(gB, OpLoad(Int(1), target)), destF); gF == Resolved(Emitted(gD, OpAddImm(target, 0)), destN)
    ensures gF.code == gB.code + [OpLoad(Int(1), target), OpAddImm(target, 0)] && gF.cache == gB.cache
    ensures Continues(gB.code, gB.labels, gF.code, gF.labels)
    ensures destF in gF.labels && gF.labels[destF] == |gB.code| + 1 && destN in gF.labels && gF.labels[destN] == |gB.code| + 2
  {
  }

  lemma InValueSteps(g0: Gen, gB: Gen, gF: Gen, target: nat, destF: nat, destN: nat)
    requires Steps(g0, gB, 0) && OpenLabel(gB, destF) && OpenLabel(gB, destN) && destF != destN && g0.nLabel <= destF && g0.nLabel <= destN
    requires var gD := Resolved(Emitted(gB, OpLoad(Int(1), target)), destF); gF == Resolved(Emitted(gD, OpAddImm(target, 0)), destN)
    ensures Steps(g0, gF, target)
  {
    var gC := Emitted(gB, OpLoad(Int(1), target));
    EmittedSteps(gB, OpLoad(Int(1), target));
    StepsThen(g0, gB, gC, 0, 0, target);
    ResolvedSteps(g0, gC, destF, target);
    var gD := Resolved(gC, destF);
    EmittedSteps(gD, OpAddImm(target, 0));
    StepsThen(g0, gD, Emitted(gD, OpAddImm(target, 0)), target, 0, target);
    ResolvedSteps(g0, Emitted(gD, OpAddImm(target, 0)), destN, target);
  }

  // ---- proof obligations of BETWEEN as a value ----

  lemma TakenWell(g: Gen, g': Gen, r: nat)
    requires Taken(g, g', r)
    ensures WellFormed(g')
  {
  }

  lemma BetweenTaken(e: Expr, g0: Gen, g2: Gen, g3: Gen, g4: Gen, r1: nat, free1: nat, r2: nat, free2: nat, r3: nat, r4: nat)
    requires e.Between? && Coded(g0, g2, Pair(e.x, r1, e.low, r2)) && InUse(g2, r1) && InUse(g2, r2)
    requires Disposable(g0, g2, free1) && Disposable(g0, g2, free2) && Taken(g2, g3, r3) && Taken(g3, g4, r4)
    ensures WellFormed(g4) && Coded(g0, g4, Pair(e.x, r1, e.low, r2)) && InUse(g4, r1)
    ensures Disposable(g0, g4, free1) && Disposable(g0, g4, free2)
    ensures Available(g0, r3) && Owned(g4, r3) && Available(g0, r4) && Owned(g4, r4) && r3 != r4 && r1 != r3 && r1 != r4
    ensures free1 != r3 && free1 != r4 && free2 != r3 && free2 != r4
  {
    StepsThen(g0, g2, g3, 0, 0, 0);
    StepsThen(g0, g3, g4, 0, 0, 0);
    AvailableBefore(g0, g2, 0, r3);
    AvailableBefore(g0, g3, 0, r4);
    OwnedLater(g3, g4, r3);
    Later(g0, g2, g4, 0, Pair(e.x, r1, e.low, r2));
    hide WellFormed, Continues, Does, Steps;
    assert InUse(g3, r3);
    assert free1 != 0 ==> InUse(g2, free1);
    assert free2 != 0 ==> InUse(g2, free2);
  }

  lemma BetweenFirst(e: Expr, g0: Gen, g1: Gen, g4: Gen, r1: nat, free1: nat, r2: nat, free2: nat, r3: nat, r4: nat)
    requires e.Between? && WellFormed(g4) && Coded(g0, g4, Pair(e.x, r1, e.low, r2)) && InUse(g4, r1)
    requires Disposable(g0, g4, free1) && Disposable(g0, g4, free2)
    requires Available(g0, r3) && Owned(g4, r3) && Available(g0, r4) && Owned(g4, r4) && r3 != r4 && r1 != r3
    ensures var g5 := Emitted(g4, OpCompareStore(Ge, r2, r3, r1, false));
            && WellFormed(g5) && Coded(g0, g5, Pair(e.x, r1, Compare(Ge, e.x, e.low), r3)) && InUse(g5, r1)
            && Disposable(g0, g5, free1) && Disposable(g0, g5, free2) && Owned(g5, r3) && Owned(g5, r4)
  {
    var i := OpCompareStore(Ge, r2, r3, r1, false);
    StoreOpRight(Compare(Ge, e.x, e.low), r1, r2, r3);
    StoreBeside(g0, g4, e.x, r1, e.low, r2, i, r3, Compare(Ge, e.x, e.low));
    EmittedSteps(g4, i);
    StepsThen(g0, g4, Emitted(g4, i), 0, 0, 0);
  }

  lemma BetweenFreed(e: Expr, g0: Gen, g5: Gen, g6: Gen, r1: nat, free1: nat, free2: nat, r3: nat, r4: nat)
    requires e.Between? && Coded(g0, g5, Pair(e.x, r1, Compare(Ge, e.x, e.low), r3)) && InUse(g5, r1) && Owned(g5, r3) && Owned(g5, r4)
    requires Freed(g5, g6, free2) && Disposable(g0, g5, free1) && Disposable(g0, g5, free2) && Clear(e.high, g0, 0)
    requires free2 != r1 && free2 != r3 && free2 != r4 && (free1 != free2 || free1 == 0)
    ensures WellFormed(g6) && Coded(g0, g6, Pair(e.x, r1, Compare(Ge, e.x, e.low), r3)) && InUse(g6, r1) && Owned(g6, r3) && Owned(g6, r4)
    ensures Disposable(g0, g6, free1) && Clear(e.high, g6, 0)
  {
    FreedAfter(g0, g5, g6, 0, free2, Pair(e.x, r1, Compare(Ge, e.x, e.low), r3));
    FreedInUse(g5, g6, free2);
    ClearLater(e.high, g0, g6, 0, 0);
    FreedOwned(g5, g6, free2, r3);
    FreedOwned(g5, g6, free2, r4);
  }

  lemma FreedOwned(g: Gen, g': Gen, r: nat, q: nat)
    requires Freed(g, g', r) && Owned(g, q) && q != r
    ensures Owned(g', q)
  {
    forall i | 0 <= i < |g'.cache| ensures g'.cache[i].reg != q {
      assert SameLine(g.cache[i], g'.cache[i]);
    }
  }

  lemma BetweenHigh(e: Expr, g0: Gen, g6: Gen, g7: Gen, r1: nat, free1: nat, r3: nat, r4: nat, rh: nat, freeh: nat)
    requires e.Between? && Coded(g0, g6, Pair(e.x, r1, Compare(Ge, e.x, e.low), r3)) && InUse(g6, r1) && Owned(g6, r3) && Owned(g6, r4)
    requires CodedTemp(g6, g7, e.high, rh, freeh) && Disposable(g0, g6, free1)
    ensures WellFormed(g7) && Steps(g0, g7, 0) && Owned(g7, r3) && Owned(g7, r4)
    ensures Disposable(g0, g7, free1) && Disposable(g0, g7, freeh) && (freeh == 0 || (freeh != free1 && freeh != r3 && freeh != r4))
  {
    StepsThen(g0, g6, g7, 0, 0, 0);
    OwnedLater(g6, g7, r3);
    OwnedLater(g6, g7, r4);
    if free1 != 0 { InUseLater(g6, g7, 0, free1); }
    if freeh != 0 { AvailableBefore(g0, g6, 0, freeh); }
    hide WellFormed, Continues, Does, Steps;
  }

  lemma BetweenSecond(e: Expr, g0: Gen, g6: Gen, g7: Gen, target: nat, r1: nat, free1: nat, r3: nat, r4: nat, rh: nat, freeh: nat)
    requires e.Between? && Coded(g0, g6, Pair(e.x, r1, Compare(Ge, e.x, e.low), r3)) && InUse(g6, r1) && Owned(g6, r3)
    requires CodedTemp(g6, g7, e.high, rh, freeh) && WellFormed(g7) && Steps(g0, g7, 0) && Owned(g7, r3) && Owned(g7, r4)
    requires Available(g0, r4) && r3 != r4 && Clear(e.high, g0, 0) && Disposable(g0, g7, free1) && Disposable(g0, g7, freeh) && Owned(g0, target)
    ensures var g8 := Emitted(g7, OpCompareStore(Le, rh, r4, r1, false));
            && WellFormed(g8) && Coded(g0, g8, Pair(Compare(Ge, e.x, e.low), r3, Compare(Le, e.x, e.high), r4))
            && Owned(g8, r3) && Owned(g8, r4) && Disposable(g0, g8, free1) && Disposable(g0, g8, freeh) && Owned(g8, target)
  {
    var i := OpCompareStore(Le, rh, r4, r1, false);
    BetweenStage(g0, g6, g7, e.x, r1, Compare(Ge, e.x, e.low), r3, e.high, rh, r4);
    EmittedSteps(g7, i);
    StepsThen(g0, g7, Emitted(g7, i), 0, 0, 0);
    OwnedLater(g0, Emitted(g7, i), target);
  }

  lemma BetweenLast(e: Expr, g0: Gen, g8: Gen, target: nat, free1: nat, r3: nat, r4: nat, freeh: nat)
    requires e.Between? && WellFormed(g8) && Coded(g0, g8, Pair(Compare(Ge, e.x, e.low), r3, Compare(Le, e.x, e.high), r4))
    requires Owned(g8, r3) && Owned(g8, r4) && Disposable(g0, g8, free1) && Disposable(g0, g8, freeh) && Owned(g8, target)
    requires Available(g0, r3) && Available(g0, r4)
    ensures var g9 := Emitted(g8, OpAnd(r3, r4, target));
            && Steps(g0, g9, target) && Does(g0, g9, target, ExprSpec.Value(e, target))
            && Disposable(g0, g9, r3) && Disposable(g0, g9, r4) && Disposable(g0, g9, free1) && Disposable(g0, g9, freeh)
  {
    var i := OpAnd(r3, r4, target);
    BetweenAnd(e, r3, r4, target);
    StoreAfter(g0, g8, 0, Pair(Compare(Ge, e.x, e.low), r3, Compare(Le, e.x, e.high), r4), i, target, e);
    EmittedSteps(g8, i);
    StepsThen(g0, g8, Emitted(g8, i), 0, 0, target);
  }

  lemma BetweenAnd(e: Expr, r3: nat, r4: nat, target: nat)
    requires e.Between?
    ensures forall w, regs, after :: Holding(Pair(Compare(Ge, e.x, e.low), r3, Compare(Le, e.x, e.high), r4), w, regs, after) ==>
              Perform(OpAnd(r3, r4, target), after, w) == Next(after[target := Eval(e, w, regs)])
  {
    forall w, regs, after | Holding(Pair(Compare(Ge, e.x, e.low), r3, Compare(Le, e.x, e.high), r4), w, regs, after)
      ensures Perform(OpAnd(r3, r4, target), after, w) == Next(after[target := Eval(e, w, regs)])
    {
      BoolTruth(Compare3(Ge, Eval(e.x, w, regs), Eval(e.low, w, regs)));
      BoolTruth(Compare3(Le, Eval(e.x, w, regs), Eval(e.high, w, regs)));
    }
  }

  lemma BetweenRelease(g0: Gen, g9: Gen, g: Gen, free1: nat, freeh: nat, r3: nat, r4: nat)
    requires Disposable(g0, g9, free1) && Disposable(g0, g9, freeh)
    requires free1 != r3 && free1 != r4 && (freeh == 0 || (freeh != r3 && freeh != r4))
    requires forall q :: InUse(g9, q) && q != r3 && q != r4 ==> InUse(g, q)
    ensures Disposable(g0, g, free1) && Disposable(g0, g, freeh)
  {
  }

  // ---- the whole compiler ----

  lemma CompiledMeans(g0: Gen, g1: Gen, e: Expr, dest: nat, sense: bool, jumpIfNull: bool)
    requires g0.code == [] && (forall i :: 0 <= i < |g0.cache| ==> g0.cache[i].reg == 0) && Coded(g0, g1, JumpGoal(e, dest, sense, jumpIfNull))
    ensures forall w, regs ::
              var t := Cond(e, w, regs);
              Run(g1.code, g1.labels, 0, regs, w).exit == if t == Bool(sense) || (t == Unknown && jumpIfNull) then Jump(dest) else Fall
  {
    hide Cond, Run, Steps;
    forall w, regs
      ensures var t := Cond(e, w, regs);
              Run(g1.code, g1.labels, 0, regs, w).exit == if t == Bool(sense) || (t == Unknown && jumpIfNull) then Jump(dest) else Fall
    {
      assert CacheOk(g0.cache, w, regs);
      assert Meets(g0, g1, 0, JumpGoal(e, dest, sense, jumpIfNull), w, regs, Out(g0, g1, w, regs));
    }
  }
}

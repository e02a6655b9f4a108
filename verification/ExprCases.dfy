/** What each shape of emitted code does. */
module ExprCases {
  import opened ExprMachine
  import opened ExprSpec

  // ---- two operands ----

  predicate IsBinary(e: Expr) {
    e.And? || e.Or? || e.Compare? || e.Is? || e.IsNot?
  }

  /** The instruction that stores a binary expression's value. */
  function StoreOp(e: Expr, r1: nat, r2: nat, target: nat): Instruction
    requires IsBinary(e)
  {
    match e
    case And(_, _) => OpAnd(r2, r1, target)
    case Or(_, _) => OpOr(r2, r1, target)
    case Compare(op, _, _) => OpCompareStore(op, r2, target, r1, false)
    case Is(_, _) => OpCompareStore(Eq, r2, target, r1, true)
    case IsNot(_, _) => OpCompareStore(Ne, r2, target, r1, true)
  }

  lemma StoreOpRight(e: Expr, r1: nat, r2: nat, target: nat)
    requires IsBinary(e)
    ensures forall w, regs, after :: Holding(Pair(e.left, r1, e.right, r2), w, regs, after) ==>
              Perform(StoreOp(e, r1, r2, target), after, w) == Next(after[target := Eval(e, w, regs)])
  {
  }

  predicate IsComparison(e: Expr) {
    e.Compare? || e.Is? || e.IsNot?
  }

  /** The jump taken when a comparison is true, or when it is false. */
  function JumpOp(e: Expr, r1: nat, r2: nat, dest: nat, sense: bool, jumpIfNull: bool): Instruction
    requires IsComparison(e)
  {
    match e
    case Compare(op, _, _) => OpCompare(if sense then op else Negated(op), r2, dest, r1, jumpIfNull, false)
    case Is(_, _) => OpCompare(if sense then Eq else Ne, r2, dest, r1, false, true)
    case IsNot(_, _) => OpCompare(if sense then Ne else Eq, r2, dest, r1, false, true)
  }

  function JumpGoal(e: Expr, dest: nat, sense: bool, jumpIfNull: bool): Goal {
    if sense then TrueGoal(e, dest, jumpIfNull) else FalseGoal(e, dest, jumpIfNull)
  }

  lemma JumpOpRight(e: Expr, r1: nat, r2: nat, dest: nat, sense: bool, jumpIfNull: bool)
    requires IsComparison(e)
    ensures var goal := JumpGoal(e, dest, sense, jumpIfNull);
            forall w, regs, after :: Holding(Pair(e.left, r1, e.right, r2), w, regs, after) ==>
              match Pick(Cond(e, w, regs), goal.onTrue, goal.onFalse, goal.onNull) {
                case Fall => Perform(JumpOp(e, r1, r2, dest, sense, jumpIfNull), after, w) == Next(after)
                case Jump(l) => Perform(JumpOp(e, r1, r2, dest, sense, jumpIfNull), after, w) == To(l, after)
              }
  {
  }

  // ---- one operand ----

  predicate IsTest(e: Expr) {
    e.IsNull? || e.NotNull?
  }

  function TestOp(e: Expr, r: nat, dest: nat, sense: bool): Instruction
    requires IsTest(e)
  {
    if e.IsNull? == sense then OpIsNull(r, dest) else OpNotNull(r, dest)
  }

  lemma TestOpRight(e: Expr, r: nat, dest: nat, sense: bool, jumpIfNull: bool)
    requires IsTest(e)
    ensures var goal := JumpGoal(e, dest, sense, jumpIfNull);
            forall w, regs, after :: Holding(ExprSpec.Value(e.arg, r), w, regs, after) ==>
              match Pick(Cond(e, w, regs), goal.onTrue, goal.onFalse, goal.onNull) {
                case Fall => Perform(TestOp(e, r, dest, sense), after, w) == Next(after)
                case Jump(l) => Perform(TestOp(e, r, dest, sense), after, w) == To(l, after)
              }
  {
  }

  function TruthOp(r: nat, dest: nat, sense: bool, jumpIfNull: bool): Instruction {
    if sense then OpIf(r, dest, jumpIfNull) else OpIfNot(r, dest, jumpIfNull)
  }

  lemma TruthOpRight(e: Expr, r: nat, dest: nat, sense: bool, jumpIfNull: bool)
    requires IsLeaf(e)
    ensures var goal := JumpGoal(e, dest, sense, jumpIfNull);
            forall w, regs, after :: Holding(ExprSpec.Value(e, r), w, regs, after) ==>
              match Pick(Cond(e, w, regs), goal.onTrue, goal.onFalse, goal.onNull) {
                case Fall => Perform(TruthOp(r, dest, sense, jumpIfNull), after, w) == Next(after)
                case Jump(l) => Perform(TruthOp(r, dest, sense, jumpIfNull), after, w) == To(l, after)
              }
  {
  }

  // ---- decisions ----

  lemma NotDecides(a: Expr, dest: nat, sense: bool, j: bool)
    ensures forall w, regs :: Decision(JumpGoal(a, dest, !sense, j), w, regs) == Decision(JumpGoal(Not(a), dest, sense, j), w, regs)
  {
  }

  function Chosen(t: Truth, dest: nat, sense: bool, j: bool): Exit {
    if t == Unknown then Jumping(j, dest) else Jumping((t == True) == sense, dest)
  }

  lemma DecisionIs(e: Expr, dest: nat, sense: bool, j: bool, w: World, regs: Registers)
    ensures Decision(JumpGoal(e, dest, sense, j), w, regs) == Chosen(Cond(e, w, regs), dest, sense, j)
  {
    hide Eval, Cond;
  }

  /** OR tested for truth and AND tested for falsehood try their operands in turn. */
  lemma InTurnDecides(e: Expr, dest: nat, sense: bool, j: bool)
    requires if sense then e.Or? else e.And?
    ensures InTurn(JumpGoal(e, dest, sense, j), JumpGoal(e.left, dest, sense, j), JumpGoal(e.right, dest, sense, j))
  {
    var whole, first, second := JumpGoal(e, dest, sense, j), JumpGoal(e.left, dest, sense, j), JumpGoal(e.right, dest, sense, j);
    forall w, regs
      ensures Decision(whole, w, regs) == if Decision(first, w, regs) == Fall then Decision(second, w, regs) else Decision(first, w, regs)
    {
      hide Decision, JumpGoal;
      DecisionIs(e, dest, sense, j, w, regs);
      DecisionIs(e.left, dest, sense, j, w, regs);
      DecisionIs(e.right, dest, sense, j, w, regs);
    }
  }

  /** AND tested for truth and OR tested for falsehood skip the second operand. */
  lemma SkipDecides(e: Expr, dest: nat, d2: nat, sense: bool, j: bool)
    requires if sense then e.And? else e.Or?
    ensures Skips(JumpGoal(e, dest, sense, j), JumpGoal(e.left, d2, !sense, !j), JumpGoal(e.right, dest, sense, j))
  {
    var whole, first, second := JumpGoal(e, dest, sense, j), JumpGoal(e.left, d2, !sense, !j), JumpGoal(e.right, dest, sense, j);
    forall w, regs
      ensures Decision(whole, w, regs) == if Decision(first, w, regs) == Fall then Decision(second, w, regs) else Fall
    {
      hide Decision, JumpGoal;
      DecisionIs(e, dest, sense, j, w, regs);
      DecisionIs(e.left, d2, !sense, !j, w, regs);
      DecisionIs(e.right, dest, sense, j, w, regs);
    }
  }

  // ---- ISNULL and NOTNULL as values ----

  /** The state after the first load, then the operand, then the test. */
  lemma TestDoes(g0: Gen, gA: Gen, gB: Gen, gF: Gen, e: Expr, target: nat, r: nat, l: nat)
    requires IsTest(e) && WellFormed(g0) && Owned(g0, target) && Clear(e.arg, g0, target)
    requires gA == Emitted(g0, OpLoad(Int(1), target)) && CodedValue(gA, gB, e.arg, 0, r) && r != target && !Cached(gB, target)
    requires gF.code == gB.code + [TestOp(e, r, l, true), OpAddImm(target, -1)] && gF.cache == gB.cache
    requires Continues(gB.code, gB.labels, gF.code, gF.labels) && l in gF.labels && gF.labels[l] == |gF.code|
    ensures Does(g0, gF, target, ExprSpec.Value(e, target))
  {
    forall w, regs | CacheOk(g0.cache, w, regs)
      ensures Meets(g0, gF, target, ExprSpec.Value(e, target), w, regs, Out(g0, gF, w, regs))
    {
      TestRun(g0, gA, gB, gF, e, target, r, l, w, regs);
    }
  }

  lemma TestRun(g0: Gen, gA: Gen, gB: Gen, gF: Gen, e: Expr, target: nat, r: nat, l: nat, w: World, regs: Registers)
    requires IsTest(e) && WellFormed(g0) && Owned(g0, target) && Clear(e.arg, g0, target) && CacheOk(g0.cache, w, regs)
    requires gA == Emitted(g0, OpLoad(Int(1), target)) && CodedValue(gA, gB, e.arg, 0, r) && r != target && !Cached(gB, target)
    requires gF.code == gB.code + [TestOp(e, r, l, true), OpAddImm(target, -1)] && gF.cache == gB.cache
    requires Continues(gB.code, gB.labels, gF.code, gF.labels) && l in gF.labels && gF.labels[l] == |gF.code|
    ensures Meets(g0, gF, target, ExprSpec.Value(e, target), w, regs, Out(g0, gF, w, regs))
  {
    var one := regs[target := Int(1)];
    LoadedOut(g0, gA, gB, target, Int(1), w, regs);
    var o := Out(gA, gB, w, one);
    assert Meets(gA, gB, 0, ExprSpec.Value(e.arg, r), w, one, o);
    OutThen(g0, gB, gF, w, regs);
    hide WellFormed, Continues, CacheOk, Run;
    ClearStable(e.arg, g0, target, w, regs, one);
    TestBlock(gB, gF, e, target, r, l, w, o.regs);
    SetRegister(g0, gB, target, target, Eval(e, w, regs), w, regs, o.regs);
    HoldingValue(e, target, w, regs, o.regs);
  }

  /** Code that begins by loading a register. */
  lemma LoadedOut(g0: Gen, gA: Gen, gB: Gen, target: nat, v: ExprMachine.Value, w: World, regs: Registers)
    requires WellFormed(g0) && Owned(g0, target) && CacheOk(g0.cache, w, regs)
    requires gA == Emitted(g0, OpLoad(v, target)) && Steps(gA, gB, 0)
    ensures var one := regs[target := v];
            && CacheOk(gA.cache, w, one) && Frame(g0, target, regs, one) && |g0.code| <= |gB.code|
            && Out(g0, gB, w, regs) == Out(gA, gB, w, one)
            && (forall after :: Frame(gA, 0, one, after) ==> Get(after, target) == v && Frame(g0, target, regs, after))
  {
    EmittedRun(g0, OpLoad(v, target), w, regs);
    OutThen(g0, gA, gB, w, regs);
    SetRegister(g0, g0, 0, target, v, w, regs, regs);
    hide WellFormed, Continues, CacheOk, Run;
    var one := regs[target := v];
    assert InUse(gA, target);
  }

  lemma TestBlock(gB: Gen, gF: Gen, e: Expr, target: nat, r: nat, l: nat, w: World, regs: Registers)
    requires IsTest(e) && Get(regs, target) == Int(1) && r != target
    requires gF.code == gB.code + [TestOp(e, r, l, true), OpAddImm(target, -1)]
    requires l in gF.labels && gF.labels[l] == |gF.code|
    ensures Out(gB, gF, w, regs) == Outcome(Fall, regs[target := BoolValue(Bool((Get(regs, r) == Null) == e.IsNull?))])
  {
    hide Run;
    var c, p := gF.code, |gB.code|;
    assert c[p] == TestOp(e, r, l, true) && c[p + 1] == OpAddImm(target, -1);
    RunAt(c, gF.labels, p, regs, w);
    RunAt(c, gF.labels, p + 1, regs, w);
    RunEnd(c, gF.labels, p + 2, regs, w);
    RunEnd(c, gF.labels, p + 2, regs[target := Int(0)], w);
    assert regs[target := Int(1)] == regs;
  }

  // ---- BETWEEN ----

  /** A value stored beside another one that is still needed. */
  lemma StoreBeside(g0: Gen, g1: Gen, a: Expr, ra: nat, b: Expr, rb: nat, i: Instruction, r: nat, e: Expr)
    requires Coded(g0, g1, Pair(a, ra, b, rb)) && Available(g0, r) && Owned(g1, r) && r != ra
    requires forall w, regs, after :: Holding(Pair(a, ra, b, rb), w, regs, after) ==> Perform(i, after, w) == Next(after[r := Eval(e, w, regs)])
    ensures Does(g0, Emitted(g1, i), 0, Pair(a, ra, e, r))
  {
    forall w, regs | CacheOk(g0.cache, w, regs)
      ensures Meets(g0, Emitted(g1, i), 0, Pair(a, ra, e, r), w, regs, Out(g0, Emitted(g1, i), w, regs))
    {
      EmittedCache(g1, i);
      hide WellFormed, Continues, Out, Eval, Cond, Perform, CacheOk, Cached, Steps, Emitted;
      var goal := Pair(a, ra, b, rb);
      var o := Out(g0, g1, w, regs);
      assert Meets(g0, g1, 0, goal, w, regs, o);
      StepsWell(g0, g1);
      OutAfter(g0, g1, 0, i, w, regs);
      EmittedRun(g1, i, w, o.regs);
      assert Perform(i, o.regs, w) == Next(o.regs[r := Eval(e, w, regs)]);
      SetAvailable(g0, g1, r, Eval(e, w, regs), w, regs, o.regs);
    }
  }

  lemma StepsWell(g0: Gen, g1: Gen)
    requires Steps(g0, g1, 0)
    ensures WellFormed(g1)
  {
  }

  lemma SetAvailable(g0: Gen, g1: Gen, r: nat, v: ExprMachine.Value, w: World, regs: Registers, after: Registers)
    requires Frame(g0, 0, regs, after) && CacheOk(g1.cache, w, after) && !Cached(g1, r) && Available(g0, r)
    ensures Frame(g0, 0, regs, after[r := v]) && CacheOk(g1.cache, w, after[r := v])
  {
  }

  /** The second comparison of a BETWEEN, with the first one still in `r3`. */
  lemma BetweenStage(g0: Gen, g6: Gen, g7: Gen, x: Expr, r1: nat, e1: Expr, r3: nat, high: Expr, rh: nat, r4: nat)
    requires Coded(g0, g6, Pair(x, r1, e1, r3)) && CodedValue(g6, g7, high, 0, rh) && InUse(g6, r1) && InUse(g6, r3)
    requires Available(g0, r4) && Owned(g7, r4) && r4 != r3 && Clear(high, g0, 0)
    ensures Does(g0, Emitted(g7, OpCompareStore(Le, rh, r4, r1, false)), 0, Pair(e1, r3, Compare(Le, x, high), r4))
  {
    var i := OpCompareStore(Le, rh, r4, r1, false);
    forall w, regs | CacheOk(g0.cache, w, regs)
      ensures Meets(g0, Emitted(g7, i), 0, Pair(e1, r3, Compare(Le, x, high), r4), w, regs, Out(g0, Emitted(g7, i), w, regs))
    {
      BetweenRun(g0, g6, g7, x, r1, e1, r3, high, rh, r4, w, regs);
    }
  }

  lemma BetweenRun(g0: Gen, g6: Gen, g7: Gen, x: Expr, r1: nat, e1: Expr, r3: nat, high: Expr, rh: nat, r4: nat, w: World, regs: Registers)
    requires Coded(g0, g6, Pair(x, r1, e1, r3)) && CodedValue(g6, g7, high, 0, rh) && InUse(g6, r1) && InUse(g6, r3)
    requires Available(g0, r4) && Owned(g7, r4) && r4 != r3 && Clear(high, g0, 0) && CacheOk(g0.cache, w, regs)
    ensures var i := OpCompareStore(Le, rh, r4, r1, false);
            Meets(g0, Emitted(g7, i), 0, Pair(e1, r3, Compare(Le, x, high), r4), w, regs, Out(g0, Emitted(g7, i), w, regs))
  {
    var i := OpCompareStore(Le, rh, r4, r1, false);
    var o6 := Out(g0, g6, w, regs);
    assert Meets(g0, g6, 0, Pair(x, r1, e1, r3), w, regs, o6);
    var o7 := Out(g6, g7, w, o6.regs);
    assert Meets(g6, g7, 0, ExprSpec.Value(high, rh), w, o6.regs, o7);
    OutThen(g0, g6, g7, w, regs);
    StepsThen(g0, g6, g7, 0, 0, 0);
    OutAfter(g0, g7, 0, i, w, regs);
    EmittedRun(g7, i, w, o7.regs);
    EmittedCache(g7, i);
    hide WellFormed, Continues, Out, CacheOk, Steps, Emitted, Cached, Run;
    ClearStable(high, g0, 0, w, regs, o6.regs);
    FrameThen(g0, g6, 0, 0, 0, regs, o6.regs, o7.regs);
    SetAvailable(g0, g7, r4, Eval(Compare(Le, x, high), w, regs), w, regs, o7.regs);
  }

  /** The conjunction a BETWEEN is coded as, its left side already in a register. */
  function Conjunction(r: nat, low: Expr, high: Expr): Expr {
    And(Compare(Ge, Register(r), low), Compare(Le, Register(r), high))
  }

  lemma BetweenJump(g0: Gen, g1: Gen, g2: Gen, e: Expr, r: nat, dest: nat, sense: bool, j: bool)
    requires e.Between? && CodedValue(g0, g1, e.x, 0, r) && Coded(g1, g2, JumpGoal(Conjunction(r, e.low, e.high), dest, sense, j))
    requires Clear(e, g0, 0)
    ensures Does(g0, g2, 0, JumpGoal(e, dest, sense, j))
  {
    var c := Conjunction(r, e.low, e.high);
    forall w, regs | CacheOk(g0.cache, w, regs)
      ensures Meets(g0, g2, 0, JumpGoal(e, dest, sense, j), w, regs, Out(g0, g2, w, regs))
    {
      var o1 := Out(g0, g1, w, regs);
      assert Meets(g0, g1, 0, ExprSpec.Value(e.x, r), w, regs, o1);
      var o2 := Out(g1, g2, w, o1.regs);
      assert Meets(g1, g2, 0, JumpGoal(c, dest, sense, j), w, o1.regs, o2);
      OutThen(g0, g1, g2, w, regs);
      hide WellFormed, Continues, Out, CacheOk, Run, Decision;
      FrameThen(g0, g1, 0, 0, 0, regs, o1.regs, o2.regs);
      ClearParts(e, g0, 0);
      ClearStable(e.low, g0, 0, w, regs, o1.regs);
      ClearStable(e.high, g0, 0, w, regs, o1.regs);
      ConjunctionMeans(e, r, w, regs, o1.regs);
      DecisionIs(c, dest, sense, j, w, o1.regs);
      DecisionIs(e, dest, sense, j, w, regs);
    }
  }

  lemma ConjunctionMeans(e: Expr, r: nat, w: World, regs: Registers, after: Registers)
    requires e.Between? && Get(after, r) == Eval(e.x, w, regs)
    requires Eval(e.low, w, after) == Eval(e.low, w, regs) && Eval(e.high, w, after) == Eval(e.high, w, regs)
    ensures Cond(Conjunction(r, e.low, e.high), w, after) == Cond(e, w, regs)
  {
    var a, b := Compare(Ge, Register(r), e.low), Compare(Le, Register(r), e.high);
    assert Eval(Register(r), w, after) == Eval(e.x, w, regs);
    BoolTruth(Compare3(Ge, Eval(e.x, w, regs), Eval(e.low, w, regs)));
    BoolTruth(Compare3(Le, Eval(e.x, w, regs), Eval(e.high, w, regs)));
    BoolTruth(And3(Compare3(Ge, Eval(e.x, w, regs), Eval(e.low, w, regs)), Compare3(Le, Eval(e.x, w, regs), Eval(e.high, w, regs))));
    assert Cond(And(a, b), w, after) == And3(Cond(a, w, after), Cond(b, w, after));
  }

  /** The operands of an expression. */
  function Operands(e: Expr): set<Expr> {
    match e
    case Column(_, _) => {}
    case Register(_) => {}
    case Literal(_) => {}
    case And(a, b) => {a, b}
    case Or(a, b) => {a, b}
    case Not(a) => {a}
    case Compare(_, a, b) => {a, b}
    case Is(a, b) => {a, b}
    case IsNot(a, b) => {a, b}
    case IsNull(a) => {a}
    case NotNull(a) => {a}
    case Between(x, low, high) => {x, low, high}
    case In(x, _, _) => {x}
  }

  lemma ClearParts(e: Expr, g: Gen, t: nat)
    requires Clear(e, g, t)
    ensures forall a :: a in Operands(e) ==> Clear(a, g, t) && Clear(a, g, 0)
  {
    hide InUse;
    forall a | a in Operands(e) ensures Clear(a, g, t) && Clear(a, g, 0) {
      assert RegistersIn(a) <= RegistersIn(e);
      ZeroUnused(e, g, t);
    }
  }

  lemma ZeroUnused(e: Expr, g: Gen, t: nat)
    requires Clear(e, g, t)
    ensures 0 !in RegistersIn(e)
  {
  }

  // ---- IN ----

  /** Code that sets up the register for the has-NULL answer, if one is used. */
  ghost predicate Prepared(g0: Gen, g1: Gen, kind: RhsKind, rHasNull: nat) {
    && WellFormed(g0) && Steps(g0, g1, 0) && g1.cache == g0.cache
    && (if kind == AnyValues then
          rHasNull == g0.nMem + 1 && InUse(g1, rHasNull) && g1.code == g0.code + [OpLoad(Null, rHasNull)] && g1.labels == g0.labels
        else rHasNull == 0 && g1 == g0)
  }

  lemma PreparedOut(g0: Gen, g1: Gen, kind: RhsKind, rHasNull: nat, w: World, regs: Registers)
    requires Prepared(g0, g1, kind, rHasNull) && CacheOk(g0.cache, w, regs)
    ensures var regs1 := if kind == AnyValues then regs[rHasNull := Null] else regs;
            Out(g0, g1, w, regs) == Outcome(Fall, regs1) && Frame(g0, 0, regs, regs1) && CacheOk(g1.cache, w, regs1)
  {
    if kind == AnyValues {
      EmittedRun(g0, OpLoad(Null, rHasNull), w, regs);
      SetAvailable(g0, g0, rHasNull, Null, w, regs, regs);
    } else {
      AtEnd(g0, g1, w, regs);
    }
  }

  ghost predicate TestsNull(g: Gen, g': Gen, r: nat, t: nat, kind: RhsKind, destF: nat, destN: nat) {
    forall w, regs :: Out(g, g', w, regs) == Outcome(NullExit(Get(regs, r), Rhs(w, t, kind), destF, destN), regs)
  }

  ghost predicate TestsMember(g: Gen, g': Gen, r: nat, t: nat, kind: RhsKind, destF: nat, destN: nat, rHasNull: nat) {
    forall w, regs ::
      Get(regs, r) != Null && (kind == AnyValues ==> Remembers(regs, rHasNull, Rhs(w, t, kind))) ==>
        Tested(Out(g, g', w, regs), regs, r, Rhs(w, t, kind), kind, destF, destN, rHasNull)
  }

  /** The right exit; only the has-NULL register may change, and it still tells
      the truth. */
  ghost predicate Tested(o: Outcome, regs: Registers, r: nat, s: set<ExprMachine.Value>, kind: RhsKind, destF: nat, destN: nat, rHasNull: nat) {
    && o.exit == MemberExit(Get(regs, r), s, destF, destN)
    && (forall q :: q != rHasNull ==> Get(o.regs, q) == Get(regs, q))
    && (kind == AnyValues ==> Remembers(o.regs, rHasNull, s))
  }

  /** The pieces of an IN put together. */
  lemma InDoes(g0: Gen, g1: Gen, g3: Gen, g4: Gen, g5: Gen, g7: Gen, e: Expr, destF: nat, destN: nat, r: nat, rHasNull: nat)
    requires e.In? && Prepared(g0, g1, e.kind, rHasNull) && Clear(e.x, g0, 0)
    requires Coded(Entered(g1), g3, ExprSpec.Value(e.x, r)) && InUse(g3, r) && Steps(g3, g4, 0) && Steps(g4, g5, 0)
    requires TestsNull(g3, g4, r, e.rhs, e.kind, destF, destN) && TestsMember(g4, g5, r, e.rhs, e.kind, destF, destN, rHasNull)
    requires destF !in g5.labels && destN !in g5.labels
    requires g7.code == g5.code && g7.labels == g5.labels && NoNewLines(g0, g7)
    ensures Does(g0, g7, 0, Decide(e, Fall, Jump(destF), Jump(destN)))
  {
    var goal := Decide(e, Fall, Jump(destF), Jump(destN));
    forall w, regs | CacheOk(g0.cache, w, regs)
      ensures Meets(g0, g7, 0, goal, w, regs, Out(g0, g7, w, regs))
    {
      InRun(g0, g1, g3, g4, g5, e, destF, destN, r, rHasNull, w, regs);
      CacheFrom(g0, 0, g7.cache, w, regs, Out(g0, g5, w, regs).regs);
    }
  }

  lemma InRun(g0: Gen, g1: Gen, g3: Gen, g4: Gen, g5: Gen, e: Expr, destF: nat, destN: nat, r: nat, rHasNull: nat, w: World, regs: Registers)
    requires e.In? && Prepared(g0, g1, e.kind, rHasNull) && Clear(e.x, g0, 0) && CacheOk(g0.cache, w, regs)
    requires Coded(Entered(g1), g3, ExprSpec.Value(e.x, r)) && InUse(g3, r) && Steps(g3, g4, 0) && Steps(g4, g5, 0)
    requires TestsNull(g3, g4, r, e.rhs, e.kind, destF, destN) && TestsMember(g4, g5, r, e.rhs, e.kind, destF, destN, rHasNull)
    requires destF !in g5.labels && destN !in g5.labels
    ensures var o := Out(g0, g5, w, regs);
            Frame(g0, 0, regs, o.regs) && o.exit == Decision(Decide(e, Fall, Jump(destF), Jump(destN)), w, regs)
  {
    hide Run, CacheOk, Rhs, Frame, Prepared;
    var s := Rhs(w, e.rhs, e.kind);
    InLeft(g0, g1, g3, e, r, rHasNull, w, regs);
    var o3 := Out(g0, g3, w, regs);
    PreparedSteps(g0, g1, e.kind, rHasNull);
    StepsThrough(g0, g1, g3, g4, g5);
    hide WellFormed, Continues, Steps, Coded, Frame;
    OutThen(g0, g3, g4, w, regs);
    OutThen(g0, g4, g5, w, regs);
    var v := Eval(e.x, w, regs);
    EvalInIs(e, w, regs);
    assert Out(g3, g4, w, o3.regs) == Outcome(NullExit(v, s, destF, destN), o3.regs);
    if v != Null {
      assert Tested(Out(g4, g5, w, o3.regs), o3.regs, r, s, e.kind, destF, destN, rHasNull);
      InFrameAfter(g0, e.kind, rHasNull, regs, o3.regs, Out(g4, g5, w, o3.regs).regs);
    }
  }

  lemma PreparedSteps(g0: Gen, g1: Gen, kind: RhsKind, rHasNull: nat)
    requires Prepared(g0, g1, kind, rHasNull)
    ensures Steps(g0, g1, 0) && (rHasNull == 0 || rHasNull > g0.nMem)
  {
  }

  /** The left-hand side of an IN. */
  lemma InLeft(g0: Gen, g1: Gen, g3: Gen, e: Expr, r: nat, rHasNull: nat, w: World, regs: Registers)
    requires e.In? && Prepared(g0, g1, e.kind, rHasNull) && Clear(e.x, g0, 0) && CacheOk(g0.cache, w, regs)
    requires Coded(Entered(g1), g3, ExprSpec.Value(e.x, r))
    ensures var o3 := Out(g0, g3, w, regs);
            && o3.exit == Fall && Get(o3.regs, r) == Eval(e.x, w, regs) && Frame(g0, 0, regs, o3.regs)
            && (e.kind == AnyValues ==> Get(o3.regs, rHasNull) == Null)
  {
    PreparedOut(g0, g1, e.kind, rHasNull, w, regs);
    var regs1 := Out(g0, g1, w, regs).regs;
    var o3 := Out(Entered(g1), g3, w, regs1);
    assert Meets(Entered(g1), g3, 0, ExprSpec.Value(e.x, r), w, regs1, o3);
    OutThen(g0, g1, g3, w, regs);
    hide WellFormed, Continues, Run, CacheOk, Steps, Coded;
    ClearStable(e.x, g0, 0, w, regs, regs1);
    InFrame(g0, g1, e.kind, rHasNull, regs, regs1, o3.regs);
  }

  predicate EvalIn(e: Expr, w: World, regs: Registers, v: ExprMachine.Value, s: set<ExprMachine.Value>) {
    Cond(e, w, regs) == In3(v, s) && Eval(e, w, regs) == BoolValue(In3(v, s))
  }

  lemma EvalInIs(e: Expr, w: World, regs: Registers)
    requires e.In?
    ensures EvalIn(e, w, regs, Eval(e.x, w, regs), Rhs(w, e.rhs, e.kind))
  {
    BoolTruth(In3(Eval(e.x, w, regs), Rhs(w, e.rhs, e.kind)));
  }

  lemma StepsThrough(g0: Gen, g1: Gen, g3: Gen, g4: Gen, g5: Gen)
    requires Steps(g0, g1, 0) && Steps(Entered(g1), g3, 0) && Steps(g3, g4, 0) && Steps(g4, g5, 0)
    ensures |g0.code| <= |g1.code| <= |g3.code| <= |g4.code| <= |g5.code|
    ensures Continues(g1.code, g1.labels, g3.code, g3.labels) && Continues(g3.code, g3.labels, g4.code, g4.labels)
    ensures Continues(g4.code, g4.labels, g5.code, g5.labels)
    ensures forall l :: l in g4.labels ==> l in g5.labels
  {
  }

  lemma InFrame(g0: Gen, g1: Gen, kind: RhsKind, rHasNull: nat, regs: Registers, regs1: Registers, after: Registers)
    requires Prepared(g0, g1, kind, rHasNull) && Frame(g0, 0, regs, regs1) && Frame(Entered(g1), 0, regs1, after)
    requires kind == AnyValues ==> Get(regs1, rHasNull) == Null
    ensures Frame(g0, 0, regs, after) && (kind == AnyValues ==> Get(after, rHasNull) == Null)
  {
    hide WellFormed, Continues;
  }

  lemma InFrameAfter(g0: Gen, kind: RhsKind, rHasNull: nat, regs: Registers, before: Registers, after: Registers)
    requires Frame(g0, 0, regs, before) && (rHasNull == 0 || rHasNull > g0.nMem)
    requires forall q :: q != rHasNull ==> Get(after, q) == Get(before, q)
    ensures Frame(g0, 0, regs, after)
  {
  }

  /** IN as a condition to be true. */
  lemma InTrue(g0: Gen, gB: Gen, gD: Gen, e: Expr, dest: nat, destF: nat, j: bool)
    requires e.In? && WellFormed(g0) && Coded(g0, gB, Decide(e, Fall, Jump(destF), Jump(if j then dest else destF))) && NoNewLines(g0, gB)
    requires gD == Resolved(Emitted(gB, OpGoto(dest)), destF) && destF !in gB.labels && dest !in gD.labels
    ensures Does(g0, gD, 0, TrueGoal(e, dest, j))
  {
    var gC := Emitted(gB, OpGoto(dest));
    EmittedSteps(gB, OpGoto(dest));
    ResolvedContinues(gC, gD, destF);
    forall w, regs | CacheOk(g0.cache, w, regs)
      ensures Meets(g0, gD, 0, TrueGoal(e, dest, j), w, regs, Out(g0, gD, w, regs))
    {
      var o := Out(g0, gB, w, regs);
      assert Meets(g0, gB, 0, Decide(e, Fall, Jump(destF), Jump(if j then dest else destF)), w, regs, o);
      OutThen(g0, gB, gC, w, regs);
      EmittedRun(gB, OpGoto(dest), w, o.regs);
      OutThen(g0, gC, gD, w, regs);
      CacheFrom(g0, 0, gD.cache, w, regs, o.regs);
      hide WellFormed, Continues, Run, CacheOk, Steps, Eval, Cond, Frame;
    }
  }

  /** IN as a condition to be false, where NULL falls through. */
  lemma InFalse(g0: Gen, gB: Gen, gC: Gen, e: Expr, dest: nat, destN: nat)
    requires e.In? && WellFormed(g0) && Coded(g0, gB, Decide(e, Fall, Jump(dest), Jump(destN))) && NoNewLines(g0, gB)
    requires gC == Resolved(gB, destN) && destN !in gB.labels && dest !in gC.labels
    ensures Does(g0, gC, 0, FalseGoal(e, dest, false))
  {
    ResolvedContinues(gB, gC, destN);
    forall w, regs | CacheOk(g0.cache, w, regs)
      ensures Meets(g0, gC, 0, FalseGoal(e, dest, false), w, regs, Out(g0, gC, w, regs))
    {
      var o := Out(g0, gB, w, regs);
      assert Meets(g0, gB, 0, Decide(e, Fall, Jump(dest), Jump(destN)), w, regs, o);
      OutThen(g0, gB, gC, w, regs);
      AtEnd(gB, gC, w, o.regs);
      CacheFrom(g0, 0, gC.cache, w, regs, o.regs);
      hide WellFormed, Continues, Run, CacheOk, Steps, Eval, Cond, Frame;
    }
  }

  /** IN as a value: NULL is loaded first, 1 where the code falls through, and
      NULL is turned into 0 where it is false. */
  lemma InValue(g0: Gen, gA: Gen, gB: Gen, gF: Gen, e: Expr, target: nat, destF: nat, destN: nat)
    requires e.In? && WellFormed(g0) && Owned(g0, target) && Clear(e, g0, target) && gA == Emitted(g0, OpLoad(Null, target))
    requires Coded(gA, gB, Decide(e, Fall, Jump(destF), Jump(destN))) && NoNewLines(gA, gB)
    requires gF.code == gB.code + [OpLoad(Int(1), target), OpAddImm(target, 0)] && gF.cache == gB.cache
    requires Continues(gB.code, gB.labels, gF.code, gF.labels) && destF !in gB.labels && destN !in gB.labels
    requires destF in gF.labels && gF.labels[destF] == |gB.code| + 1 && destN in gF.labels && gF.labels[destN] == |gB.code| + 2
    ensures Does(g0, gF, target, ExprSpec.Value(e, target))
  {
    forall w, regs | CacheOk(g0.cache, w, regs)
      ensures Meets(g0, gF, target, ExprSpec.Value(e, target), w, regs, Out(g0, gF, w, regs))
    {
      InValueRun(g0, gA, gB, gF, e, target, destF, destN, w, regs);
    }
  }

  lemma InValueRun(g0: Gen, gA: Gen, gB: Gen, gF: Gen, e: Expr, target: nat, destF: nat, destN: nat, w: World, regs: Registers)
    requires e.In? && WellFormed(g0) && Owned(g0, target) && Clear(e, g0, target) && gA == Emitted(g0, OpLoad(Null, target))
    requires Coded(gA, gB, Decide(e, Fall, Jump(destF), Jump(destN))) && NoNewLines(gA, gB) && CacheOk(g0.cache, w, regs)
    requires gF.code == gB.code + [OpLoad(Int(1), target), OpAddImm(target, 0)] && gF.cache == gB.cache
    requires Continues(gB.code, gB.labels, gF.code, gF.labels) && destF !in gB.labels && destN !in gB.labels
    requires destF in gF.labels && gF.labels[destF] == |gB.code| + 1 && destN in gF.labels && gF.labels[destN] == |gB.code| + 2
    ensures Meets(g0, gF, target, ExprSpec.Value(e, target), w, regs, Out(g0, gF, w, regs))
  {
    var goal := Decide(e, Fall, Jump(destF), Jump(destN));
    var one := regs[target := Null];
    LoadedOut(g0, gA, gB, target, Null, w, regs);
    var o := Out(gA, gB, w, one);
    assert Meets(gA, gB, 0, goal, w, one, o);
    ClearStable(e, g0, target, w, regs, one);
    InValueOut(g0, gB, gF, e, target, destF, destN, w, regs, o);
    hide Continues, Run, Steps, WellFormed;
    var v := Eval(e, w, regs);
    InValueEnd(g0, gF, target, v, w, regs, o.regs);
  }

  /** The three ways out of an IN, continued. */
  lemma InValueOut(g0: Gen, gB: Gen, gF: Gen, e: Expr, target: nat, destF: nat, destN: nat, w: World, regs: Registers, o: Outcome)
    requires e.In? && o == Out(g0, gB, w, regs) && Get(o.regs, target) == Null && |g0.code| <= |gB.code|
    requires o.exit == Decision(Decide(e, Fall, Jump(destF), Jump(destN)), w, regs)
    requires gF.code == gB.code + [OpLoad(Int(1), target), OpAddImm(target, 0)]
    requires Continues(gB.code, gB.labels, gF.code, gF.labels) && destF !in gB.labels && destN !in gB.labels
    requires destF in gF.labels && gF.labels[destF] == |gB.code| + 1 && destN in gF.labels && gF.labels[destN] == |gB.code| + 2
    ensures var v := Eval(e, w, regs);
            Out(g0, gF, w, regs) == Outcome(Fall, if v == Null then o.regs else o.regs[target := v])
  {
    RunOn(gB.code, gB.labels, gF.code, gF.labels, |g0.code|, regs, w);
    hide Continues, Run;
    InValueBlock(gB, gF, target, w, o.regs);
    EvalInIs(e, w, regs);
    assert Eval(e, w, regs) == BoolValue(Cond(e, w, regs));
    hide Eval, Cond;
  }

  lemma InValueEnd(g0: Gen, gF: Gen, target: nat, v: ExprMachine.Value, w: World, regs: Registers, after: Registers)
    requires WellFormed(g0) && Owned(g0, target) && CacheOk(g0.cache, w, regs) && Frame(g0, target, regs, after) && NoNewLines(g0, gF)
    ensures Frame(g0, target, regs, after[target := v]) && CacheOk(gF.cache, w, after[target := v]) && CacheOk(gF.cache, w, after)
  {
    assert Frame(g0, target, regs, after[target := v]);
    CacheFrom(g0, target, gF.cache, w, regs, after[target := v]);
    CacheFrom(g0, target, gF.cache, w, regs, after);
  }

  lemma InValueBlock(gB: Gen, gF: Gen, target: nat, w: World, regs: Registers)
    requires gF.code == gB.code + [OpLoad(Int(1), target), OpAddImm(target, 0)] && Get(regs, target) == Null
    ensures var c, p := gF.code, |gB.code|;
            && Run(c, gF.labels, p, regs, w) == Outcome(Fall, regs[target := Int(1)])
            && Run(c, gF.labels, p + 1, regs, w) == Outcome(Fall, regs[target := Int(0)])
            && Run(c, gF.labels, p + 2, regs, w) == Outcome(Fall, regs)
  {
    hide Run;
    var c, p := gF.code, |gB.code|;
    assert c[p] == OpLoad(Int(1), target) && c[p + 1] == OpAddImm(target, 0);
    var set1 := regs[target := Int(1)];
    RunAt(c, gF.labels, p, regs, w);
    RunAt(c, gF.labels, p + 1, set1, w);
    RunAt(c, gF.labels, p + 1, regs, w);
    RunEnd(c, gF.labels, p + 2, regs[target := Int(0)], w);
    RunEnd(c, gF.labels, p + 2, set1[target := Int(1)], w);
    RunEnd(c, gF.labels, p + 2, regs, w);
    assert set1[target := Int(1)] == set1;
  }
}

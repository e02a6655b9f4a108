/** What it means for emitted code to compute an expression: a calculus over
    snapshots of the code generator. */
module ExprSpec {
  import opened ExprMachine

  /** A line of the column cache; register 0 means that it is empty. */
  datatype Line = Line(table: nat, column: int, reg: nat, level: nat, needsFreeing: bool, lru: int)

  /** The state of the code generator. `pool` holds the free temporaries. */
  datatype Gen = Gen(code: seq<Instruction>, labels: map<nat, nat>, nLabel: nat, nMem: nat, pool: seq<nat>, cache: seq<Line>, level: nat)

  /** No register is free twice, cached twice, or free and cached. */
  ghost predicate WellFormed(g: Gen) {
    && (forall l :: l in g.labels ==> l < g.nLabel && g.labels[l] <= |g.code|)
    && (forall i :: 0 <= i < |g.pool| ==> 0 < g.pool[i] <= g.nMem)
    && (forall i, j :: 0 <= i < j < |g.pool| ==> g.pool[i] != g.pool[j])
    && (forall i :: 0 <= i < |g.cache| && g.cache[i].reg != 0 ==>
          g.cache[i].reg <= g.nMem && g.cache[i].level <= g.level && g.cache[i].reg !in g.pool)
    && (forall i, j :: 0 <= i < j < |g.cache| && g.cache[i].reg != 0 ==> g.cache[i].reg != g.cache[j].reg)
  }

  /** A register the generator may hand out. */
  predicate Available(g: Gen, r: nat) {
    r in g.pool || r > g.nMem
  }

  /** A register in use: allocated, not free. */
  predicate InUse(g: Gen, r: nat) {
    0 < r <= g.nMem && r !in g.pool
  }

  predicate Cached(g: Gen, r: nat) {
    exists i :: 0 <= i < |g.cache| && g.cache[i].reg == r
  }

  /** A register in use that the cache does not vouch for. */
  predicate Owned(g: Gen, r: nat) {
    InUse(g, r) && !Cached(g, r)
  }

  predicate SameLine(a: Line, b: Line) {
    a.table == b.table && a.column == b.column && a.reg == b.reg && a.level == b.level
  }

  /** What any piece of code generation may do: append code, resolve labels of
      its own, use available registers and `target`, and add cache lines for
      them at the current level. */
  ghost predicate Steps(g0: Gen, g1: Gen, target: nat) {
    && WellFormed(g1)
    && Continues(g0.code, g0.labels, g1.code, g1.labels) && |g0.code| <= |g1.code|
    && g0.nLabel <= g1.nLabel && g0.nMem <= g1.nMem && g0.level == g1.level && |g0.cache| == |g1.cache|
    && (forall l :: l in g1.labels && l !in g0.labels ==> l >= g0.nLabel)
    && (forall r :: r in g1.pool ==> Available(g0, r))
    && (forall i :: 0 <= i < |g1.cache| && g1.cache[i].reg != 0 ==> Kept(g0, g1.cache[i], i, target))
  }

  predicate Kept(g0: Gen, line: Line, i: nat, target: nat)
    requires i < |g0.cache|
  {
    SameLine(g0.cache[i], line) || (line.level == g0.level && (Available(g0, line.reg) || line.reg == target))
  }

  // ---- meaning ----

  ghost predicate CacheOk(cache: seq<Line>, w: World, regs: Registers) {
    forall i :: 0 <= i < |cache| && cache[i].reg != 0 ==> Get(regs, cache[i].reg) == w.column(cache[i].table, cache[i].column)
  }

  /** Registers in use, `target` apart, are as they were. */
  ghost predicate Frame(g: Gen, target: nat, a: Registers, b: Registers) {
    forall r :: 0 < r <= g.nMem && r !in g.pool && r != target ==> Get(a, r) == Get(b, r)
  }

  function Out(g0: Gen, g1: Gen, w: World, regs: Registers): Outcome {
    Run(g1.code, g1.labels, |g0.code|, regs, w)
  }

  /** What a piece of code is for: registers holding values, or a jump decided by
      the truth of an expression. */
  datatype Goal =
    | Value(e: Expr, r: nat)
    | Pair(a: Expr, ra: nat, b: Expr, rb: nat)
    | Decide(e: Expr, onTrue: Exit, onFalse: Exit, onNull: Exit)

  function Pick(t: Truth, onTrue: Exit, onFalse: Exit, onNull: Exit): Exit {
    match t
    case True => onTrue
    case False => onFalse
    case Unknown => onNull
  }

  function Decision(goal: Goal, w: World, regs: Registers): Exit {
    match goal
    case Value(_, _) => Fall
    case Pair(_, _, _, _) => Fall
    case Decide(e, t, f, n) => Pick(Cond(e, w, regs), t, f, n)
  }

  predicate Holding(goal: Goal, w: World, regs: Registers, after: Registers) {
    match goal
    case Value(e, r) => Get(after, r) == Eval(e, w, regs)
    case Pair(a, ra, b, rb) => Get(after, ra) == Eval(a, w, regs) && Get(after, rb) == Eval(b, w, regs)
    case Decide(_, _, _, _) => true
  }

  ghost predicate Meets(g0: Gen, g1: Gen, target: nat, goal: Goal, w: World, regs: Registers, o: Outcome) {
    && Frame(g0, target, regs, o.regs)
    && o.exit == Decision(goal, w, regs)
    && Holding(goal, w, regs, o.regs)
    && (o.exit == Fall ==> CacheOk(g1.cache, w, o.regs))
  }

  /** From any state in which the cache is right, the code between `g0` and `g1`
      reaches its goal and, where it falls through, leaves the cache right. */
  ghost predicate Does(g0: Gen, g1: Gen, target: nat, goal: Goal) {
    forall w, regs :: CacheOk(g0.cache, w, regs) ==> Meets(g0, g1, target, goal, w, regs, Out(g0, g1, w, regs))
  }

  /** The registers an expression mentions are not disturbed. */
  ghost predicate Clear(e: Expr, g: Gen, target: nat) {
    forall r :: r in RegistersIn(e) ==> InUse(g, r) && r != target
  }

  // ---- composing pieces ----

  lemma StepsRefl(g: Gen)
    requires WellFormed(g)
    ensures Steps(g, g, 0)
  {
  }

  lemma StepsThen(g0: Gen, g1: Gen, g2: Gen, t1: nat, t2: nat, t: nat)
    requires Steps(g0, g1, t1) && Steps(g1, g2, t2)
    requires (t1 == t || t1 == 0 || Available(g0, t1)) && (t2 == t || t2 == 0 || Available(g0, t2))
    ensures Steps(g0, g2, t)
  {
    hide WellFormed;
    ContinuesThen(g0, g1, g2);
    forall i | 0 <= i < |g2.cache| && g2.cache[i].reg != 0
      ensures Kept(g0, g2.cache[i], i, t)
    {
      assert Kept(g1, g2.cache[i], i, t2);
      if SameLine(g1.cache[i], g2.cache[i]) { assert Kept(g0, g1.cache[i], i, t1); }
    }
  }

  lemma ContinuesThen(g0: Gen, g1: Gen, g2: Gen)
    requires Continues(g0.code, g0.labels, g1.code, g1.labels) && Continues(g1.code, g1.labels, g2.code, g2.labels)
    ensures Continues(g0.code, g0.labels, g2.code, g2.labels)
  {
    assert g2.code[..|g0.code|] == g2.code[..|g1.code|][..|g0.code|];
  }

  lemma OutThen(g0: Gen, g1: Gen, g2: Gen, w: World, regs: Registers)
    requires |g0.code| <= |g1.code| && Continues(g1.code, g1.labels, g2.code, g2.labels)
    ensures var o := Out(g0, g1, w, regs);
            match o.exit
            case Fall => Out(g0, g2, w, regs) == Out(g1, g2, w, o.regs)
            case Jump(l) => l !in g2.labels ==> Out(g0, g2, w, regs) == o
    ensures var o := Out(g0, g1, w, regs);
            o.exit.Jump? && o.exit.dest in g2.labels && o.exit.dest !in g1.labels && g2.labels[o.exit.dest] == |g2.code|
            ==> Out(g0, g2, w, regs) == Outcome(Fall, o.regs)
  {
    RunOn(g1.code, g1.labels, g2.code, g2.labels, |g0.code|, regs, w);
  }

  lemma FrameThen(g0: Gen, g1: Gen, t1: nat, t2: nat, t: nat, a: Registers, b: Registers, c: Registers)
    requires Steps(g0, g1, t1) && Frame(g0, t1, a, b) && Frame(g1, t2, b, c)
    requires (t1 == t || t1 == 0 || Available(g0, t1)) && (t2 == t || t2 == 0 || Available(g0, t2))
    ensures Frame(g0, t, a, c)
  {
    hide WellFormed, Continues;
  }

  lemma ClearStable(e: Expr, g: Gen, target: nat, w: World, a: Registers, b: Registers)
    requires Clear(e, g, target) && Frame(g, target, a, b)
    ensures Eval(e, w, a) == Eval(e, w, b) && Cond(e, w, a) == Cond(e, w, b)
  {
    EvalStable(e, w, a, b);
    CondStable(e, w, a, b);
  }

  lemma ClearLater(e: Expr, g0: Gen, g1: Gen, target: nat, t: nat)
    requires Clear(e, g0, target) && Steps(g0, g1, target) && (t == target || t == 0 || Available(g0, t))
    ensures Clear(e, g1, t)
  {
    hide WellFormed, Continues;
  }

  /** Two values computed one after the other. */
  lemma PairUp(g0: Gen, g1: Gen, g2: Gen, a: Expr, ra: nat, b: Expr, rb: nat)
    requires Steps(g0, g1, 0) && Steps(g1, g2, 0) && InUse(g1, ra) && Clear(b, g0, 0)
    requires Does(g0, g1, 0, Value(a, ra)) && Does(g1, g2, 0, Value(b, rb))
    ensures Does(g0, g2, 0, Pair(a, ra, b, rb))
  {
    forall w, regs | CacheOk(g0.cache, w, regs)
      ensures Meets(g0, g2, 0, Pair(a, ra, b, rb), w, regs, Out(g0, g2, w, regs))
    {
      PairRun(g0, g1, g2, a, ra, b, rb, w, regs);
    }
  }

  lemma PairRun(g0: Gen, g1: Gen, g2: Gen, a: Expr, ra: nat, b: Expr, rb: nat, w: World, regs: Registers)
    requires Steps(g0, g1, 0) && Steps(g1, g2, 0) && InUse(g1, ra) && Clear(b, g0, 0) && CacheOk(g0.cache, w, regs)
    requires Does(g0, g1, 0, Value(a, ra)) && Does(g1, g2, 0, Value(b, rb))
    ensures Meets(g0, g2, 0, Pair(a, ra, b, rb), w, regs, Out(g0, g2, w, regs))
  {
    hide WellFormed, Continues, Out, Eval, Cond, CacheOk;
    var o1 := Out(g0, g1, w, regs);
    var o2 := Out(g1, g2, w, o1.regs);
    assert Meets(g0, g1, 0, Value(a, ra), w, regs, o1);
    assert Meets(g1, g2, 0, Value(b, rb), w, o1.regs, o2);
    OutThen(g0, g1, g2, w, regs);
    ClearStable(b, g0, 0, w, regs, o1.regs);
    FrameThen(g0, g1, 0, 0, 0, regs, o1.regs, o2.regs);
  }

  function Emitted(g: Gen, i: Instruction): Gen {
    g.(code := g.code + [i])
  }

  lemma EmittedCache(g: Gen, i: Instruction)
    ensures Emitted(g, i).cache == g.cache
  {
  }

  lemma EmittedSteps(g: Gen, i: Instruction)
    requires WellFormed(g)
    ensures Steps(g, Emitted(g, i), 0)
  {
  }

  lemma EmittedRun(g: Gen, i: Instruction, w: World, regs: Registers)
    requires WellFormed(g)
    ensures Out(g, Emitted(g, i), w, regs)
         == match Perform(i, regs, w) { case Next(after) => Outcome(Fall, after) case To(l, after) => Outcome(Jump(l), after) }
  {
    hide Perform;
    var c := Emitted(g, i).code;
    assert c[|g.code|] == i && |c| == |g.code| + 1;
    assert forall after :: Run(c, g.labels, |c|, after, w) == Outcome(Fall, after);
  }

  /** A value computed from what is already in registers. */
  lemma StoreAfter(g0: Gen, g1: Gen, t: nat, goal: Goal, i: Instruction, target: nat, e: Expr)
    requires WellFormed(g1) && Steps(g0, g1, t) && Does(g0, g1, t, goal) && !goal.Decide?
    requires t == 0 || t == target
    requires !Cached(g1, target) && target != 0
    requires forall w, regs, after :: Holding(goal, w, regs, after) ==> Perform(i, after, w) == Next(after[target := Eval(e, w, regs)])
    ensures Does(g0, Emitted(g1, i), target, Value(e, target))
  {
    forall w, regs | CacheOk(g0.cache, w, regs)
      ensures Meets(g0, Emitted(g1, i), target, Value(e, target), w, regs, Out(g0, Emitted(g1, i), w, regs))
    {
      hide WellFormed, Continues, Out, Eval, Cond, Perform, Holding, Frame, CacheOk, Cached, Steps, Emitted;
      var o := Out(g0, g1, w, regs);
      assert Meets(g0, g1, t, goal, w, regs, o);
      EmittedCache(g1, i);
      OutAfter(g0, g1, t, i, w, regs);
      EmittedRun(g1, i, w, o.regs);
      assert Perform(i, o.regs, w) == Next(o.regs[target := Eval(e, w, regs)]);
      SetRegister(g0, g1, t, target, Eval(e, w, regs), w, regs, o.regs);
      HoldingValue(e, target, w, regs, o.regs);
    }
  }

  lemma HoldingValue(e: Expr, target: nat, w: World, regs: Registers, after: Registers)
    ensures Holding(Value(e, target), w, regs, after[target := Eval(e, w, regs)])
  {
  }

  /** Setting a register that the cache does not use. */
  lemma SetRegister(g0: Gen, g1: Gen, t: nat, target: nat, v: ExprMachine.Value, w: World, regs: Registers, after: Registers)
    requires Frame(g0, t, regs, after) && CacheOk(g1.cache, w, after) && !Cached(g1, target) && (t == 0 || t == target)
    ensures Frame(g0, target, regs, after[target := v]) && CacheOk(g1.cache, w, after[target := v])
  {
  }

  lemma OutAfter(g0: Gen, g1: Gen, t: nat, i: Instruction, w: World, regs: Registers)
    requires WellFormed(g1) && Steps(g0, g1, t)
    ensures Out(g0, g1, w, regs).exit == Fall ==> Out(g0, Emitted(g1, i), w, regs) == Out(g1, Emitted(g1, i), w, Out(g0, g1, w, regs).regs)
  {
    EmittedSteps(g1, i);
    OutThen(g0, g1, Emitted(g1, i), w, regs);
  }

  /** A jump decided by what is already in registers. */
  lemma JumpAfter(g0: Gen, g1: Gen, goal: Goal, i: Instruction, e: Expr, t: Exit, f: Exit, n: Exit)
    requires WellFormed(g1) && Steps(g0, g1, 0) && Does(g0, g1, 0, goal) && !goal.Decide?
    requires forall w, regs, after :: Holding(goal, w, regs, after) ==>
               match Pick(Cond(e, w, regs), t, f, n) {
                 case Fall => Perform(i, after, w) == Next(after)
                 case Jump(l) => Perform(i, after, w) == To(l, after)
               }
    ensures Does(g0, Emitted(g1, i), 0, Decide(e, t, f, n))
  {
    forall w, regs | CacheOk(g0.cache, w, regs)
      ensures Meets(g0, Emitted(g1, i), 0, Decide(e, t, f, n), w, regs, Out(g0, Emitted(g1, i), w, regs))
    {
      hide WellFormed, Continues, Out, Eval, Cond, Perform, Frame, CacheOk, Steps, Emitted;
      var o := Out(g0, g1, w, regs);
      assert Meets(g0, g1, 0, goal, w, regs, o);
      EmittedCache(g1, i);
      OutAfter(g0, g1, 0, i, w, regs);
      EmittedRun(g1, i, w, o.regs);
    }
  }

  /** Bookkeeping before the code changes nothing about what it does. */
  lemma Earlier(g0: Gen, g0': Gen, g1: Gen, t: nat, t': nat, goal: Goal)
    requires g0.code == g0'.code && g0.cache == g0'.cache && Does(g0', g1, t', goal)
    requires forall r :: InUse(g0, r) && r != t ==> InUse(g0', r) && r != t'
    ensures Does(g0, g1, t, goal)
  {
    forall w, regs | CacheOk(g0.cache, w, regs)
      ensures Meets(g0, g1, t, goal, w, regs, Out(g0, g1, w, regs))
    {
      hide Run, CacheOk, Decision, Holding;
      assert Meets(g0', g1, t', goal, w, regs, Out(g0', g1, w, regs));
      FrameEarlier(g0, g0', t, t', regs, Out(g0, g1, w, regs).regs);
    }
  }

  lemma FrameEarlier(g0: Gen, g0': Gen, t: nat, t': nat, a: Registers, b: Registers)
    requires Frame(g0', t', a, b) && forall r :: InUse(g0, r) && r != t ==> InUse(g0', r) && r != t'
    ensures Frame(g0, t, a, b)
  {
    forall r | 0 < r <= g0.nMem && r !in g0.pool && r != t ensures Get(a, r) == Get(b, r) {
      assert InUse(g0, r);
    }
  }

  /** Nor does bookkeeping after it. */
  lemma Later(g0: Gen, g1: Gen, g2: Gen, t: nat, goal: Goal)
    requires g1.code == g2.code && g1.labels == g2.labels && |g1.cache| == |g2.cache| && Does(g0, g1, t, goal)
    requires forall i :: 0 <= i < |g2.cache| && g2.cache[i].reg != 0 ==> SameLine(g1.cache[i], g2.cache[i])
    ensures Does(g0, g2, t, goal)
  {
    forall w, regs | CacheOk(g0.cache, w, regs)
      ensures Meets(g0, g2, t, goal, w, regs, Out(g0, g2, w, regs))
    {
      hide Run, Frame, Decision, Holding;
      assert Meets(g0, g1, t, goal, w, regs, Out(g0, g1, w, regs));
    }
  }

  // ---- joining branches ----

  ghost predicate Unresolved(x: Exit, g: Gen) {
    x.Jump? ==> x.dest !in g.labels
  }

  ghost predicate Open(goal: Goal, g: Gen) {
    goal.Decide? && Unresolved(goal.onTrue, g) && Unresolved(goal.onFalse, g) && Unresolved(goal.onNull, g)
  }

  /** The whole decides as the first does, unless that falls through to the
      second. */
  ghost predicate InTurn(whole: Goal, first: Goal, second: Goal) {
    forall w, regs :: Decision(whole, w, regs) == if Decision(first, w, regs) == Fall then Decision(second, w, regs) else Decision(first, w, regs)
  }

  /** A jump of the first skips the second; else the second decides. */
  ghost predicate Skips(whole: Goal, first: Goal, second: Goal) {
    forall w, regs :: Decision(whole, w, regs) == if Decision(first, w, regs) == Fall then Decision(second, w, regs) else Fall
  }

  /** One decision, and where it falls through another. */
  lemma InSequence(g0: Gen, g1: Gen, g2: Gen, first: Goal, second: Goal, whole: Goal)
    requires Steps(g0, g1, 0) && Steps(g1, g2, 0) && Does(g0, g1, 0, first) && Does(g1, g2, 0, second)
    requires Open(first, g2) && second.Decide? && whole.Decide? && Clear(second.e, g0, 0)
    requires InTurn(whole, first, second)
    ensures Does(g0, g2, 0, whole)
  {
    forall w, regs | CacheOk(g0.cache, w, regs)
      ensures Meets(g0, g2, 0, whole, w, regs, Out(g0, g2, w, regs))
    {
      hide WellFormed, Continues, Out, Eval, Cond, Frame, CacheOk, Clear;
      var o1 := Out(g0, g1, w, regs);
      assert Meets(g0, g1, 0, first, w, regs, o1);
      OutThen(g0, g1, g2, w, regs);
      if o1.exit == Fall {
        var o2 := Out(g1, g2, w, o1.regs);
        assert Meets(g1, g2, 0, second, w, o1.regs, o2);
        ClearStable(second.e, g0, 0, w, regs, o1.regs);
        FrameThen(g0, g1, 0, 0, 0, regs, o1.regs, o2.regs);
      }
    }
  }

  /** Cache lines from before are still right. */
  lemma CacheFrom(g0: Gen, t: nat, cache: seq<Line>, w: World, regs: Registers, after: Registers)
    requires WellFormed(g0) && CacheOk(g0.cache, w, regs) && Frame(g0, t, regs, after) && |cache| == |g0.cache|
    requires t == 0 || !Cached(g0, t)
    requires forall i :: 0 <= i < |cache| && cache[i].reg != 0 ==> SameLine(g0.cache[i], cache[i])
    ensures CacheOk(cache, w, after)
  {
    forall i | 0 <= i < |cache| && cache[i].reg != 0 ensures Get(after, cache[i].reg) == w.column(cache[i].table, cache[i].column) {
      assert SameLine(g0.cache[i], cache[i]);
    }
  }

  /** No line is new. */
  ghost predicate NoNewLines(g0: Gen, g1: Gen) {
    |g1.cache| == |g0.cache| && forall i :: 0 <= i < |g1.cache| && g1.cache[i].reg != 0 ==> SameLine(g0.cache[i], g1.cache[i])
  }

  function Resolved(g: Gen, l: nat): Gen {
    g.(labels := g.labels[l := |g.code|])
  }

  predicate OnlySkips(goal: Goal, d: nat)
    requires goal.Decide?
  {
    (goal.onTrue == Fall || goal.onTrue == Jump(d)) && (goal.onFalse == Fall || goal.onFalse == Jump(d))
    && (goal.onNull == Fall || goal.onNull == Jump(d))
  }

  /** A decision whose jump `d` skips a second one and lands right behind it. */
  lemma Skipping(g0: Gen, g1: Gen, g2: Gen, g3: Gen, d: nat, first: Goal, second: Goal, whole: Goal)
    requires WellFormed(g0) && Steps(g0, g1, 0) && Steps(g1, g2, 0) && Does(g0, g1, 0, first) && Does(g1, g2, 0, second)
    requires d !in g2.labels && g3.code == g2.code && g3.labels == Resolved(g2, d).labels && |g3.cache| == |g0.cache|
    requires forall i :: 0 <= i < |g3.cache| && g3.cache[i].reg != 0 ==> SameLine(g0.cache[i], g3.cache[i])
    requires second.Decide? && whole.Decide? && first.Decide? && Clear(second.e, g0, 0) && Open(second, g3)
    requires OnlySkips(first, d)
    requires Skips(whole, first, second)
    ensures Does(g0, g3, 0, whole)
  {
    forall w, regs | CacheOk(g0.cache, w, regs)
      ensures Meets(g0, g3, 0, whole, w, regs, Out(g0, g3, w, regs))
    {
      SkippingRun(g0, g1, g2, g3, d, first, second, w, regs);
      assert Decision(whole, w, regs) == if Decision(first, w, regs) == Fall then Decision(second, w, regs) else Fall;
    }
  }

  lemma SkippingRun(g0: Gen, g1: Gen, g2: Gen, g3: Gen, d: nat, first: Goal, second: Goal, w: World, regs: Registers)
    requires WellFormed(g0) && Steps(g0, g1, 0) && Steps(g1, g2, 0) && Does(g0, g1, 0, first) && Does(g1, g2, 0, second)
    requires d !in g2.labels && g3.code == g2.code && g3.labels == Resolved(g2, d).labels && |g3.cache| == |g0.cache|
    requires forall i :: 0 <= i < |g3.cache| && g3.cache[i].reg != 0 ==> SameLine(g0.cache[i], g3.cache[i])
    requires second.Decide? && first.Decide? && Clear(second.e, g0, 0) && Open(second, g3)
    requires OnlySkips(first, d)
    requires CacheOk(g0.cache, w, regs)
    ensures var o := Out(g0, g3, w, regs);
            && Frame(g0, 0, regs, o.regs) && CacheOk(g3.cache, w, o.regs)
            && o.exit == if Decision(first, w, regs) == Fall then Decision(second, w, regs) else Fall
  {
    ResolvedContinues(g2, g3, d);
    hide WellFormed, Continues, Run, Eval, Cond, Frame, CacheOk, Clear;
    var o1 := Out(g0, g1, w, regs);
    assert Meets(g0, g1, 0, first, w, regs, o1);
    OutThen(g0, g1, g2, w, regs);
    OutThen(g0, g2, g3, w, regs);
    if o1.exit == Fall {
      var o2 := Out(g1, g2, w, o1.regs);
      assert Meets(g1, g2, 0, second, w, o1.regs, o2);
      ClearStable(second.e, g0, 0, w, regs, o1.regs);
      FrameThen(g0, g1, 0, 0, 0, regs, o1.regs, o2.regs);
      AtEnd(g2, g3, w, o2.regs);
    }
    CacheFrom(g0, 0, g3.cache, w, regs, Out(g0, g3, w, regs).regs);
  }

  lemma AtEnd(g: Gen, g': Gen, w: World, regs: Registers)
    requires g.code == g'.code
    ensures Out(g, g', w, regs) == Outcome(Fall, regs)
  {
  }

  lemma ResolvedContinues(g: Gen, g': Gen, d: nat)
    requires WellFormed(g) && d !in g.labels && g'.code == g.code && g'.labels == Resolved(g, d).labels
    ensures Continues(g.code, g.labels, g'.code, g'.labels)
  {
  }

  lemma ResolvedSteps(g0: Gen, g: Gen, d: nat, t: nat)
    requires Steps(g0, g, t) && d !in g.labels && g0.nLabel <= d < g.nLabel
    ensures Steps(g0, Resolved(g, d), t)
  {
  }

  // ---- cache contexts ----

  function Entered(g: Gen): Gen {
    g.(level := g.level + 1)
  }

  /** Leaving a context drops the lines added in it and frees what they held
      for release. */
  ghost predicate Left(g: Gen, g': Gen) {
    && g.level > 0 && g' == g.(level := g.level - 1, pool := g'.pool, cache := g'.cache) && |g'.cache| == |g.cache|
    && (forall i :: 0 <= i < |g.cache| ==>
          if g.cache[i].reg != 0 && g.cache[i].level == g.level then g'.cache[i].reg == 0 else g'.cache[i] == g.cache[i])
    && (forall r :: r in g.pool ==> r in g'.pool)
    && (forall r :: r in g'.pool && r !in g.pool ==>
          exists i :: 0 <= i < |g.cache| && g.cache[i].reg == r && r != 0 && g.cache[i].level == g.level && g.cache[i].needsFreeing)
  }

  lemma ScopeSteps(g0: Gen, g: Gen, g': Gen)
    requires WellFormed(g0) && Steps(Entered(g0), g, 0) && Left(g, g') && WellFormed(g')
    ensures Steps(g0, g', 0)
    ensures forall i :: 0 <= i < |g'.cache| && g'.cache[i].reg != 0 ==> SameLine(g0.cache[i], g'.cache[i])
  {
    var e := Entered(g0);
    forall i | 0 <= i < |g.cache| && g.cache[i].reg != 0
      ensures SameLine(g0.cache[i], g.cache[i]) || (g.cache[i].level == g.level && Available(g0, g.cache[i].reg))
    {
      assert Kept(e, g.cache[i], i, 0);
    }
    forall r | r in g'.pool ensures Available(g0, r) {
      if r in g.pool { assert Available(e, r); }
    }
  }

  // ---- membership ----

  /** What a NULL on the left of IN leads to. */
  function NullExit(v: ExprMachine.Value, s: set<ExprMachine.Value>, destF: nat, destN: nat): Exit {
    if v != Null then Fall else if s == {} then Jump(destF) else Jump(destN)
  }

  function MemberExit(v: ExprMachine.Value, s: set<ExprMachine.Value>, destF: nat, destN: nat): Exit {
    if v in s then Fall else if Null in s then Jump(destN) else Jump(destF)
  }

  /** The register is NULL, or says whether NULL is in the set. */
  predicate Remembers(regs: Registers, r: nat, s: set<ExprMachine.Value>) {
    Get(regs, r) == Null || Get(regs, r) == Int(if Null in s then 1 else 0)
  }

  function NullTestCode(r: nat, t: nat, kind: RhsKind, destF: nat, destN: nat, l: nat): seq<Instruction> {
    if destN == destF then [OpIsNull(r, destN)] else [OpNotNull(r, l), OpRewind(t, kind, destF), OpGoto(destN)]
  }

  /** One instruction at a time. */
  lemma RunAt(code: seq<Instruction>, labels: map<nat, nat>, pc: nat, regs: Registers, w: World)
    requires pc < |code|
    ensures Run(code, labels, pc, regs, w)
         == match Perform(code[pc], regs, w) {
              case Next(after) => Run(code, labels, pc + 1, after, w)
              case To(l, after) => if l in labels && pc < labels[l] then Run(code, labels, labels[l], after, w) else Outcome(Jump(l), after)
            }
  {
  }

  lemma NullTestRun(g: Gen, g': Gen, r: nat, t: nat, kind: RhsKind, destF: nat, destN: nat, l: nat, w: World, regs: Registers)
    requires destF !in g'.labels && destN !in g'.labels
    requires g'.code == g.code + NullTestCode(r, t, kind, destF, destN, l)
    requires destN != destF ==> l in g'.labels && g'.labels[l] == |g'.code|
    ensures var o := Out(g, g', w, regs);
            o.regs == regs && (o.exit == NullExit(Get(regs, r), Rhs(w, t, kind), destF, destN))
  {
    hide Run, Rhs;
    var c, p := g'.code, |g.code|;
    RunAt(c, g'.labels, p, regs, w);
    if destN == destF {
      assert c[p] == OpIsNull(r, destN);
      RunEnd(c, g'.labels, p + 1, regs, w);
    } else {
      assert c[p] == OpNotNull(r, l) && c[p + 1] == OpRewind(t, kind, destF) && c[p + 2] == OpGoto(destN);
      RunAt(c, g'.labels, p + 1, regs, w);
      RunAt(c, g'.labels, p + 2, regs, w);
      RunEnd(c, g'.labels, p + 3, regs, w);
    }
  }

  lemma RunEnd(code: seq<Instruction>, labels: map<nat, nat>, pc: nat, regs: Registers, w: World)
    requires pc == |code|
    ensures Run(code, labels, pc, regs, w) == Outcome(Fall, regs)
  {
  }

  /** Whether the set may hold a NULL that matters. */
  predicate NullMatters(kind: RhsKind, destF: nat, destN: nat) {
    kind == AnyValues && destF != destN
  }

  function MemberCode(r: nat, t: nat, kind: RhsKind, destF: nat, destN: nat, rHasNull: nat, j1: nat, j2: nat, j3: nat): seq<Instruction> {
    if kind == Rowids then [OpMustBeInt(r, destF), OpNotExists(t, kind, destF, r)]
    else if !NullMatters(kind, destF, destN) then [OpNotFound(t, kind, destF, r)]
    else [OpFound(t, kind, j1, r), OpNotNull(rHasNull, j2), OpFound(t, kind, j3, rHasNull), OpLoad(Int(-1), rHasNull),
          OpAddImm(rHasNull, 1), OpIf(rHasNull, destN, false), OpGoto(destF)]
  }

  lemma {:induction false} MemberRun(g: Gen, g': Gen, r: nat, t: nat, kind: RhsKind, destF: nat, destN: nat, rHasNull: nat, j1: nat, j2: nat, j3: nat, w: World, regs: Registers)
    requires destF !in g'.labels && destN !in g'.labels && r != rHasNull && Get(regs, r) != Null
    requires g'.code == g.code + MemberCode(r, t, kind, destF, destN, rHasNull, j1, j2, j3)
    requires NullMatters(kind, destF, destN) ==>
               && j1 in g'.labels && g'.labels[j1] == |g.code| + 7 && j2 in g'.labels && g'.labels[j2] == |g.code| + 5
               && j3 in g'.labels && g'.labels[j3] == |g.code| + 4 && Remembers(regs, rHasNull, Rhs(w, t, kind))
    ensures var o := Out(g, g', w, regs);
            && o.exit == MemberExit(Get(regs, r), Rhs(w, t, kind), destF, destN)
            && (forall q :: q != rHasNull ==> Get(o.regs, q) == Get(regs, q))
            && (NullMatters(kind, destF, destN) ==> Remembers(o.regs, rHasNull, Rhs(w, t, kind)))
            && (!NullMatters(kind, destF, destN) ==> o.regs == regs)
  {
    hide Run, Rhs, Remembers;
    RhsFacts(w, t, kind);
    var c, p := g'.code, |g.code|;
    if !NullMatters(kind, destF, destN) {
      PlainRun(g, g', r, t, kind, destF, destN, w, regs);
    } else {
      RunAt(c, g'.labels, p, regs, w);
      assert c[p] == OpFound(t, kind, j1, r);
      if Get(regs, r) in Rhs(w, t, kind) {
        RunEnd(c, g'.labels, p + 7, regs, w);
      } else {
        MemberCodeAt(c, g.code, r, t, kind, destF, destN, rHasNull, j1, j2, j3);
        RememberRun(c, g'.labels, p, t, kind, destF, destN, rHasNull, j2, j3, w, regs);
      }
    }
  }

  lemma MemberCodeAt(c: seq<Instruction>, before: seq<Instruction>, r: nat, t: nat, kind: RhsKind, destF: nat, destN: nat, rHasNull: nat, j1: nat, j2: nat, j3: nat)
    requires NullMatters(kind, destF, destN) && c == before + MemberCode(r, t, kind, destF, destN, rHasNull, j1, j2, j3)
    ensures RememberCode(c, |before|, t, kind, destF, destN, rHasNull, j2, j3)
  {
  }

  /** Where a NULL in the set makes no difference. */
  lemma PlainRun(g: Gen, g': Gen, r: nat, t: nat, kind: RhsKind, destF: nat, destN: nat, w: World, regs: Registers)
    requires destF !in g'.labels && Get(regs, r) != Null && !NullMatters(kind, destF, destN)
    requires g'.code == g.code + MemberCode(r, t, kind, destF, destN, 0, 0, 0, 0)
    ensures Out(g, g', w, regs) == Outcome(MemberExit(Get(regs, r), Rhs(w, t, kind), destF, destN), regs)
  {
    hide Run, Rhs;
    RhsFacts(w, t, kind);
    var c, p := g'.code, |g.code|;
    RunAt(c, g'.labels, p, regs, w);
    if kind == Rowids {
      assert c[p] == OpMustBeInt(r, destF) && c[p + 1] == OpNotExists(t, kind, destF, r);
      RunAt(c, g'.labels, p + 1, regs, w);
      RunEnd(c, g'.labels, p + 2, regs, w);
    } else {
      assert c[p] == OpNotFound(t, kind, destF, r);
      RunEnd(c, g'.labels, p + 1, regs, w);
    }
  }

  lemma RhsFacts(w: World, t: nat, kind: RhsKind)
    ensures kind == Rowids ==> forall v :: v in Rhs(w, t, kind) ==> IsInt(v)
    ensures kind != AnyValues ==> Null !in Rhs(w, t, kind)
  {
  }

  ghost predicate RememberCode(c: seq<Instruction>, p: nat, t: nat, kind: RhsKind, destF: nat, destN: nat, rHasNull: nat, j2: nat, j3: nat) {
    && |c| == p + 7
    && c[p + 1] == OpNotNull(rHasNull, j2) && c[p + 2] == OpFound(t, kind, j3, rHasNull) && c[p + 3] == OpLoad(Int(-1), rHasNull)
    && c[p + 4] == OpAddImm(rHasNull, 1) && c[p + 5] == OpIf(rHasNull, destN, false) && c[p + 6] == OpGoto(destF)
  }

  /** The answer to "is there a NULL?" is computed once and then kept. */
  lemma RememberRun(c: seq<Instruction>, labels: map<nat, nat>, p: nat, t: nat, kind: RhsKind, destF: nat, destN: nat, rHasNull: nat, j2: nat, j3: nat, w: World, regs: Registers)
    requires destF !in labels && destN !in labels && RememberCode(c, p, t, kind, destF, destN, rHasNull, j2, j3)
    requires j2 in labels && labels[j2] == p + 5 && j3 in labels && labels[j3] == p + 4
    requires Remembers(regs, rHasNull, Rhs(w, t, kind))
    ensures var o := Run(c, labels, p + 1, regs, w);
            && o.exit == (if Null in Rhs(w, t, kind) then Jump(destN) else Jump(destF))
            && (forall q :: q != rHasNull ==> Get(o.regs, q) == Get(regs, q))
            && Remembers(o.regs, rHasNull, Rhs(w, t, kind))
  {
    hide Run, Rhs;
    RunAt(c, labels, p + 1, regs, w);
    if Get(regs, rHasNull) != Null {
      DecideRun(c, labels, p, destF, destN, rHasNull, w, regs);
    } else {
      var answer := Int(if Null in Rhs(w, t, kind) then 1 else 0);
      FreshRun(c, labels, p, t, kind, destF, destN, rHasNull, j2, j3, w, regs);
      DecideRun(c, labels, p, destF, destN, rHasNull, w, regs[rHasNull := answer]);
    }
  }

  lemma FreshRun(c: seq<Instruction>, labels: map<nat, nat>, p: nat, t: nat, kind: RhsKind, destF: nat, destN: nat, rHasNull: nat, j2: nat, j3: nat, w: World, regs: Registers)
    requires RememberCode(c, p, t, kind, destF, destN, rHasNull, j2, j3)
    requires j3 in labels && labels[j3] == p + 4 && Get(regs, rHasNull) == Null
    ensures Run(c, labels, p + 2, regs, w)
         == Run(c, labels, p + 5, regs[rHasNull := Int(if Null in Rhs(w, t, kind) then 1 else 0)], w)
  {
    hide Run, Rhs;
    RunAt(c, labels, p + 2, regs, w);
    if Null in Rhs(w, t, kind) {
      RunAt(c, labels, p + 4, regs, w);
    } else {
      var low := regs[rHasNull := Int(-1)];
      RunAt(c, labels, p + 3, regs, w);
      RunAt(c, labels, p + 4, low, w);
      assert low[rHasNull := Int(0)] == regs[rHasNull := Int(0)];
    }
  }

  lemma DecideRun(c: seq<Instruction>, labels: map<nat, nat>, p: nat, destF: nat, destN: nat, r: nat, w: World, regs: Registers)
    requires destF !in labels && destN !in labels && |c| == p + 7 && c[p + 5] == OpIf(r, destN, false) && c[p + 6] == OpGoto(destF)
    requires Get(regs, r).Num?
    ensures Run(c, labels, p + 5, regs, w) == Outcome(Jump(if Get(regs, r).r != 0.0 then destN else destF), regs)
  {
    hide Run;
    RunAt(c, labels, p + 5, regs, w);
    RunAt(c, labels, p + 6, regs, w);
  }

  // ---- contracts of the compiler's parts ----

  /** The value of `e` is in register `r`. */
  ghost predicate CodedValue(g0: Gen, g1: Gen, e: Expr, target: nat, r: nat) {
    Steps(g0, g1, target) && Does(g0, g1, target, Value(e, r)) && InUse(g1, r) && Origin(g0, e, target, r)
    && (target != 0 && r != target ==> !Cached(g1, target))
  }

  /** Where a value may end up. */
  predicate Origin(g0: Gen, e: Expr, target: nat, r: nat) {
    r == target || Available(g0, r) || Cached(g0, r) || e == Register(r)
  }

  lemma NotOwned(g0: Gen, e: Expr, r: nat, q: nat)
    requires Owned(g0, q) && Clear(e, g0, q) && Origin(g0, e, 0, r)
    ensures r != q
  {
  }

  /** As above; `free` is the register to release, if it is a temporary. */
  ghost predicate CodedTemp(g0: Gen, g1: Gen, e: Expr, r: nat, free: nat) {
    CodedValue(g0, g1, e, 0, r) && (free == 0 || (free == r && Available(g0, r)))
  }

  ghost predicate Coded(g0: Gen, g1: Gen, goal: Goal) {
    Steps(g0, g1, 0) && Does(g0, g1, 0, goal)
  }

  predicate OpenLabel(g: Gen, l: nat) {
    l < g.nLabel && l !in g.labels
  }

  function Jumping(taken: bool, dest: nat): Exit {
    if taken then Jump(dest) else Fall
  }

  function TrueGoal(e: Expr, dest: nat, jumpIfNull: bool): Goal {
    Decide(e, Jump(dest), Fall, Jumping(jumpIfNull, dest))
  }

  function FalseGoal(e: Expr, dest: nat, jumpIfNull: bool): Goal {
    Decide(e, Fall, Jump(dest), Jumping(jumpIfNull, dest))
  }

  lemma OpenLater(g0: Gen, g1: Gen, t: nat, l: nat)
    requires Steps(g0, g1, t) && OpenLabel(g0, l)
    ensures OpenLabel(g1, l)
  {
    hide WellFormed, Continues;
  }

  lemma InUseLater(g0: Gen, g1: Gen, t: nat, r: nat)
    requires Steps(g0, g1, t) && InUse(g0, r)
    ensures InUse(g1, r)
  {
    hide WellFormed, Continues;
  }

  lemma OwnedLater(g0: Gen, g1: Gen, r: nat)
    requires Steps(g0, g1, 0) && Owned(g0, r)
    ensures Owned(g1, r)
  {
    hide Continues;
    forall i | 0 <= i < |g1.cache| ensures g1.cache[i].reg != r {
      if g1.cache[i].reg != 0 { assert Kept(g0, g1.cache[i], i, 0); }
    }
  }

  lemma AvailableBefore(g0: Gen, g1: Gen, t: nat, r: nat)
    requires Steps(g0, g1, t) && Available(g1, r)
    ensures Available(g0, r)
  {
    hide WellFormed, Continues;
  }

  lemma ClearSame(e: Expr, g: Gen, g': Gen, t: nat)
    requires Clear(e, g, t) && g'.pool == g.pool && g'.nMem == g.nMem
    ensures Clear(e, g', t)
  {
    forall r | r in RegistersIn(e) ensures InUse(g', r) && r != t {
      assert InUse(g, r);
    }
  }

  lemma FreshLabel(g: Gen)
    requires WellFormed(g)
    ensures OpenLabel(g.(nLabel := g.nLabel + 1), g.nLabel) && WellFormed(g.(nLabel := g.nLabel + 1))
  {
  }

  lemma WiderTarget(g0: Gen, g1: Gen, target: nat, goal: Goal)
    requires Coded(g0, g1, goal)
    ensures Steps(g0, g1, target) && Does(g0, g1, target, goal)
  {
    forall w, regs | CacheOk(g0.cache, w, regs)
      ensures Meets(g0, g1, target, goal, w, regs, Out(g0, g1, w, regs))
    {
      assert Meets(g0, g1, 0, goal, w, regs, Out(g0, g1, w, regs));
    }
  }

  /** Goals that always decide alike. */
  lemma SameDecision(g0: Gen, g1: Gen, a: Goal, b: Goal)
    requires Does(g0, g1, 0, a) && a.Decide? && b.Decide? && forall w, regs :: Decision(a, w, regs) == Decision(b, w, regs)
    ensures Does(g0, g1, 0, b)
  {
    forall w, regs | CacheOk(g0.cache, w, regs)
      ensures Meets(g0, g1, 0, b, w, regs, Out(g0, g1, w, regs))
    {
      hide Out, Decision, Frame, CacheOk;
      assert Meets(g0, g1, 0, a, w, regs, Out(g0, g1, w, regs));
      assert Decision(a, w, regs) == Decision(b, w, regs);
    }
  }
}

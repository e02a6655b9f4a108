/** The expression compiler: code, registers and the column cache are changed in
    place while boolean expressions are turned into jumps. */
module ExprCode {
  import opened ExprMachine
  import opened ExprSpec
  import opened ExprCases
  import opened ExprSteps

  const COLUMN_CACHE_SIZE := 10

  class Parse {
    var code: seq<Instruction>
    var labels: map<nat, nat>
    var nLabel: nat
    var nMem: nat
    var aTempReg: seq<nat>
    var columnsCache: seq<Line>
    var iCacheLevel: nat
    var iCacheCnt: int

    function View(): Gen
      reads this
    {
      Gen(code, labels, nLabel, nMem, aTempReg, columnsCache, iCacheLevel)
    }

    constructor ()
      ensures WellFormed(View()) && code == [] && |columnsCache| == COLUMN_CACHE_SIZE
      ensures forall i :: 0 <= i < |columnsCache| ==> columnsCache[i].reg == 0
    {
      code, labels, nLabel, nMem, aTempReg, iCacheLevel, iCacheCnt := [], map[], 0, 0, [], 0, 0;
      columnsCache := seq(COLUMN_CACHE_SIZE, i => Line(0, 0, 0, 0, false, 0));
    }

    method AddOp(i: Instruction)
      requires WellFormed(View())
      modifies `code
      ensures View() == Emitted(old(View()), i) && Steps(old(View()), View(), 0)
    {
      EmittedSteps(View(), i);
      code := code + [i];
    }

    method MakeLabel() returns (l: nat)
      requires WellFormed(View())
      modifies `nLabel
      ensures l == old(View()).nLabel && View() == old(View()).(nLabel := l + 1) && Steps(old(View()), View(), 0)
    {
      l := nLabel;
      nLabel := nLabel + 1;
    }

    method ResolveLabel(l: nat)
      requires WellFormed(View()) && OpenLabel(View(), l)
      modifies `labels
      ensures View() == Resolved(old(View()), l) && WellFormed(View())
    {
      labels := labels[l := |code|];
    }

    // ---- registers ----

    /** Hands out a register that is neither in use nor vouched for by the
        cache. */
    method GetTempReg() returns (r: nat)
      requires WellFormed(View())
      modifies `nMem, `aTempReg
      ensures Taken(old(View()), View(), r)
    {
      if |aTempReg| == 0 {
        GrownSteps(View());
        nMem := nMem + 1;
        r := nMem;
      } else {
        var n := |aTempReg| - 1;
        r := aTempReg[n];
        TakenSteps(View());
        aTempReg := aTempReg[..n];
      }
    }

    /** Gives a register back, or leaves it to the cache to do so. */
    method ReleaseTempReg(r: nat)
      requires WellFormed(View()) && (r == 0 || InUse(View(), r))
      modifies `aTempReg, `columnsCache
      ensures Freed(old(View()), View(), r)
    {
      hide WellFormed, InUse;
      if r != 0 {
        var i := 0;
        while i < |columnsCache|
          invariant 0 <= i <= |columnsCache| && columnsCache == old(columnsCache)
          invariant forall j :: 0 <= j < i ==> columnsCache[j].reg != r
        {
          if columnsCache[i].reg == r {
            FreedLine(View(), i, r);
            columnsCache := columnsCache[i := columnsCache[i].(needsFreeing := true)];
            return;
          }
          i := i + 1;
        }
        FreedPool(View(), r);
        aTempReg := aTempReg + [r];
      }
    }

    // ---- the column cache ----

    /** Remembers that a register holds a column, in an empty line or else in
        the one least recently used. */
    method CacheStore(table: nat, column: int, r: nat)
      requires WellFormed(View()) && Owned(View(), r)
      modifies `columnsCache, `iCacheCnt
      ensures WellFormed(View()) && View() == old(View()).(cache := columnsCache) && |columnsCache| == |old(columnsCache)|
      ensures columnsCache == old(columnsCache)
              || exists k :: Stored(old(columnsCache), columnsCache, k, Line(table, column, r, iCacheLevel, false, old(iCacheCnt)))
                             && (old(columnsCache[k].reg) == 0 || forall j :: 0 <= j < |columnsCache| ==> old(columnsCache[k].lru <= columnsCache[j].lru))
    {
      var line := Line(table, column, r, iCacheLevel, false, iCacheCnt);
      var i := 0;
      while i < |columnsCache|
        invariant 0 <= i <= |columnsCache| && columnsCache == old(columnsCache) && iCacheCnt == old(iCacheCnt)
        invariant forall j :: 0 <= j < i ==> columnsCache[j].reg != 0
      {
        if columnsCache[i].reg == 0 {
          StoredWell(View(), i, line);
          columnsCache := columnsCache[i := line];
          assert Stored(old(columnsCache), columnsCache, i, line);
          iCacheCnt := iCacheCnt + 1;
          return;
        }
        i := i + 1;
      }
      var minLru, idxLru := 0x7fffffff, -1;
      i := 0;
      while i < |columnsCache|
        invariant 0 <= i <= |columnsCache| && columnsCache == old(columnsCache) && iCacheCnt == old(iCacheCnt)
        invariant -1 <= idxLru < i && (idxLru >= 0 ==> minLru == columnsCache[idxLru].lru)
        invariant forall j :: 0 <= j < i ==> minLru <= columnsCache[j].lru
      {
        if columnsCache[i].lru < minLru {
          idxLru, minLru := i, columnsCache[i].lru;
        }
        i := i + 1;
      }
      if idxLru >= 0 {
        StoredWell(View(), idxLru, line);
        columnsCache := columnsCache[idxLru := line];
        assert Stored(old(columnsCache), columnsCache, idxLru, line);
        iCacheCnt := iCacheCnt + 1;
      }
    }

    method CachePush()
      requires WellFormed(View())
      modifies `iCacheLevel
      ensures View() == Entered(old(View())) && WellFormed(View())
    {
      iCacheLevel := iCacheLevel + 1;
    }

    /** Drops the lines added since the matching push. */
    method CachePop()
      requires WellFormed(View()) && View().level > 0
      modifies `iCacheLevel, `columnsCache, `aTempReg
      ensures WellFormed(View()) && Left(old(View()), View())
    {
      iCacheLevel := iCacheLevel - 1;
      var i := 0;
      ghost var g := old(View());
      while i < |columnsCache|
        invariant 0 <= i <= |columnsCache| && |columnsCache| == |g.cache|
        invariant PoppedTo(g, View(), i)
      {
        PopLine(g, View(), i);
        if columnsCache[i].reg != 0 && columnsCache[i].level > iCacheLevel {
          if columnsCache[i].needsFreeing {
            aTempReg := aTempReg + [columnsCache[i].reg];
          }
          columnsCache := columnsCache[i := columnsCache[i].(reg := 0, needsFreeing := false)];
        }
        i := i + 1;
      }
      PoppedAll(g, View());
    }

    /** A reused register must not be freed with its line. */
    method PinRegister(r: nat)
      modifies `columnsCache
      ensures |columnsCache| == |old(columnsCache)|
      ensures forall i :: 0 <= i < |columnsCache| ==>
                columnsCache[i] == if old(columnsCache[i]).reg == r then old(columnsCache[i]).(needsFreeing := false) else old(columnsCache[i])
    {
      var i := 0;
      while i < |columnsCache|
        invariant 0 <= i <= |columnsCache| == |old(columnsCache)|
        invariant forall j :: 0 <= j < i ==>
                    columnsCache[j] == if old(columnsCache[j]).reg == r then old(columnsCache[j]).(needsFreeing := false) else old(columnsCache[j])
        invariant forall j :: i <= j < |columnsCache| ==> columnsCache[j] == old(columnsCache[j])
      {
        if columnsCache[i].reg == r {
          columnsCache := columnsCache[i := columnsCache[i].(needsFreeing := false)];
        }
        i := i + 1;
      }
    }

    /** Releases what two operands left behind. */
    method ReleasePair(free1: nat, free2: nat, ghost g0: Gen, ghost t: nat, ghost goal: Goal)
      requires Steps(g0, View(), t) && Does(g0, View(), t, goal)
      requires (free1 == 0 || (InUse(View(), free1) && Available(g0, free1))) && (free2 == 0 || (InUse(View(), free2) && Available(g0, free2)))
      requires free1 != free2 || free1 == 0
      modifies `aTempReg, `columnsCache
      ensures Steps(g0, View(), t) && Does(g0, View(), t, goal)
      ensures View().code == old(View()).code && View().labels == old(View()).labels
      ensures forall q :: InUse(old(View()), q) && q != free1 && q != free2 ==> InUse(View(), q)
    {
      hide Does, Continues;
      ghost var g1 := View();
      ReleaseTempReg(free1);
      ghost var g2 := View();
      FreedAfter(g0, g1, g2, t, free1, goal);
      FreedInUse(g1, g2, free1);
      ReleaseTempReg(free2);
      FreedAfter(g0, g2, View(), t, free2, goal);
      FreedInUse(g2, View(), free2);
    }

    // ---- values ----

    /** A column comes from the cache or is read into `target`. */
    method GetColumn(table: nat, column: int, target: nat) returns (r: nat)
      requires WellFormed(View()) && Owned(View(), target)
      modifies this
      ensures CodedValue(old(View()), View(), Column(table, column), target, r)
    {
      hide WellFormed, Does, Steps, CodedValue, Owned, Cached;
      ghost var g0 := View();
      var i := 0;
      while i < |columnsCache|
        invariant 0 <= i <= |columnsCache| && View() == g0
      {
        if columnsCache[i].reg > 0 && columnsCache[i].table == table && columnsCache[i].column == column {
          columnsCache := columnsCache[i := columnsCache[i].(lru := iCacheCnt)];
          iCacheCnt := iCacheCnt + 1;
          r := columnsCache[i].reg;
          PinRegister(r);
          HitCoded(g0, View(), i, target);
          return;
        }
        i := i + 1;
      }
      AddOp(OpColumn(table, column, target));
      EmittedOwned(g0, OpColumn(table, column, target), target);
      ghost var lru := iCacheCnt;
      CacheStore(table, column, target);
      r := target;
      MissCoded(g0, View(), table, column, target, lru);
    }

    /** Generates code for the value of an expression. An effort is made to leave
        it in `target`; the register that holds it is returned. */
    method CodeTarget(e: Expr, target: nat) returns (r: nat)
      requires WellFormed(View()) && Owned(View(), target) && Clear(e, View(), target)
      modifies this
      ensures CodedValue(old(View()), View(), e, target, r)
      decreases Weight(e), 2
    {
      hide View, WellFormed, Steps, Does, CodedValue, Owned, Clear, Coded;
      ghost var g0 := View();
      if e.Column? {
        r := GetColumn(e.cursor, e.column, target);
      } else if e.Register? {
        r := e.r;
        RegisterCoded(g0, r, target);
      } else if e.Literal? {
        AddOp(OpLoad(e.v, target));
        r := target;
        LiteralCoded(g0, e.v, target);
      } else if IsBinary(e) {
        CodeBinary(e, target);
        r := target;
      } else if e.Not? {
        CodeNot(e, target);
        r := target;
      } else if IsTest(e) {
        CodeTest(e, target);
        r := target;
      } else if e.Between? {
        CodeBetweenValue(e, target);
        r := target;
      } else {
        CodeInValue(e, target);
        r := target;
      }
    }

    /** As above, into a temporary; `free` is the register to release, or 0. */
    method CodeTemp(e: Expr) returns (r: nat, free: nat)
      requires WellFormed(View()) && Clear(e, View(), 0)
      modifies this
      ensures CodedTemp(old(View()), View(), e, r, free)
      decreases Weight(e), 3
    {
      hide View, WellFormed, Steps, Does, CodedValue, Owned, Clear, Coded, InUse, Freed, Taken;
      ghost var g0 := View();
      var r1 := GetTempReg();
      ghost var gT := View();
      TakenClear(e, g0, gT, r1);
      r := CodeTarget(e, r1);
      ghost var g1 := View();
      TakenCoded(e, g0, gT, g1, r1, r);
      if r == r1 {
        free := r1;
      } else {
        ReleaseTempReg(r1);
        FreedCoded(e, g0, g1, View(), r1, r);
        free := 0;
      }
    }

    /** The value of an expression, in `target` itself. */
    method Code(e: Expr, target: nat)
      requires WellFormed(View()) && Owned(View(), target) && Clear(e, View(), target)
      modifies this
      ensures CodedValue(old(View()), View(), e, target, target)
      decreases Weight(e), 3
    {
      hide View, WellFormed, Steps, Does, CodedValue, Owned, Clear, Coded;
      ghost var g0 := View();
      var r := CodeTarget(e, target);
      ghost var g1 := View();
      CodedWell(g0, g1, e, target, r);
      if r != target {
        AddOp(OpCopy(r, target));
        CopyCoded(g0, g1, e, target, r);
      }
    }

    /** Operators with two operands. */
    method CodeBinary(e: Expr, target: nat)
      requires WellFormed(View()) && Owned(View(), target) && Clear(e, View(), target) && IsBinary(e)
      modifies this
      ensures CodedValue(old(View()), View(), e, target, target)
      decreases Weight(e), 1
    {
      hide View, WellFormed, Steps, Does, CodedValue, Owned, Clear, Coded, InUse, Available, Freed;
      ghost var g0 := View();
      ClearParts(e, g0, target);
      var r1, free1 := CodeTemp(e.left);
      ghost var g1 := View();
      TempThen(e.left, e.right, g0, g1, r1, free1);
      var r2, free2 := CodeTemp(e.right);
      ghost var g2 := View();
      TwoTemps(e.left, e.right, g0, g1, g2, r1, free1, r2, free2);
      AddOp(StoreOp(e, r1, r2, target));
      BinaryCoded(e, g0, g2, target, r1, r2, free1, free2);
      ReleasePair(free1, free2, g0, target, ExprSpec.Value(e, target));
      TargetCoded(g0, View(), e, target);
    }

    method CodeNot(e: Expr, target: nat)
      requires WellFormed(View()) && Owned(View(), target) && Clear(e, View(), target) && e.Not?
      modifies this
      ensures CodedValue(old(View()), View(), e, target, target)
      decreases Weight(e), 1
    {
      hide View, WellFormed, Steps, Does, CodedValue, Owned, Clear, Coded, InUse, Available, Freed;
      ghost var g0 := View();
      ClearParts(e, g0, target);
      var r, free := CodeTemp(e.arg);
      ghost var g1 := View();
      OneTemp(e.arg, g0, g1, r, free);
      AddOp(OpNot(r, target));
      NotCoded(e, g0, g1, target, r, free);
      ReleasePair(free, 0, g0, target, ExprSpec.Value(e, target));
      TargetCoded(g0, View(), e, target);
    }

    /** ISNULL and NOTNULL: 1, unless the test fails to jump over a decrement. */
    method CodeTest(e: Expr, target: nat)
      requires WellFormed(View()) && Owned(View(), target) && Clear(e, View(), target) && IsTest(e)
      modifies this
      ensures CodedValue(old(View()), View(), e, target, target)
      decreases Weight(e), 1
    {
      hide View, WellFormed, Steps, Does, CodedValue, Owned, Clear, Coded, InUse, Available, Freed, Emitted, Resolved, OpenLabel;
      ghost var g0 := View();
      ClearParts(e, g0, target);
      AddOp(OpLoad(Int(1), target));
      ghost var gA := View();
      LoadThen(e.arg, g0, Int(1), target);
      var r, free := CodeTemp(e.arg);
      ghost var gB := View();
      OneTemp(e.arg, gA, gB, r, free);
      var l := MakeLabel();
      ghost var gL := View();
      AddOp(TestOp(e, r, l, true));
      AddOp(OpAddImm(target, -1));
      ghost var gE := View();
      TestOpen(e, gB, gL, gE, r, l, target);
      ResolveLabel(l);
      TestCoded(e, g0, gA, gB, gL, gE, View(), target, r, free, l);
      ReleasePair(free, 0, g0, target, ExprSpec.Value(e, target));
      TargetCoded(g0, View(), e, target);
    }

    // ---- jumps ----

    /** Comparisons as conditions. */
    method CodeCompare(e: Expr, dest: nat, sense: bool, jumpIfNull: bool)
      requires WellFormed(View()) && Clear(e, View(), 0) && IsComparison(e)
      modifies this
      ensures Coded(old(View()), View(), JumpGoal(e, dest, sense, jumpIfNull))
      decreases Weight(e), 3
    {
      hide View, WellFormed, Steps, Does, CodedValue, Owned, Clear, Coded, InUse, Available, Freed, JumpGoal;
      ghost var g0 := View();
      ClearParts(e, g0, 0);
      var r1, free1 := CodeTemp(e.left);
      ghost var g1 := View();
      TempThen(e.left, e.right, g0, g1, r1, free1);
      var r2, free2 := CodeTemp(e.right);
      ghost var g2 := View();
      TwoTemps(e.left, e.right, g0, g1, g2, r1, free1, r2, free2);
      AddOp(JumpOp(e, r1, r2, dest, sense, jumpIfNull));
      CompareCoded(e, g0, g2, r1, r2, free1, free2, dest, sense, jumpIfNull);
      ReleasePair(free1, free2, g0, 0, JumpGoal(e, dest, sense, jumpIfNull));
      GoalCoded(g0, View(), JumpGoal(e, dest, sense, jumpIfNull));
    }

    /** ISNULL and NOTNULL as conditions. */
    method CodeNullTest(e: Expr, dest: nat, sense: bool, jumpIfNull: bool)
      requires WellFormed(View()) && Clear(e, View(), 0) && IsTest(e)
      modifies this
      ensures Coded(old(View()), View(), JumpGoal(e, dest, sense, jumpIfNull))
      decreases Weight(e), 3
    {
      hide View, WellFormed, Steps, Does, CodedValue, Owned, Clear, Coded, InUse, Available, Freed, JumpGoal;
      ghost var g0 := View();
      ClearParts(e, g0, 0);
      var r, free := CodeTemp(e.arg);
      ghost var g1 := View();
      OneTemp(e.arg, g0, g1, r, free);
      AddOp(TestOp(e, r, dest, sense));
      NullTestCoded(e, g0, g1, r, free, dest, sense, jumpIfNull);
      ReleasePair(free, 0, g0, 0, JumpGoal(e, dest, sense, jumpIfNull));
      GoalCoded(g0, View(), JumpGoal(e, dest, sense, jumpIfNull));
    }

    /** Any other expression as a condition. */
    method CodeTruth(e: Expr, dest: nat, sense: bool, jumpIfNull: bool)
      requires IsLeaf(e) && WellFormed(View()) && Clear(e, View(), 0)
      modifies this
      ensures Coded(old(View()), View(), JumpGoal(e, dest, sense, jumpIfNull))
      decreases Weight(e), 4
    {
      hide View, WellFormed, Steps, Does, CodedValue, Owned, Clear, Coded, InUse, Available, Freed, JumpGoal;
      ghost var g0 := View();
      var r, free := CodeTemp(e);
      ghost var g1 := View();
      OneTemp(e, g0, g1, r, free);
      AddOp(TruthOp(r, dest, sense, jumpIfNull));
      TruthCoded(e, g0, g1, r, free, dest, sense, jumpIfNull);
      ReleasePair(free, 0, g0, 0, JumpGoal(e, dest, sense, jumpIfNull));
      GoalCoded(g0, View(), JumpGoal(e, dest, sense, jumpIfNull));
    }

    /** x BETWEEN y AND z, with x computed once. */
    method CodeBetween(e: Expr, dest: nat, sense: bool, jumpIfNull: bool)
      requires WellFormed(View()) && Clear(e, View(), 0) && e.Between? && OpenLabel(View(), dest)
      modifies this
      ensures Coded(old(View()), View(), JumpGoal(e, dest, sense, jumpIfNull))
      decreases Weight(e), 3
    {
      hide View, WellFormed, Steps, Does, CodedValue, Owned, Clear, Coded, InUse, Available, Freed, OpenLabel;
      ghost var g0 := View();
      ClearParts(e, g0, 0);
      var r, free := CodeTemp(e.x);
      ghost var g1 := View();
      BetweenThen(e, g0, g1, r, free, dest);
      var both := Conjunction(r, e.low, e.high);
      if sense {
        IfTrue(both, dest, jumpIfNull);
      } else {
        IfFalse(both, dest, jumpIfNull);
      }
      ghost var g2 := View();
      BetweenCoded(e, g0, g1, g2, r, free, dest, sense, jumpIfNull);
      ReleasePair(free, 0, g0, 0, JumpGoal(e, dest, sense, jumpIfNull));
      GoalCoded(g0, View(), JumpGoal(e, dest, sense, jumpIfNull));
    }

    /** Jumps to `dest` if the expression is true, or if it is NULL and
        `jumpIfNull` is set; otherwise execution falls through. */
    method IfTrue(e: Expr, dest: nat, jumpIfNull: bool)
      requires WellFormed(View()) && Clear(e, View(), 0) && OpenLabel(View(), dest)
      modifies this
      ensures Coded(old(View()), View(), TrueGoal(e, dest, jumpIfNull))
      decreases Weight(e), 5
    {
      hide View, WellFormed, Steps, Does, CodedValue, Owned, Clear, Coded, OpenLabel;
      ghost var g0 := View();
      ClearParts(e, g0, 0);
      if e.And? {
        var d2 := MakeLabel();
        CachePush();
        ghost var gE := View();
        EnteredThen(e, g0, gE, dest);
        IfFalse(e.left, d2, !jumpIfNull);
        ghost var g1 := View();
        SkipThen(e.right, gE, g1, FalseGoal(e.left, d2, !jumpIfNull), dest, d2);
        IfTrue(e.right, dest, jumpIfNull);
        ghost var g2 := View();
        SkipResolve(g0, gE, g1, g2, FalseGoal(e.left, d2, !jumpIfNull), TrueGoal(e.right, dest, jumpIfNull), d2);
        ResolveLabel(d2);
        CachePop();
        SkipCoded(e, g0, gE, g1, g2, View(), d2, dest, true, jumpIfNull);
      } else if e.Or? {
        IfTrue(e.left, dest, jumpIfNull);
        ghost var g1 := View();
        TurnThen(e, g0, g1, TrueGoal(e.left, dest, jumpIfNull), dest);
        IfTrue(e.right, dest, jumpIfNull);
        TurnCoded(e, g0, g1, View(), dest, true, jumpIfNull);
      } else if e.Not? {
        IfFalse(e.arg, dest, jumpIfNull);
        NotJumpCoded(e, g0, View(), dest, true, jumpIfNull);
      } else if IsComparison(e) {
        CodeCompare(e, dest, true, jumpIfNull);
      } else if IsTest(e) {
        CodeNullTest(e, dest, true, jumpIfNull);
      } else if e.Between? {
        CodeBetween(e, dest, true, jumpIfNull);
      } else if e.In? {
        var destIfFalse := MakeLabel();
        ghost var gL := View();
        var destIfNull := if jumpIfNull then dest else destIfFalse;
        InThen(e, g0, gL, dest);
        CodeIn(e, destIfFalse, destIfNull);
        ghost var gB := View();
        CodedIn(gL, gB, Decide(e, Fall, Jump(destIfFalse), Jump(destIfNull)), destIfFalse, dest);
        AddOp(OpGoto(dest));
        ResolveLabel(destIfFalse);
        InTrueCoded(e, g0, gL, gB, View(), dest, destIfFalse, jumpIfNull);
      } else {
        CodeTruth(e, dest, true, jumpIfNull);
      }
    }

    /** Jumps to `dest` if the expression is false, or if it is NULL and
        `jumpIfNull` is set; otherwise execution falls through. */
    method IfFalse(e: Expr, dest: nat, jumpIfNull: bool)
      requires WellFormed(View()) && Clear(e, View(), 0) && OpenLabel(View(), dest)
      modifies this
      ensures Coded(old(View()), View(), FalseGoal(e, dest, jumpIfNull))
      decreases Weight(e), 5
    {
      hide View, WellFormed, Steps, Does, CodedValue, Owned, Clear, Coded, OpenLabel;
      ghost var g0 := View();
      ClearParts(e, g0, 0);
      if e.And? {
        IfFalse(e.left, dest, jumpIfNull);
        ghost var g1 := View();
        TurnThen(e, g0, g1, FalseGoal(e.left, dest, jumpIfNull), dest);
        IfFalse(e.right, dest, jumpIfNull);
        TurnCoded(e, g0, g1, View(), dest, false, jumpIfNull);
      } else if e.Or? {
        var d2 := MakeLabel();
        CachePush();
        ghost var gE := View();
        EnteredThen(e, g0, gE, dest);
        IfTrue(e.left, d2, !jumpIfNull);
        ghost var g1 := View();
        SkipThen(e.right, gE, g1, TrueGoal(e.left, d2, !jumpIfNull), dest, d2);
        IfFalse(e.right, dest, jumpIfNull);
        ghost var g2 := View();
        SkipResolve(g0, gE, g1, g2, TrueGoal(e.left, d2, !jumpIfNull), FalseGoal(e.right, dest, jumpIfNull), d2);
        ResolveLabel(d2);
        CachePop();
        SkipCoded(e, g0, gE, g1, g2, View(), d2, dest, false, jumpIfNull);
      } else if e.Not? {
        IfTrue(e.arg, dest, jumpIfNull);
        NotJumpCoded(e, g0, View(), dest, false, jumpIfNull);
      } else if IsComparison(e) {
        CodeCompare(e, dest, false, jumpIfNull);
      } else if IsTest(e) {
        CodeNullTest(e, dest, false, jumpIfNull);
      } else if e.Between? {
        CodeBetween(e, dest, false, jumpIfNull);
      } else if e.In? {
        if jumpIfNull {
          CodeIn(e, dest, dest);
          InBothCoded(e, g0, View(), dest);
        } else {
          var destIfNull := MakeLabel();
          ghost var gL := View();
          InThen(e, g0, gL, dest);
          CodeIn(e, dest, destIfNull);
          ghost var gB := View();
          CodedIn(gL, gB, Decide(e, Fall, Jump(dest), Jump(destIfNull)), destIfNull, dest);
          ResolveLabel(destIfNull);
          InFalseCoded(e, g0, gL, gB, View(), dest, destIfNull);
        }
      } else {
        CodeTruth(e, dest, false, jumpIfNull);
      }
    }

    // ---- IN ----

    /** Deals with a NULL on the left: the result is false if the right-hand
        side is empty and NULL otherwise. */
    method CodeLeftNull(e: Expr, r: nat, destIfFalse: nat, destIfNull: nat)
      requires WellFormed(View()) && e.In? && OpenLabel(View(), destIfFalse) && OpenLabel(View(), destIfNull)
      modifies `code, `labels, `nLabel
      ensures Steps(old(View()), View(), 0) && TestsNull(old(View()), View(), r, e.rhs, e.kind, destIfFalse, destIfNull)
    {
      hide WellFormed, Steps, TestsNull;
      ghost var g := View();
      ghost var l := nLabel;
      if destIfNull == destIfFalse {
        AddOp(OpIsNull(r, destIfNull));
      } else {
        FreshLabel(g);
        var addr1 := MakeLabel();
        EmitBlock([OpNotNull(r, addr1), OpRewind(e.rhs, e.kind, destIfFalse), OpGoto(destIfNull)]);
        ResolveLabel(addr1);
      }
      LeftNullCoded(g, View(), e, r, destIfFalse, destIfNull, l);
    }

    /** Tests membership of a value that is not NULL. */
    method CodeMember(e: Expr, r: nat, destIfFalse: nat, destIfNull: nat, rHasNull: nat)
      requires WellFormed(View()) && e.In? && OpenLabel(View(), destIfFalse) && OpenLabel(View(), destIfNull) && r != rHasNull
      modifies `code, `labels, `nLabel
      ensures Steps(old(View()), View(), 0) && TestsMember(old(View()), View(), r, e.rhs, e.kind, destIfFalse, destIfNull, rHasNull)
    {
      hide WellFormed, Steps, TestsMember;
      ghost var g := View();
      ghost var l := nLabel;
      if e.kind == Rowids {
        AddOp(OpMustBeInt(r, destIfFalse));
        StepsWell(g, View());
        AddOp(OpNotExists(e.rhs, e.kind, destIfFalse, r));
      } else if !NullMatters(e.kind, destIfFalse, destIfNull) {
        AddOp(OpNotFound(e.rhs, e.kind, destIfFalse, r));
      } else {
        CodeHasNull(e, r, destIfFalse, destIfNull, rHasNull);
      }
      MemberCoded(g, View(), e, r, destIfFalse, destIfNull, rHasNull, l);
    }

    /** Membership where a NULL in the set matters: whether there is one is found
        out once and kept in a register. */
    method CodeHasNull(e: Expr, r: nat, destIfFalse: nat, destIfNull: nat, rHasNull: nat)
      requires WellFormed(View()) && e.In? && NullMatters(e.kind, destIfFalse, destIfNull)
      modifies `code, `labels, `nLabel
      ensures var g, l := old(View()), old(View()).nLabel;
              View() == g.(code := g.code + MemberCode(r, e.rhs, e.kind, destIfFalse, destIfNull, rHasNull, l, l + 1, l + 2), nLabel := l + 3,
                           labels := g.labels[l + 2 := |g.code| + 4][l + 1 := |g.code| + 5][l := |g.code| + 7])
    {
      hide View, WellFormed, Steps, MemberCode, OpenLabel;
      ghost var g := View();
      FreshLabel(g);
      var j1 := MakeLabel();
      ghost var g1 := View();
      FreshLabel(g1);
      var j2 := MakeLabel();
      ghost var g2 := View();
      FreshLabel(g2);
      var j3 := MakeLabel();
      ghost var g3 := View();
      HasNullLabels(g, g3);
      EmitBlock([OpFound(e.rhs, e.kind, j1, r), OpNotNull(rHasNull, j2), OpFound(e.rhs, e.kind, j3, rHasNull), OpLoad(Int(-1), rHasNull)]);
      StillOpen(g3, View(), j1, j2, j3);
      ghost var g4 := View();
      ResolveLabel(j3);
      ghost var g5 := View();
      StillOpenTwo(g4, g5, j1, j2, j3);
      EmitBlock([OpAddImm(rHasNull, 1)]);
      ghost var g6 := View();
      StillOpenTwo(g4, g6, j1, j2, j3);
      ResolveLabel(j2);
      ghost var g7 := View();
      EmitBlock([OpIf(rHasNull, destIfNull, false), OpGoto(destIfFalse)]);
      ghost var g8 := View();
      StillOpenOne(g6, g8, j1, j2);
      ResolveLabel(j1);
      HasNullShape(g, g3, g4, g6, g8, View(), e, r, destIfFalse, destIfNull, rHasNull);
    }

    /** Appends instructions one by one. */
    method EmitBlock(block: seq<Instruction>)
      requires WellFormed(View())
      modifies `code
      ensures WellFormed(View()) && View() == old(View()).(code := old(View()).code + block)
    {
      hide Steps;
      var i := 0;
      assert code == old(code) + block[..0];
      while i < |block|
        invariant 0 <= i <= |block| && WellFormed(View()) && View() == old(View()).(code := old(code) + block[..i])
      {
        ghost var g := View();
        AddOp(block[i]);
        StepsWell(g, View());
        i := i + 1;
        assert block[..i] == block[..i - 1] + [block[i - 1]];
      }
      assert block[..i] == block;
    }

    /** Falls through if the left-hand side is in the right-hand side, and jumps
        to one label or the other if it is not or if that is unknown. */
    method CodeIn(e: Expr, destIfFalse: nat, destIfNull: nat)
      requires WellFormed(View()) && Clear(e, View(), 0) && e.In? && OpenLabel(View(), destIfFalse) && OpenLabel(View(), destIfNull)
      modifies this
      ensures Coded(old(View()), View(), Decide(e, Fall, Jump(destIfFalse), Jump(destIfNull))) && NoNewLines(old(View()), View())
      decreases Weight(e), 0
    {
      hide View, WellFormed, Steps, Does, CodedValue, Owned, Clear, Coded, InUse, Freed, Taken, OpenLabel, TestsNull, TestsMember, Left, Entered, Prepared, NoNewLines, Available;
      ghost var g0 := View();
      var rHasNull := PrepareHasNull(e);
      ghost var g1 := View();
      PreparedThen(e, g0, g1, rHasNull, destIfFalse, destIfNull);
      CachePush();
      ghost var gE := View();
      var r := GetTempReg();
      ghost var gT := View();
      InClear(e, g1, gT, r, destIfFalse, destIfNull, rHasNull);
      Code(e.x, r);
      ghost var g3 := View();
      InLeftCoded(e, g1, gT, g3, r, destIfFalse, destIfNull);
      CodeLeftNull(e, r, destIfFalse, destIfNull);
      ghost var g4 := View();
      OpenBoth(g3, g4, destIfFalse, destIfNull, r);
      CodeMember(e, r, destIfFalse, destIfNull, rHasNull);
      ghost var g5 := View();
      OpenBoth(g4, g5, destIfFalse, destIfNull, r);
      ReleaseTempReg(r);
      ghost var g6 := View();
      InScope(g1, g3, g4, g5, g6, r);
      CachePop();
      InCoded(e, g0, g1, g3, g4, g5, g6, View(), r, rHasNull, destIfFalse, destIfNull);
    }

    /** Where the right-hand side may hold a NULL, a register for the answer is
        allocated and set to NULL. */
    method PrepareHasNull(e: Expr) returns (rHasNull: nat)
      requires WellFormed(View()) && e.In?
      modifies `nMem, `code
      ensures Prepared(old(View()), View(), e.kind, rHasNull)
    {
      hide WellFormed, Steps, Prepared, Emitted;
      rHasNull := 0;
      ghost var g := View();
      PreparedWell(g);
      if e.kind == AnyValues {
        nMem := nMem + 1;
        rHasNull := nMem;
        AddOp(OpLoad(Null, rHasNull));
      }
    }

    /** IN as a value. */
    method CodeInValue(e: Expr, target: nat)
      requires WellFormed(View()) && Owned(View(), target) && Clear(e, View(), target) && e.In?
      modifies this
      ensures CodedValue(old(View()), View(), e, target, target)
      decreases Weight(e), 1
    {
      hide View, WellFormed, Steps, Does, CodedValue, Owned, Clear, Coded, InUse, OpenLabel, NoNewLines, Emitted, Resolved;
      ghost var g0 := View();
      var destIfFalse := MakeLabel();
      StepsWell(g0, View());
      ghost var gM := View();
      var destIfNull := MakeLabel();
      StepsWell(gM, View());
      ghost var gL := View();
      AddOp(OpLoad(Null, target));
      ghost var gA := View();
      InValueThen(e, g0, gL, target);
      CodeIn(e, destIfFalse, destIfNull);
      ghost var gB := View();
      InValueOpen(e, gA, gB, target, destIfFalse, destIfNull);
      AddOp(OpLoad(Int(1), target));
      StepsWell(gB, View());
      ghost var gC := View();
      ResolveLabel(destIfFalse);
      ghost var gD := View();
      AddOp(OpAddImm(target, 0));
      StepsWell(gD, View());
      ghost var gE := View();
      InValueResolved(gB, gC, gD, gE, destIfFalse, destIfNull, target);
      ResolveLabel(destIfNull);
      InValueCoded(e, g0, gL, gA, gB, gC, gD, gE, View(), target, destIfFalse, destIfNull);
    }

    /** BETWEEN as a value: both comparisons and their conjunction. */
    method CodeBetweenValue(e: Expr, target: nat)
      requires WellFormed(View()) && Owned(View(), target) && Clear(e, View(), target) && e.Between?
      modifies this
      ensures CodedValue(old(View()), View(), e, target, target)
      decreases Weight(e), 1
    {
      hide View, WellFormed, Steps, Does, CodedValue, Owned, Clear, Coded, InUse, Freed, Taken, Available, Emitted;
      ghost var g0 := View();
      ClearParts(e, g0, target);
      var r1, free1 := CodeTemp(e.x);
      ghost var g1 := View();
      TempThen(e.x, e.low, g0, g1, r1, free1);
      var r2, free2 := CodeTemp(e.low);
      ghost var g2 := View();
      TwoTemps(e.x, e.low, g0, g1, g2, r1, free1, r2, free2);
      var r3 := GetTempReg();
      ghost var g3 := View();
      TakenWell(g2, g3, r3);
      var r4 := GetTempReg();
      ghost var g4 := View();
      BetweenTaken(e, g0, g2, g3, g4, r1, free1, r2, free2, r3, r4);
      AddOp(OpCompareStore(Ge, r2, r3, r1, false));
      ghost var g5 := View();
      BetweenFirst(e, g0, g1, g4, r1, free1, r2, free2, r3, r4);
      ReleaseTempReg(free2);
      ghost var g6 := View();
      BetweenFreed(e, g0, g5, g6, r1, free1, free2, r3, r4);
      var rh, freeh := CodeTemp(e.high);
      ghost var g7 := View();
      BetweenHigh(e, g0, g6, g7, r1, free1, r3, r4, rh, freeh);
      AddOp(OpCompareStore(Le, rh, r4, r1, false));
      ghost var g8 := View();
      BetweenSecond(e, g0, g6, g7, target, r1, free1, r3, r4, rh, freeh);
      AddOp(OpAnd(r3, r4, target));
      ghost var g9 := View();
      BetweenLast(e, g0, g8, target, free1, r3, r4, freeh);
      ReleasePair(r3, r4, g0, target, ExprSpec.Value(e, target));
      BetweenRelease(g0, g9, View(), free1, freeh, r3, r4);
      ReleasePair(free1, freeh, g0, target, ExprSpec.Value(e, target));
      TargetCoded(g0, View(), e, target);
    }
  }

  // ---- the whole compiler ----

  /** Compiles a condition. Run over any rows and with any register contents, as
      often as desired, the code jumps to `dest` exactly when the condition is
      true (false, if `sense` is not set), or NULL with `jumpIfNull` set, and
      falls through otherwise. Where both readings of truth agree, that is the
      truth of the expression's value. */
  method Compile(e: Expr, sense: bool, jumpIfNull: bool) returns (code: seq<Instruction>, labels: map<nat, nat>, dest: nat)
    requires RegistersIn(e) == {}
    ensures forall w, regs ::
              var t := Cond(e, w, regs);
              Run(code, labels, 0, regs, w).exit == if t == Bool(sense) || (t == Unknown && jumpIfNull) then Jump(dest) else Fall
    ensures forall w, regs :: Alike(e, w, regs) ==>
              Cond(e, w, regs) == TruthOf(Eval(e, w, regs)) && Eval(e, w, regs) == Logic(e, w, regs)
  {
    hide WellFormed, Steps, Does, Weight, Eval, Cond, Run, Logic, Alike;
    forall w, regs | Alike(e, w, regs) { AlikeMeans(e, w, regs); }
    var p := new Parse();
    ghost var g := p.View();
    FreshLabel(g);
    dest := p.MakeLabel();
    ghost var g0 := p.View();
    if sense {
      p.IfTrue(e, dest, jumpIfNull);
    } else {
      p.IfFalse(e, dest, jumpIfNull);
    }
    code, labels := p.code, p.labels;
    CompiledMeans(g0, p.View(), e, dest, sense, jumpIfNull);
  }

  /** Code for `a > b` jumps exactly if code for `b < a` does, and so for the other
      orders; that for `a <= b` exactly if that for `a < b` or that for `a = b`
      does. */
  method ComparisonsAgree(a: Expr, b: Expr) returns (gt: Compiled, lt: Compiled, le: Compiled, less: Compiled, eq: Compiled)
    requires RegistersIn(a) == {} && RegistersIn(b) == {}
    ensures forall w, regs :: gt.Taken(w, regs) <==> lt.Taken(w, regs)
    ensures forall w, regs :: le.Taken(w, regs) <==> less.Taken(w, regs) || eq.Taken(w, regs)
    ensures forall w, regs :: !(gt.Taken(w, regs) && le.Taken(w, regs))
  {
    hide Run, Cond;
    gt := Condition(Compare(Gt, a, b));
    lt := Condition(Compare(Lt, b, a));
    le := Condition(Compare(Le, a, b));
    less := Condition(Compare(Lt, a, b));
    eq := Condition(Compare(Eq, a, b));
    forall w, regs
      ensures gt.Taken(w, regs) <==> lt.Taken(w, regs)
      ensures le.Taken(w, regs) <==> less.Taken(w, regs) || eq.Taken(w, regs)
      ensures !(gt.Taken(w, regs) && le.Taken(w, regs))
    {
      forall op, x, y { ComparedCond(op, x, y, w, regs); }
      ComparisonLaws(Eval(a, w, regs), Eval(b, w, regs));
    }
  }

  lemma ComparedCond(op: CompareOp, a: Expr, b: Expr, w: World, regs: Registers)
    ensures Cond(Compare(op, a, b), w, regs) == True
       <==> Eval(a, w, regs) != Null && Eval(b, w, regs) != Null && Holds(op, Eval(a, w, regs), Eval(b, w, regs))
  {
    BoolTruth(Compare3(op, Eval(a, w, regs), Eval(b, w, regs)));
  }

  /** Code for a condition that is to be true. */
  datatype Compiled = Compiled(code: seq<Instruction>, labels: map<nat, nat>) {
    predicate Taken(w: World, regs: Registers) {
      Run(code, labels, 0, regs, w).exit != Fall
    }
  }

  method Condition(e: Expr) returns (c: Compiled)
    requires RegistersIn(e) == {}
    ensures forall w, regs :: c.Taken(w, regs) <==> Cond(e, w, regs) == True
  {
    hide Run, Cond;
    var code, labels, dest := Compile(e, true, false);
    c := Compiled(code, labels);
  }

  /** Comparisons of numbers, compiled and run. */
  method NumbersCompared(x: real, y: real, z: real) returns (gt: Compiled, between: Compiled, both: Compiled)
    ensures forall w, regs :: gt.Taken(w, regs) <==> x > y
    ensures forall w, regs :: between.Taken(w, regs) <==> y <= x <= z
    ensures forall w, regs :: both.Taken(w, regs) <==> x > y && !(x == z)
  {
    hide Run;
    var a, b, c := Literal(Num(x)), Literal(Num(y)), Literal(Num(z));
    gt := Condition(Compare(Gt, a, b));
    between := Condition(Between(a, b, c));
    var unequal := Not(Compare(Eq, a, c));
    assert RegistersIn(unequal) == {} && RegistersIn(Compare(Gt, a, b)) == {};
    both := Condition(And(Compare(Gt, a, b), unequal));
    forall w, regs
      ensures gt.Taken(w, regs) <==> x > y
      ensures between.Taken(w, regs) <==> y <= x <= z
      ensures both.Taken(w, regs) <==> x > y && !(x == z)
    {
      NumbersCond(x, y, z, w, regs);
    }
  }

  lemma NumbersCond(x: real, y: real, z: real, w: World, regs: Registers)
    ensures var a, b, c := Literal(Num(x)), Literal(Num(y)), Literal(Num(z));
            && (Cond(Compare(Gt, a, b), w, regs) == True <==> x > y)
            && (Cond(Between(a, b, c), w, regs) == True <==> y <= x <= z)
            && (Cond(And(Compare(Gt, a, b), Not(Compare(Eq, a, c))), w, regs) == True <==> x > y && !(x == z))
  {
    var a, b, c := Literal(Num(x)), Literal(Num(y)), Literal(Num(z));
    ComparedCond(Gt, a, b, w, regs);
    NotEqualCond(a, c, w, regs);
    var low, high := Compare3(Ge, Num(x), Num(y)), Compare3(Le, Num(x), Num(z));
    BoolTruth(And3(low, high));
    assert Eval(Between(a, b, c), w, regs) == BoolValue(And3(low, high));
  }

  lemma NotEqualCond(a: Expr, b: Expr, w: World, regs: Registers)
    ensures Eval(a, w, regs) != Null && Eval(b, w, regs) != Null ==>
              (Cond(Not(Compare(Eq, a, b)), w, regs) == True <==> Eval(a, w, regs) != Eval(b, w, regs))
  {
    BoolTruth(Compare3(Eq, Eval(a, w, regs), Eval(b, w, regs)));
    assert Cond(Not(Compare(Eq, a, b)), w, regs) == Not3(Cond(Compare(Eq, a, b), w, regs));
  }
}

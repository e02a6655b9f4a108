/** Boolean expressions in three-valued logic, and the virtual machine whose
    instructions the expression compiler emits. */
module ExprMachine {

  // ---- values and truth ----

  /** A number, or a text with what its leading part reads as: a real number and
      an integer. A text is known by `t`; the readings go with it. */
  datatype Value = Null | Num(r: real) | Text(t: int, asReal: real, asInt: int)

  datatype Truth = True | False | Unknown

  function Int(i: int): Value {
    Num(i as real)
  }

  predicate IsInt(v: Value) {
    v.Num? && v.r.Floor as real == v.r
  }

  /** The integer part, rounded towards zero. */
  function IntPart(r: real): int {
    if r >= 0.0 then r.Floor else -(-r).Floor
  }

  function IntValue(v: Value): int {
    match v
    case Null => 0
    case Num(r) => IntPart(r)
    case Text(_, _, i) => i
  }

  function RealValue(v: Value): real {
    match v
    case Null => 0.0
    case Num(r) => r
    case Text(_, r, _) => r
  }

  /** Truth as the conditional jumps read it. */
  function TruthOf(v: Value): Truth {
    if v == Null then Unknown else Bool(RealValue(v) != 0.0)
  }

  /** Truth as the instructions for AND, OR and NOT read it. */
  function IntTruth(v: Value): Truth {
    if v == Null then Unknown else Bool(IntValue(v) != 0)
  }

  function BoolValue(t: Truth): Value {
    match t
    case True => Int(1)
    case False => Int(0)
    case Unknown => Null
  }

  function And3(a: Truth, b: Truth): Truth {
    if a == False || b == False then False else if a == True && b == True then True else Unknown
  }

  function Or3(a: Truth, b: Truth): Truth {
    if a == True || b == True then True else if a == False && b == False then False else Unknown
  }

  function Not3(a: Truth): Truth {
    match a
    case True => False
    case False => True
    case Unknown => Unknown
  }

  function Bool(b: bool): Truth {
    if b then True else False
  }

  datatype CompareOp = Eq | Ne | Lt | Le | Gt | Ge

  /** NULL before numbers before texts. */
  predicate Less(a: Value, b: Value) {
    match a
    case Null => b != Null
    case Num(r) => b.Text? || (b.Num? && r < b.r)
    case Text(t, r, i) =>
      b.Text? && (t < b.t || (t == b.t && (r < b.asReal || (r == b.asReal && i < b.asInt))))
  }

  predicate Holds(op: CompareOp, a: Value, b: Value) {
    match op
    case Eq => a == b
    case Ne => a != b
    case Lt => Less(a, b)
    case Le => !Less(b, a)
    case Gt => Less(b, a)
    case Ge => !Less(a, b)
  }

  /** A comparison of NULL is unknown. */
  function Compare3(op: CompareOp, a: Value, b: Value): Truth {
    if a == Null || b == Null then Unknown else Bool(Holds(op, a, b))
  }

  function Negated(op: CompareOp): CompareOp {
    match op
    case Eq => Ne
    case Ne => Eq
    case Lt => Ge
    case Ge => Lt
    case Gt => Le
    case Le => Gt
  }

  // ---- what comparisons and connectives mean ----

  /** Values are totally ordered: of two values one is less, or they are equal. */
  lemma ComparisonLaws(a: Value, b: Value)
    ensures Holds(Lt, a, b) || a == b || Holds(Gt, a, b)
    ensures !(Holds(Lt, a, b) && a == b) && !(a == b && Holds(Gt, a, b)) && !(Holds(Lt, a, b) && Holds(Gt, a, b))
    ensures Holds(Eq, a, b) <==> a == b
    ensures Holds(Ne, a, b) <==> a != b
    ensures Holds(Gt, a, b) <==> Holds(Lt, b, a)
    ensures Holds(Le, a, b) <==> Holds(Lt, a, b) || a == b
    ensures Holds(Ge, a, b) <==> Holds(Gt, a, b) || a == b
  {
  }

  lemma LessTransitive(a: Value, b: Value, c: Value)
    requires Holds(Lt, a, b) && Holds(Lt, b, c)
    ensures Holds(Lt, a, c)
  {
  }

  /** Numbers compare as numbers, after NULL and before texts. */
  lemma LessMeans(x: real, y: real, t: Value)
    requires t.Text?
    ensures Holds(Lt, Num(x), Num(y)) <==> x < y
    ensures Holds(Lt, Null, Num(x)) && Holds(Lt, Num(x), t) && Holds(Lt, Null, t)
    ensures forall u: Value :: u.Text? && t.t < u.t ==> Holds(Lt, t, u)
  {
  }

  /** Truth values as the machine numbers them. */
  function Code(t: Truth): nat {
    match t
    case False => 0
    case True => 1
    case Unknown => 2
  }

  /** The connectives are the tables of the machine. */
  lemma TruthTables(a: Truth, b: Truth)
    ensures Code(a) * 3 + Code(b) < 9
    ensures Code(And3(a, b)) == [0, 0, 0, 0, 1, 2, 0, 2, 2][Code(a) * 3 + Code(b)]
    ensures Code(Or3(a, b)) == [0, 1, 2, 1, 1, 1, 2, 1, 2][Code(a) * 3 + Code(b)]
    ensures Code(Not3(a)) == [1, 0, 2][Code(a)]
  {
  }

  /** Truth of values, in both readings, and the values of truths. */
  lemma TruthMeans(v: Value)
    ensures TruthOf(v) == Unknown <==> v == Null
    ensures IntTruth(v) == Unknown <==> v == Null
    ensures v.Num? ==> (TruthOf(v) == True <==> v.r != 0.0) && (IntTruth(v) == True <==> v.r >= 1.0 || v.r <= -1.0)
    ensures v.Text? ==> (TruthOf(v) == True <==> v.asReal != 0.0) && (IntTruth(v) == True <==> v.asInt != 0)
    ensures BoolValue(True) == Num(1.0) && BoolValue(False) == Num(0.0) && BoolValue(Unknown) == Null
  {
  }

  /** A comparison of NULL is unknown, and any other one true or false. */
  lemma CompareMeans(op: CompareOp, a: Value, b: Value)
    ensures Compare3(op, a, b) == Unknown <==> a == Null || b == Null
    ensures Compare3(op, a, b) == True <==> a != Null && b != Null && Holds(op, a, b)
  {
  }

  // ---- expressions ----

  /** What is known of the right-hand side of an IN: the rowids of a table, a
      column that cannot be NULL, or anything. */
  datatype RhsKind = Rowids | NotNullColumn | AnyValues

  datatype Expr =
    | Column(cursor: nat, column: int)
    | Register(r: nat)
    | Literal(v: Value)
    | And(left: Expr, right: Expr)
    | Or(left: Expr, right: Expr)
    | Not(arg: Expr)
    | Compare(op: CompareOp, left: Expr, right: Expr)
    | Is(left: Expr, right: Expr)
    | IsNot(left: Expr, right: Expr)
    | IsNull(arg: Expr)
    | NotNull(arg: Expr)
    | Between(x: Expr, low: Expr, high: Expr)
    | In(x: Expr, rhs: nat, kind: RhsKind)

  /** The rows the cursors stand on and the right-hand sides of IN. */
  datatype World = World(column: (nat, int) -> Value, table: nat -> set<Value>)

  type Registers = map<nat, Value>

  function Get(regs: Registers, r: nat): Value {
    if r in regs then regs[r] else Null
  }

  function Rhs(w: World, t: nat, kind: RhsKind): set<Value> {
    match kind
    case Rowids => set v | v in w.table(t) && IsInt(v)
    case NotNullColumn => w.table(t) - {Null}
    case AnyValues => w.table(t)
  }

  /** Membership: false in the empty set, otherwise unknown if NULL is involved
      and no equal element settles it. */
  function In3(v: Value, s: set<Value>): Truth {
    if s == {} then False
    else if v == Null then Unknown
    else if v in s then True
    else if Null in s then Unknown
    else False
  }

  /** The value of an expression. */
  function Eval(e: Expr, w: World, regs: Registers): Value {
    match e
    case Column(cursor, column) => w.column(cursor, column)
    case Register(r) => Get(regs, r)
    case Literal(v) => v
    case And(a, b) => BoolValue(And3(IntTruth(Eval(a, w, regs)), IntTruth(Eval(b, w, regs))))
    case Or(a, b) => BoolValue(Or3(IntTruth(Eval(a, w, regs)), IntTruth(Eval(b, w, regs))))
    case Not(a) => BoolValue(Not3(IntTruth(Eval(a, w, regs))))
    case Compare(op, a, b) => BoolValue(Compare3(op, Eval(a, w, regs), Eval(b, w, regs)))
    case Is(a, b) => BoolValue(Bool(Eval(a, w, regs) == Eval(b, w, regs)))
    case IsNot(a, b) => BoolValue(Bool(Eval(a, w, regs) != Eval(b, w, regs)))
    case IsNull(a) => BoolValue(Bool(Eval(a, w, regs) == Null))
    case NotNull(a) => BoolValue(Bool(Eval(a, w, regs) != Null))
    case Between(x, low, high) =>
      var v := Eval(x, w, regs);
      BoolValue(And3(Compare3(Ge, v, Eval(low, w, regs)), Compare3(Le, v, Eval(high, w, regs))))
    case In(x, rhs, kind) => BoolValue(In3(Eval(x, w, regs), Rhs(w, rhs, kind)))
  }

  /** What a right-hand side holds: all its values, those that are not NULL, or the
      whole numbers. */
  lemma RhsMeans(w: World, t: nat, v: Value)
    ensures v in Rhs(w, t, AnyValues) <==> v in w.table(t)
    ensures v in Rhs(w, t, NotNullColumn) <==> v in w.table(t) && v != Null
    ensures v in Rhs(w, t, Rowids) <==> v in w.table(t) && exists i :: v == Int(i)
  {
    if v.Num? && IsInt(v) { assert v == Int(v.r.Floor); }
  }

  /** Membership is settled by an equal element; without one it is false in a set
      without NULL, and in the empty set even for NULL, and otherwise unknown. */
  lemma MembershipMeans(v: Value, s: set<Value>)
    ensures In3(v, s) == True <==> v != Null && v in s
    ensures In3(v, s) == False <==> s == {} || (v != Null && v !in s && Null !in s)
  {
  }

  /** The tests that are never NULL: for NULL, and for equality with NULLs equal. */
  lemma TestsMean(a: Expr, b: Expr, w: World, regs: Registers)
    ensures Eval(IsNull(a), w, regs) == Num(if Eval(a, w, regs) == Null then 1.0 else 0.0)
    ensures Eval(NotNull(a), w, regs) == Num(if Eval(a, w, regs) == Null then 0.0 else 1.0)
    ensures Eval(Is(a, b), w, regs) == Num(if Eval(a, w, regs) == Eval(b, w, regs) then 1.0 else 0.0)
    ensures Eval(IsNot(a, b), w, regs) == Num(if Eval(a, w, regs) == Eval(b, w, regs) then 0.0 else 1.0)
  {
  }

  lemma BoolTruth(t: Truth)
    ensures TruthOf(BoolValue(t)) == t && IntTruth(BoolValue(t)) == t
  {
  }

  /** The truth of an expression that is tested: AND, OR and NOT are taken apart,
      and everything else is read as the jumps read it. */
  function Cond(e: Expr, w: World, regs: Registers): Truth {
    match e
    case And(a, b) => And3(Cond(a, w, regs), Cond(b, w, regs))
    case Or(a, b) => Or3(Cond(a, w, regs), Cond(b, w, regs))
    case Not(a) => Not3(Cond(a, w, regs))
    case _ => TruthOf(Eval(e, w, regs))
  }

  /** The registers an expression refers to. */
  function RegistersIn(e: Expr): set<nat> {
    match e
    case Column(_, _) => {}
    case Register(r) => {r}
    case Literal(_) => {}
    case And(a, b) => RegistersIn(a) + RegistersIn(b)
    case Or(a, b) => RegistersIn(a) + RegistersIn(b)
    case Not(a) => RegistersIn(a)
    case Compare(_, a, b) => RegistersIn(a) + RegistersIn(b)
    case Is(a, b) => RegistersIn(a) + RegistersIn(b)
    case IsNot(a, b) => RegistersIn(a) + RegistersIn(b)
    case IsNull(a) => RegistersIn(a)
    case NotNull(a) => RegistersIn(a)
    case Between(x, low, high) => RegistersIn(x) + RegistersIn(low) + RegistersIn(high)
    case In(x, _, _) => RegistersIn(x)
  }

  lemma {:induction false} EvalStable(e: Expr, w: World, a: Registers, b: Registers)
    requires forall r :: r in RegistersIn(e) ==> Get(a, r) == Get(b, r)
    ensures Eval(e, w, a) == Eval(e, w, b)
  {
    match e
    case Column(_, _) =>
    case Register(_) =>
    case Literal(_) =>
    case And(x, y) => EvalStable(x, w, a, b); EvalStable(y, w, a, b);
    case Or(x, y) => EvalStable(x, w, a, b); EvalStable(y, w, a, b);
    case Not(x) => EvalStable(x, w, a, b);
    case Compare(_, x, y) => EvalStable(x, w, a, b); EvalStable(y, w, a, b);
    case Is(x, y) => EvalStable(x, w, a, b); EvalStable(y, w, a, b);
    case IsNot(x, y) => EvalStable(x, w, a, b); EvalStable(y, w, a, b);
    case IsNull(x) => EvalStable(x, w, a, b);
    case NotNull(x) => EvalStable(x, w, a, b);
    case Between(x, y, z) => EvalStable(x, w, a, b); EvalStable(y, w, a, b); EvalStable(z, w, a, b);
    case In(x, _, _) => EvalStable(x, w, a, b);
  }

  lemma {:induction false} CondStable(e: Expr, w: World, a: Registers, b: Registers)
    requires forall r :: r in RegistersIn(e) ==> Get(a, r) == Get(b, r)
    ensures Cond(e, w, a) == Cond(e, w, b)
  {
    match e
    case And(x, y) => CondStable(x, w, a, b); CondStable(y, w, a, b);
    case Or(x, y) => CondStable(x, w, a, b); CondStable(y, w, a, b);
    case Not(x) => CondStable(x, w, a, b);
    case _ => EvalStable(e, w, a, b);
  }

  // ---- the two readings ----

  /** The value of an expression if there were one reading of truth. */
  function Logic(e: Expr, w: World, regs: Registers): Value {
    match e
    case And(a, b) => BoolValue(And3(TruthOf(Logic(a, w, regs)), TruthOf(Logic(b, w, regs))))
    case Or(a, b) => BoolValue(Or3(TruthOf(Logic(a, w, regs)), TruthOf(Logic(b, w, regs))))
    case Not(a) => BoolValue(Not3(TruthOf(Logic(a, w, regs))))
    case Compare(op, a, b) => BoolValue(Compare3(op, Logic(a, w, regs), Logic(b, w, regs)))
    case Is(a, b) => BoolValue(Bool(Logic(a, w, regs) == Logic(b, w, regs)))
    case IsNot(a, b) => BoolValue(Bool(Logic(a, w, regs) != Logic(b, w, regs)))
    case IsNull(a) => BoolValue(Bool(Logic(a, w, regs) == Null))
    case NotNull(a) => BoolValue(Bool(Logic(a, w, regs) != Null))
    case Between(x, low, high) =>
      var v := Logic(x, w, regs);
      BoolValue(And3(Compare3(Ge, v, Logic(low, w, regs)), Compare3(Le, v, Logic(high, w, regs))))
    case In(x, rhs, kind) => BoolValue(In3(Logic(x, w, regs), Rhs(w, rhs, kind)))
    case _ => Eval(e, w, regs)
  }

  predicate IsLeaf(e: Expr) {
    e.Column? || e.Register? || e.Literal?
  }

  predicate SameReading(v: Value) {
    TruthOf(v) == IntTruth(v)
  }

  /** A column, register or literal that is an operand of AND, OR or NOT. */
  predicate OperandAlike(a: Expr, w: World, regs: Registers) {
    IsLeaf(a) ==> SameReading(Eval(a, w, regs))
  }

  /** Both readings agree on everything that AND, OR and NOT are applied to. */
  predicate Alike(e: Expr, w: World, regs: Registers) {
    match e
    case Column(_, _) => true
    case Register(_) => true
    case Literal(_) => true
    case And(a, b) => OperandAlike(a, w, regs) && OperandAlike(b, w, regs) && Alike(a, w, regs) && Alike(b, w, regs)
    case Or(a, b) => OperandAlike(a, w, regs) && OperandAlike(b, w, regs) && Alike(a, w, regs) && Alike(b, w, regs)
    case Not(a) => OperandAlike(a, w, regs) && Alike(a, w, regs)
    case Compare(_, a, b) => Alike(a, w, regs) && Alike(b, w, regs)
    case Is(a, b) => Alike(a, w, regs) && Alike(b, w, regs)
    case IsNot(a, b) => Alike(a, w, regs) && Alike(b, w, regs)
    case IsNull(a) => Alike(a, w, regs)
    case NotNull(a) => Alike(a, w, regs)
    case Between(x, low, high) => Alike(x, w, regs) && Alike(low, w, regs) && Alike(high, w, regs)
    case In(x, _, _) => Alike(x, w, regs)
  }

  /** Where the readings agree an expression is true as a condition exactly if it
      is true as a value, and both are what the logic says. */
  lemma {:induction false} AlikeMeans(e: Expr, w: World, regs: Registers)
    requires Alike(e, w, regs)
    ensures Eval(e, w, regs) == Logic(e, w, regs) && Cond(e, w, regs) == TruthOf(Logic(e, w, regs))
    ensures !IsLeaf(e) ==> SameReading(Eval(e, w, regs))
  {
    forall t { BoolTruth(t); }
    match e
    case And(a, b) => AlikeMeans(a, w, regs); AlikeMeans(b, w, regs);
    case Or(a, b) => AlikeMeans(a, w, regs); AlikeMeans(b, w, regs);
    case Not(a) => AlikeMeans(a, w, regs);
    case Compare(_, a, b) => AlikeMeans(a, w, regs); AlikeMeans(b, w, regs);
    case Is(a, b) => AlikeMeans(a, w, regs); AlikeMeans(b, w, regs);
    case IsNot(a, b) => AlikeMeans(a, w, regs); AlikeMeans(b, w, regs);
    case IsNull(a) => AlikeMeans(a, w, regs);
    case NotNull(a) => AlikeMeans(a, w, regs);
    case Between(x, low, high) => AlikeMeans(x, w, regs); AlikeMeans(low, w, regs); AlikeMeans(high, w, regs);
    case In(x, _, _) => AlikeMeans(x, w, regs);
    case _ =>
  }

  /** Where they differ, AND, OR and NOT mean one thing as conditions and another as
      values. */
  lemma LeafAsCondition(a: Expr, w: World, regs: Registers)
    requires IsLeaf(a)
    ensures Cond(Not(a), w, regs) == TruthOf(Eval(Not(a), w, regs)) <==> SameReading(Eval(a, w, regs))
    ensures var e := And(a, Literal(Int(1))); Cond(e, w, regs) == TruthOf(Eval(e, w, regs)) <==> SameReading(Eval(a, w, regs))
    ensures var e := Or(a, Literal(Int(0))); Cond(e, w, regs) == TruthOf(Eval(e, w, regs)) <==> SameReading(Eval(a, w, regs))
  {
    var one, zero := Literal(Int(1)), Literal(Int(0));
    forall t { BoolTruth(t); }
    BoolTruth(True);
    BoolTruth(False);
    assert Int(1) == BoolValue(True) && Int(0) == BoolValue(False);
    assert Cond(one, w, regs) == True == IntTruth(Eval(one, w, regs));
    assert Cond(zero, w, regs) == False == IntTruth(Eval(zero, w, regs));
  }

  /** The readings differ exactly for what is not zero but has no integer part. */
  lemma ReadingsDiffer(v: Value)
    ensures v.Num? ==> (SameReading(v) <==> v.r == 0.0 || v.r <= -1.0 || v.r >= 1.0)
  {
  }

  /** One half as a condition and as a value: NOT 0.5 is not taken, and is 1. */
  lemma OneHalf(w: World, regs: Registers)
    ensures var e := Not(Literal(Num(0.5)));
            Cond(e, w, regs) == False && Eval(e, w, regs) == Int(1) && TruthOf(Eval(e, w, regs)) == True
  {
    assert IntPart(0.5) == 0;
  }

  // ---- instructions ----

  /** Jump targets are labels. */
  datatype Instruction =
    | OpLoad(v: Value, p2: nat)
    | OpColumn(cursor: nat, column: int, p3: nat)
    | OpCopy(p1: nat, p2: nat)
    | OpCompare(op: CompareOp, p1: nat, dest: nat, p3: nat, jumpIfNull: bool, nullEq: bool)
    | OpCompareStore(op: CompareOp, p1: nat, p2: nat, p3: nat, nullEq: bool)
    | OpAnd(p1: nat, p2: nat, p3: nat)
    | OpOr(p1: nat, p2: nat, p3: nat)
    | OpNot(p1: nat, p2: nat)
    | OpIsNull(p1: nat, dest: nat)
    | OpNotNull(p1: nat, dest: nat)
    | OpIf(p1: nat, dest: nat, jumpIfNull: bool)
    | OpIfNot(p1: nat, dest: nat, jumpIfNull: bool)
    | OpGoto(dest: nat)
    | OpRewind(table: nat, kind: RhsKind, dest: nat)
    | OpMustBeInt(p1: nat, dest: nat)
    | OpNotExists(table: nat, kind: RhsKind, dest: nat, p3: nat)
    | OpFound(table: nat, kind: RhsKind, dest: nat, p3: nat)
    | OpNotFound(table: nat, kind: RhsKind, dest: nat, p3: nat)
    | OpAddImm(p1: nat, n: int)

  datatype Effect = Next(regs: Registers) | To(dest: nat, regs: Registers)

  function Branch(taken: bool, dest: nat, regs: Registers): Effect {
    if taken then To(dest, regs) else Next(regs)
  }

  /** The outcome of a comparison instruction; NULLs are equal only on demand. */
  function CompareResult(op: CompareOp, a: Value, b: Value, nullEq: bool): Truth {
    if nullEq then Bool(Holds(op, a, b)) else Compare3(op, a, b)
  }

  function Perform(i: Instruction, regs: Registers, w: World): Effect {
    match i
    case OpLoad(v, p2) => Next(regs[p2 := v])
    case OpColumn(cursor, column, p3) => Next(regs[p3 := w.column(cursor, column)])
    case OpCopy(p1, p2) => Next(regs[p2 := Get(regs, p1)])
    case OpCompare(op, p1, l, p3, jumpIfNull, nullEq) =>
      var t := CompareResult(op, Get(regs, p3), Get(regs, p1), nullEq);
      Branch(t == True || (t == Unknown && jumpIfNull), l, regs)
    case OpCompareStore(op, p1, p2, p3, nullEq) =>
      Next(regs[p2 := BoolValue(CompareResult(op, Get(regs, p3), Get(regs, p1), nullEq))])
    case OpAnd(p1, p2, p3) => Next(regs[p3 := BoolValue(And3(IntTruth(Get(regs, p1)), IntTruth(Get(regs, p2))))])
    case OpOr(p1, p2, p3) => Next(regs[p3 := BoolValue(Or3(IntTruth(Get(regs, p1)), IntTruth(Get(regs, p2))))])
    case OpNot(p1, p2) => Next(regs[p2 := BoolValue(Not3(IntTruth(Get(regs, p1))))])
    case OpIsNull(p1, l) => Branch(Get(regs, p1) == Null, l, regs)
    case OpNotNull(p1, l) => Branch(Get(regs, p1) != Null, l, regs)
    case OpIf(p1, l, jumpIfNull) =>
      var t := TruthOf(Get(regs, p1));
      Branch(t == True || (t == Unknown && jumpIfNull), l, regs)
    case OpIfNot(p1, l, jumpIfNull) =>
      var t := TruthOf(Get(regs, p1));
      Branch(t == False || (t == Unknown && jumpIfNull), l, regs)
    case OpGoto(l) => To(l, regs)
    case OpRewind(table, kind, l) => Branch(Rhs(w, table, kind) == {}, l, regs)
    case OpMustBeInt(p1, l) => Branch(!IsInt(Get(regs, p1)), l, regs)
    case OpNotExists(table, kind, l, p3) => Branch(Get(regs, p3) !in Rhs(w, table, kind), l, regs)
    case OpFound(table, kind, l, p3) => Branch(Get(regs, p3) in Rhs(w, table, kind), l, regs)
    case OpNotFound(table, kind, l, p3) => Branch(Get(regs, p3) !in Rhs(w, table, kind), l, regs)
    case OpAddImm(p1, n) => Next(regs[p1 := Int(IntValue(Get(regs, p1)) + n)])
  }

  // ---- running code ----

  datatype Exit = Fall | Jump(dest: nat)
  datatype Outcome = Outcome(exit: Exit, regs: Registers)

  /** Runs code from `pc` until it falls off the end or jumps to a label that is
      not resolved yet. All resolved jumps go forwards. */
  function Run(code: seq<Instruction>, labels: map<nat, nat>, pc: nat, regs: Registers, w: World): Outcome
    decreases |code| - pc
  {
    if pc >= |code| then Outcome(Fall, regs)
    else
      match Perform(code[pc], regs, w)
      case Next(after) => Run(code, labels, pc + 1, after, w)
      case To(l, after) =>
        if l in labels && pc < labels[l] then Run(code, labels, labels[l], after, w)
        else Outcome(Jump(l), after)
  }

  /** `code'` and `labels'` continue `code` and `labels`. */
  ghost predicate Continues(code: seq<Instruction>, labels: map<nat, nat>, code': seq<Instruction>, labels': map<nat, nat>) {
    && |code| <= |code'| && code'[..|code|] == code
    && (forall l :: l in labels ==> l in labels' && labels'[l] == labels[l] && labels[l] <= |code|)
    && (forall l :: l in labels' && l !in labels ==> |code| <= labels'[l])
  }

  /** Code that grows behaves as before up to the point where it used to end. */
  lemma {:induction false} RunOn(code: seq<Instruction>, labels: map<nat, nat>, code': seq<Instruction>, labels': map<nat, nat>, pc: nat, regs: Registers, w: World)
    requires Continues(code, labels, code', labels') && pc <= |code|
    ensures var o := Run(code, labels, pc, regs, w);
            var o' := Run(code', labels', pc, regs, w);
            match o.exit
            case Fall => o' == Run(code', labels', |code|, o.regs, w)
            case Jump(l) => o' == if l in labels' && l !in labels then Run(code', labels', labels'[l], o.regs, w) else o
    decreases |code| - pc
  {
    hide Perform;
    if pc < |code| {
      assert code'[pc] == code[pc];
      match Perform(code[pc], regs, w)
      case Next(after) => RunOn(code, labels, code', labels', pc + 1, after, w);
      case To(l, after) =>
        if l in labels && pc < labels[l] {
          RunOn(code, labels, code', labels', labels[l], after, w);
        }
    }
  }

  // ---- some instructions at work ----

  lemma InstructionSamples(w: World, l: nat)
    ensures var regs: Registers := map[1 := Num(0.5), 2 := Null, 3 := Num(1.0), 4 := Text(7, 0.0, 0)];
            && Perform(OpIf(1, l, false), regs, w) == To(l, regs) && Perform(OpIfNot(1, l, true), regs, w) == Next(regs)
            && Perform(OpIf(2, l, true), regs, w) == To(l, regs) && Perform(OpIfNot(2, l, false), regs, w) == Next(regs)
            && Perform(OpIfNot(4, l, false), regs, w) == To(l, regs)
            && Perform(OpAnd(1, 3, 5), regs, w) == Next(regs[5 := Num(0.0)]) && Perform(OpOr(2, 3, 5), regs, w) == Next(regs[5 := Num(1.0)])
            && Perform(OpNot(1, 5), regs, w) == Next(regs[5 := Num(1.0)]) && Perform(OpNot(2, 5), regs, w) == Next(regs[5 := Null])
            && Perform(OpIsNull(2, l), regs, w) == To(l, regs) && Perform(OpNotNull(2, l), regs, w) == Next(regs)
            && Perform(OpMustBeInt(1, l), regs, w) == To(l, regs) && Perform(OpMustBeInt(3, l), regs, w) == Next(regs)
            && Perform(OpAddImm(2, 0), regs, w) == Next(regs[2 := Num(0.0)]) && Perform(OpAddImm(3, -1), regs, w) == Next(regs[3 := Num(0.0)])
            && Perform(OpCompare(Lt, 3, l, 1, false, false), regs, w) == To(l, regs)
            && Perform(OpCompare(Lt, 1, l, 3, false, false), regs, w) == Next(regs)
            && Perform(OpCompare(Eq, 2, l, 2, false, false), regs, w) == Next(regs)
            && Perform(OpCompare(Eq, 2, l, 2, false, true), regs, w) == To(l, regs)
  {
    assert IntPart(0.5) == 0 && IntPart(1.0) == 1;
  }
}

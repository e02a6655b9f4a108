/** The full-text query parser: an operator-precedence parser that grows a tree
    along its right spine. */
module QueryParser {

  /** In the syntax without parentheses OR binds more tightly than AND. */
  datatype Op = Near(distance: nat) | Not | And | Or(tight: bool)

  datatype Token = Phrase(id: nat) | Operator(op: Op) | Open | Close

  /** A query tree. `Group` marks what was written in brackets, and an AND that
      was not written at all is implicit. */
  datatype Tree = Leaf(id: nat) | Group(inner: Tree) | Binary(op: Op, implicit: bool, left: Tree, right: Tree)

  /** The lower, the tighter an operator binds. */
  function Precedence(op: Op): nat {
    match op
    case Near(_) => 1
    case Not => 2
    case And => 3
    case Or(tight) => if tight then 2 else 4
  }

  /** The type of the topmost node; brackets leave no node of their own. */
  function IsPhrase(t: Tree): bool {
    match t
    case Leaf(_) => true
    case Group(u) => IsPhrase(u)
    case Binary(_, _, _, _) => false
  }

  function OpText(op: Op, implicit: bool): seq<Token> {
    if implicit then [] else [Operator(op)]
  }

  /** The tokens a tree was read from. */
  function Render(t: Tree): seq<Token> {
    match t
    case Leaf(id) => [Phrase(id)]
    case Group(u) => [Open] + Render(u) + [Close]
    case Binary(op, implicit, l, r) => Render(l) + OpText(op, implicit) + Render(r)
  }

  predicate Operand(t: Tree) {
    !t.Binary?
  }

  /** Precedence of the top operator, 0 for an operand. */
  function Top(t: Tree): nat {
    if t.Binary? then Precedence(t.op) else 0
  }

  /** Grouped by precedence, operators of equal precedence from the left. */
  predicate Grouped(t: Tree) {
    match t
    case Leaf(_) => true
    case Group(u) => Grouped(u)
    case Binary(op, implicit, l, r) =>
      && Grouped(l) && Grouped(r) && Top(l) <= Precedence(op) && Top(r) < Precedence(op)
      && (implicit ==> op == And)
  }

  /** A NEAR has a phrase on its right and a phrase or a NEAR on its left. */
  predicate NearOk(t: Tree) {
    match t
    case Leaf(_) => true
    case Group(u) => NearOk(u)
    case Binary(op, _, l, r) =>
      NearOk(l) && NearOk(r) && (op.Near? ==> IsPhrase(r) && (IsPhrase(l) || (l.Binary? && l.op.Near?)))
  }

  predicate Proper(t: Tree) {
    Grouped(t) && NearOk(t)
  }

  // ---- the tree under construction ----

  /** An operator on the right spine whose right operand is still open. */
  datatype Frame = Frame(op: Op, implicit: bool, left: Tree)

  datatype Option<T> = None | Some(value: T)

  /** The spine from the root down, and the operand at its end if there is one. */
  datatype State = State(spine: seq<Frame>, last: Option<Tree>)

  function Fold(spine: seq<Frame>, t: Tree): Tree {
    if spine == [] then t
    else
      var f := spine[|spine| - 1];
      Fold(spine[..|spine| - 1], Binary(f.op, f.implicit, f.left, t))
  }

  function SpineText(spine: seq<Frame>): seq<Token> {
    if spine == [] then []
    else
      var f := spine[|spine| - 1];
      SpineText(spine[..|spine| - 1]) + Render(f.left) + OpText(f.op, f.implicit)
  }

  function StateText(s: State): seq<Token> {
    SpineText(s.spine) + match s.last { case None => [] case Some(t) => Render(t) }
  }

  predicate FrameOk(f: Frame) {
    && Proper(f.left) && Top(f.left) <= Precedence(f.op) && (f.implicit ==> f.op == And)
    && (f.op.Near? ==> IsPhrase(f.left) || (f.left.Binary? && f.left.op.Near?))
  }

  predicate SpineOk(spine: seq<Frame>) {
    && (forall i :: 0 <= i < |spine| ==> FrameOk(spine[i]))
    && (forall i, j :: 0 <= i < j < |spine| ==> Precedence(spine[j].op) < Precedence(spine[i].op))
  }

  predicate StateOk(s: State) {
    && SpineOk(s.spine)
    && (s.last.Some? ==> Operand(s.last.value) && Proper(s.last.value)
                         && (s.spine != [] && s.spine[|s.spine| - 1].op.Near? ==> IsPhrase(s.last.value)))
  }

  /** The tree fits below the spine. */
  predicate Hangs(spine: seq<Frame>, t: Tree) {
    && Proper(t)
    && (spine != [] ==> Top(t) < Precedence(spine[|spine| - 1].op) && (spine[|spine| - 1].op.Near? ==> IsPhrase(t)))
  }

  /** Closing the spine below a tree. */
  lemma {:induction false} FoldProper(spine: seq<Frame>, t: Tree)
    requires SpineOk(spine) && Hangs(spine, t)
    ensures Proper(Fold(spine, t)) && Render(Fold(spine, t)) == SpineText(spine) + Render(t)
  {
    hide Render, SpineOk, Hangs, Proper;
    if spine != [] {
      var n := |spine| - 1;
      var f := spine[n];
      ClimbOk(spine, t);
      ClimbText(spine, t);
      FoldProper(spine[..n], Binary(f.op, f.implicit, f.left, t));
    } else {
      HangsProper(spine, t);
    }
  }

  lemma HangsProper(spine: seq<Frame>, t: Tree)
    requires Hangs(spine, t)
    ensures Proper(t)
  {
  }

  /** Where a new operator goes: past every operator that binds at least as
      tightly. */
  function Insert(spine: seq<Frame>, split: Tree, op: Op, implicit: bool): seq<Frame> {
    if spine != [] && Precedence(spine[|spine| - 1].op) <= Precedence(op) then
      var f := spine[|spine| - 1];
      Insert(spine[..|spine| - 1], Binary(f.op, f.implicit, f.left, split), op, implicit)
    else spine + [Frame(op, implicit, split)]
  }

  predicate FitsUnder(split: Tree, op: Op) {
    Top(split) <= Precedence(op) && (op.Near? ==> IsPhrase(split) || (split.Binary? && split.op.Near?))
  }

  lemma {:induction false} InsertOk(spine: seq<Frame>, split: Tree, op: Op, implicit: bool)
    requires SpineOk(spine) && Hangs(spine, split) && FitsUnder(split, op) && (implicit ==> op == And)
    ensures var r := Insert(spine, split, op, implicit);
            SpineOk(r) && r != [] && r[|r| - 1].op == op && SpineText(r) == SpineText(spine) + Render(split) + OpText(op, implicit)
  {
    hide SpineText, Render, Proper, SpineOk, FrameOk;
    if spine != [] && Precedence(spine[|spine| - 1].op) <= Precedence(op) {
      var f := spine[|spine| - 1];
      ClimbOk(spine, split);
      ClimbText(spine, split);
      InsertOk(spine[..|spine| - 1], Binary(f.op, f.implicit, f.left, split), op, implicit);
    } else {
      var f := Frame(op, implicit, split);
      PushedOk(spine, f);
      Pushed(spine, f);
    }
  }

  lemma ClimbOk(spine: seq<Frame>, split: Tree)
    requires spine != [] && SpineOk(spine) && Hangs(spine, split)
    ensures var n := |spine| - 1; var f := spine[n];
            SpineOk(spine[..n]) && Hangs(spine[..n], Binary(f.op, f.implicit, f.left, split))
  {
    var n := |spine| - 1;
    var f := spine[n];
    assert FrameOk(f);
    assert Proper(Binary(f.op, f.implicit, f.left, split));
    hide Proper, FrameOk;
    if n > 0 { assert Precedence(f.op) < Precedence(spine[n - 1].op); }
  }

  lemma ClimbText(spine: seq<Frame>, split: Tree)
    requires spine != []
    ensures var n := |spine| - 1; var f := spine[n];
            SpineText(spine[..n]) + Render(Binary(f.op, f.implicit, f.left, split)) == SpineText(spine) + Render(split)
  {
    var n := |spine| - 1;
    var f := spine[n];
    var a, b, c, d := SpineText(spine[..n]), Render(f.left), OpText(f.op, f.implicit), Render(split);
    assert SpineText(spine) == a + b + c;
    assert Render(Binary(f.op, f.implicit, f.left, split)) == b + c + d;
    Reassociate(a, b, c, d);
  }

  lemma Reassociate(a: seq<Token>, b: seq<Token>, c: seq<Token>, d: seq<Token>)
    ensures a + (b + c + d) == a + b + c + d
  {
  }

  lemma PushedOk(spine: seq<Frame>, f: Frame)
    requires SpineOk(spine) && Hangs(spine, f.left) && Top(f.left) <= Precedence(f.op) && (f.implicit ==> f.op == And)
    requires f.op.Near? ==> IsPhrase(f.left) || (f.left.Binary? && f.left.op.Near?)
    requires spine != [] ==> Precedence(f.op) < Precedence(spine[|spine| - 1].op)
    ensures SpineOk(spine + [f])
  {
    var s := spine + [f];
    assert FrameOk(f);
    hide FrameOk, Proper;
    forall i, j | 0 <= i < j < |s| ensures Precedence(s[j].op) < Precedence(s[i].op) {
      if j == |spine| && i < j - 1 { assert Precedence(spine[j - 1].op) < Precedence(spine[i].op); }
    }
  }

  lemma Pushed(spine: seq<Frame>, f: Frame)
    ensures SpineText(spine + [f]) == SpineText(spine) + Render(f.left) + OpText(f.op, f.implicit)
  {
    assert (spine + [f])[..|spine|] == spine;
  }

  // ---- parsing ----

  /** What an operand, or an operator, does to the tree; None is a syntax error. */
  function AddOperand(s: State, t: Tree): Option<State> {
    var spine := if s.last.Some? then Insert(s.spine, s.last.value, And, true) else s.spine;
    if spine != [] && spine[|spine| - 1].op.Near? && !IsPhrase(t) then None else Some(State(spine, Some(t)))
  }

  function AddOperator(s: State, op: Op): Option<State> {
    if s.last.None? || (op.Near? && !IsPhrase(s.last.value)) then None
    else Some(State(Insert(s.spine, s.last.value, op, false), None))
  }

  /** The outcome of parsing up to a closing bracket or the end: the tree, if
      any, where parsing stopped and how many brackets are open. */
  datatype Result = Error | Parsed(tree: Option<Tree>, pos: nat, nest: int)

  function Finish(s: State, pos: nat, nest: int): Result {
    match s.last
    case Some(t) => Parsed(Some(Fold(s.spine, t)), pos, nest)
    case None => if s.spine == [] then Parsed(None, pos, nest) else Error
  }

  const START := State([], None)

  /** Parses the tokens from `pos` on, continuing from a state. Empty brackets
      end the parse like a closing bracket does. */
  function Loop(tokens: seq<Token>, pos: nat, nest: int, s: State): (r: Result)
    requires pos <= |tokens|
    ensures r.Parsed? ==> pos <= r.pos <= |tokens|
    decreases |tokens| - pos, 0
  {
    if pos == |tokens| then Finish(s, pos, nest)
    else
      match tokens[pos]
      case Close => Finish(s, pos + 1, nest - 1)
      case Phrase(id) => Continue(tokens, pos + 1, nest, AddOperand(s, Leaf(id)))
      case Operator(op) => Continue(tokens, pos + 1, nest, AddOperator(s, op))
      case Open =>
        var r := Loop(tokens, pos + 1, nest + 1, START);
        if r.Error? then Error
        else if r.tree.None? then Finish(s, r.pos, r.nest)
        else Continue(tokens, r.pos, r.nest, AddOperand(s, Group(r.tree.value)))
  }

  function Continue(tokens: seq<Token>, pos: nat, nest: int, s: Option<State>): (r: Result)
    requires pos <= |tokens|
    ensures r.Parsed? ==> pos <= r.pos <= |tokens|
    decreases |tokens| - pos, 1
  {
    if s.None? then Error else Loop(tokens, pos, nest, s.value)
  }

  /** The parse of a whole query; unbalanced brackets are an error. */
  function ParseQuery(tokens: seq<Token>): Result {
    var r := Loop(tokens, 0, 0, START);
    if r.Parsed? && r.nest != 0 then Error else r
  }

  // ---- what is parsed is what was written ----

  predicate NoEmptyBrackets(tokens: seq<Token>) {
    forall i :: 0 <= i < |tokens| - 1 ==> !(tokens[i] == Open && tokens[i + 1] == Close)
  }

  function TreeText(t: Option<Tree>): seq<Token> {
    match t { case None => [] case Some(u) => Render(u) }
  }

  lemma AddOperandOk(s: State, t: Tree)
    requires StateOk(s) && Operand(t) && Proper(t)
    ensures AddOperand(s, t).Some? ==> StateOk(AddOperand(s, t).value) && StateText(AddOperand(s, t).value) == StateText(s) + Render(t)
  {
    hide SpineText, Render, Proper, SpineOk, FrameOk, Insert;
    if s.last.Some? { InsertOk(s.spine, s.last.value, And, true); }
  }

  lemma AddOperatorOk(s: State, op: Op)
    requires StateOk(s)
    ensures AddOperator(s, op).Some? ==> StateOk(AddOperator(s, op).value) && StateText(AddOperator(s, op).value) == StateText(s) + [Operator(op)]
  {
    hide SpineText, Render, Proper, SpineOk, FrameOk, Insert;
    if AddOperator(s, op).Some? { InsertOk(s.spine, s.last.value, op, false); }
  }

  lemma FinishOk(s: State, pos: nat, nest: int)
    requires StateOk(s)
    ensures var r := Finish(s, pos, nest);
            r.Parsed? ==> r.pos == pos && r.nest == nest && TreeText(r.tree) == StateText(s) && (r.tree.Some? ==> Proper(r.tree.value))
  {
    hide SpineOk, Proper, FrameOk;
    if s.last.Some? { FoldProper(s.spine, s.last.value); }
  }

  /** How a parse that met no empty brackets ends: at the closing bracket of its
      level, or at the end of the input, where a bracket may be left open. */
  ghost predicate Ends(tokens: seq<Token>, from: nat, nest: int, text: seq<Token>, r: Result)
    requires from <= |tokens| && r.Parsed? && r.pos <= |tokens|
  {
    && from <= r.pos
    && (|| (r.nest == nest - 1 && text + tokens[from..r.pos] == TreeText(r.tree) + [Close])
        || (r.pos == |tokens| && r.nest == nest && text + tokens[from..] == TreeText(r.tree))
        || (r.pos == |tokens| && r.nest > nest))
  }

  /** Every tree built is proper; without empty brackets it also renders to what
      was read. */
  lemma {:induction false} Sound(tokens: seq<Token>, pos: nat, nest: int, s: State)
    requires pos <= |tokens| && StateOk(s)
    ensures var r := Loop(tokens, pos, nest, s);
            && (r.Parsed? && r.tree.Some? ==> Proper(r.tree.value))
            && (r.Parsed? && NoEmptyBrackets(tokens) ==> Ends(tokens, pos, nest, StateText(s), r))
    decreases |tokens| - pos, 1
  {
    hide StateOk, StateText, Proper, AddOperand, AddOperator, Finish, NoEmptyBrackets;
    if pos == |tokens| {
      FinishOk(s, pos, nest);
      assert tokens[pos..] == [];
    } else {
      var next := tokens[pos];
      match next
      case Close =>
        FinishOk(s, pos + 1, nest - 1);
        assert tokens[pos..pos + 1] == [Close];
      case Phrase(id) =>
        LeafProper(id);
        AddOperandOk(s, Leaf(id));
        SoundNext(tokens, pos, pos + 1, nest, nest, s, AddOperand(s, Leaf(id)), [Phrase(id)]);
      case Operator(op) =>
        AddOperatorOk(s, op);
        SoundNext(tokens, pos, pos + 1, nest, nest, s, AddOperator(s, op), [Operator(op)]);
      case Open =>
        SoundOpen(tokens, pos, nest, s);
    }
  }

  lemma LeafProper(id: nat)
    ensures Proper(Leaf(id)) && Operand(Leaf(id)) && Render(Leaf(id)) == [Phrase(id)]
  {
  }

  /** One more item read, up to `mid`. */
  lemma {:induction false} SoundNext(tokens: seq<Token>, pos: nat, mid: nat, nest: int, nest': int, s: State, s': Option<State>, item: seq<Token>)
    requires pos < mid <= |tokens|
    requires s'.Some? ==> StateOk(s'.value) && StateText(s'.value) == StateText(s) + item
    requires NoEmptyBrackets(tokens) ==> (nest' == nest && item == tokens[pos..mid]) || (nest' > nest && mid == |tokens|)
    ensures var r := Continue(tokens, mid, nest', s');
            && (r.Parsed? && r.tree.Some? ==> Proper(r.tree.value))
            && (r.Parsed? && NoEmptyBrackets(tokens) ==> Ends(tokens, pos, nest, StateText(s), r))
    decreases |tokens| - mid, 2
  {
    hide StateOk, StateText, Proper, NoEmptyBrackets;
    if s'.Some? {
      Sound(tokens, mid, nest', s'.value);
      var r := Loop(tokens, mid, nest', s'.value);
      if r.Parsed? && NoEmptyBrackets(tokens) {
        if nest' == nest {
          assert tokens[pos..r.pos] == tokens[pos..mid] + tokens[mid..r.pos];
          assert tokens[pos..] == tokens[pos..mid] + tokens[mid..];
        } else {
          AtTheEnd(tokens, nest', s'.value);
        }
      }
    }
  }

  lemma AtTheEnd(tokens: seq<Token>, nest: int, s: State)
    ensures var r := Loop(tokens, |tokens|, nest, s); r.Parsed? ==> r.pos == |tokens| && r.nest == nest
  {
  }

  lemma {:induction false} SoundOpen(tokens: seq<Token>, pos: nat, nest: int, s: State)
    requires pos < |tokens| && tokens[pos] == Open && StateOk(s)
    ensures var r := Loop(tokens, pos, nest, s);
            && (r.Parsed? && r.tree.Some? ==> Proper(r.tree.value))
            && (r.Parsed? && NoEmptyBrackets(tokens) ==> Ends(tokens, pos, nest, StateText(s), r))
    decreases |tokens| - pos, 0
  {
    hide StateOk, StateText, Proper, AddOperand, Finish;
    StartOk();
    Sound(tokens, pos + 1, nest + 1, START);
    var inner := Loop(tokens, pos + 1, nest + 1, START);
    if inner.Parsed? {
      if inner.tree.None? {
        FinishOk(s, inner.pos, inner.nest);
        if NoEmptyBrackets(tokens) {
          NotEmpty(tokens, pos, nest, inner);
        }
      } else {
        var t := inner.tree.value;
        GroupProper(t);
        AddOperandOk(s, Group(t));
        if NoEmptyBrackets(tokens) && inner.nest == nest {
          GroupText(tokens, pos, inner.pos, t);
        }
        SoundNext(tokens, pos, inner.pos, nest, inner.nest, s, AddOperand(s, Group(t)), Render(Group(t)));
      }
    }
  }

  lemma StartOk()
    ensures StateOk(START) && StateText(START) == []
  {
  }

  lemma GroupProper(t: Tree)
    requires Proper(t)
    ensures Proper(Group(t)) && Operand(Group(t))
  {
  }

  lemma GroupText(tokens: seq<Token>, pos: nat, end: nat, t: Tree)
    requires pos < end <= |tokens| && tokens[pos] == Open && tokens[pos + 1..end] == Render(t) + [Close]
    ensures Render(Group(t)) == tokens[pos..end]
  {
    assert tokens[pos..end] == [Open] + tokens[pos + 1..end];
  }

  /** Brackets that turn out empty without being written so lack their end. */
  lemma NotEmpty(tokens: seq<Token>, pos: nat, nest: int, inner: Result)
    requires pos < |tokens| && tokens[pos] == Open && NoEmptyBrackets(tokens)
    requires inner.Parsed? && inner.tree.None? && inner.pos <= |tokens| && Ends(tokens, pos + 1, nest + 1, [], inner)
    ensures inner.pos == |tokens| && inner.nest > nest
  {
    var read := tokens[pos + 1..inner.pos];
    assert [] + read == read;
    assert |read| > 0 ==> tokens[pos + 1] == read[0];
  }

  // ---- what is written is parsed ----

  /** The right spine of a tree and the operand at its end. */
  function RightSpine(t: Tree): seq<Frame> {
    if t.Binary? then [Frame(t.op, t.implicit, t.left)] + RightSpine(t.right) else []
  }

  function LastOperand(t: Tree): Tree {
    if t.Binary? then LastOperand(t.right) else t
  }

  /** The state once a tree has been read below a spine. */
  function Read(spine: seq<Frame>, t: Tree): State {
    State(spine + RightSpine(t), Some(LastOperand(t)))
  }

  lemma {:induction false} FoldSplit(spine: seq<Frame>, f: Frame, t: Tree)
    ensures Fold(spine + [f], t) == Fold(spine, Binary(f.op, f.implicit, f.left, t))
  {
    assert (spine + [f])[..|spine|] == spine;
  }

  lemma {:induction false} FoldSpine(spine: seq<Frame>, t: Tree)
    ensures Fold(spine + RightSpine(t), LastOperand(t)) == Fold(spine, t)
    decreases t
  {
    if t.Binary? {
      var f := Frame(t.op, t.implicit, t.left);
      FoldSpine(spine + [f], t.right);
      assert spine + [f] + RightSpine(t.right) == spine + ([f] + RightSpine(t.right));
      FoldSplit(spine, f, t.right);
    } else {
      assert spine + [] == spine;
    }
  }

  /** An operator inserted after a tree it may have on its left takes exactly that
      tree. */
  lemma {:induction false} InsertAfter(spine: seq<Frame>, t: Tree, op: Op, implicit: bool)
    requires Grouped(t) && Top(t) <= Precedence(op) && (spine != [] ==> Precedence(op) < Precedence(spine[|spine| - 1].op))
    ensures Insert(spine + RightSpine(t), LastOperand(t), op, implicit) == spine + [Frame(op, implicit, t)]
  {
    SpineTight(t, op);
    InsertClimbs(spine, RightSpine(t), LastOperand(t), op, implicit);
    FoldSpine([], t);
    assert [] + RightSpine(t) == RightSpine(t);
  }

  lemma {:induction false} SpineTight(t: Tree, op: Op)
    requires Grouped(t) && Top(t) <= Precedence(op)
    ensures forall i :: 0 <= i < |RightSpine(t)| ==> Precedence(RightSpine(t)[i].op) <= Precedence(op)
  {
    if t.Binary? { SpineTight(t.right, op); }
  }

  lemma {:induction false} InsertClimbs(spine: seq<Frame>, more: seq<Frame>, last: Tree, op: Op, implicit: bool)
    requires forall i :: 0 <= i < |more| ==> Precedence(more[i].op) <= Precedence(op)
    requires spine != [] ==> Precedence(op) < Precedence(spine[|spine| - 1].op)
    ensures Insert(spine + more, last, op, implicit) == spine + [Frame(op, implicit, Fold(more, last))]
    decreases |more|
  {
    if more == [] {
      assert spine + more == spine;
    } else {
      var n := |more| - 1;
      var f := more[n];
      assert (spine + more)[|spine| + n] == f && (spine + more)[..|spine| + n] == spine + more[..n];
      InsertClimbs(spine, more[..n], Binary(f.op, f.implicit, f.left, last), op, implicit);
    }
  }

  /** From a state that expects an operand, a proper tree is read as itself. */
  lemma {:induction false} Complete(tokens: seq<Token>, pos: nat, nest: int, spine: seq<Frame>, t: Tree)
    requires Proper(t) && Hangs(spine, t) && pos + |Render(t)| <= |tokens| && tokens[pos..pos + |Render(t)|] == Render(t)
    ensures Loop(tokens, pos, nest, State(spine, None)) == Loop(tokens, pos + |Render(t)|, nest, Read(spine, t))
    decreases t, 1
  {
    hide Proper, Hangs, Render, AddOperand;
    RenderParts(t);
    match t
    case Leaf(id) =>
      HangsOperand(spine, t);
      assert tokens[pos] == tokens[pos..pos + 1][0];
      assert spine + [] == spine;
    case Group(u) =>
      HangsOperand(spine, t);
      GroupRead(tokens, pos, nest, State(spine, None), u);
      assert spine + [] == spine;
    case Binary(op, implicit, l, r) =>
      BinaryRead(tokens, pos, nest, spine, t);
  }

  lemma BinaryRead(tokens: seq<Token>, pos: nat, nest: int, spine: seq<Frame>, t: Tree)
    requires t.Binary? && Proper(t) && Hangs(spine, t) && pos + |Render(t)| <= |tokens| && tokens[pos..pos + |Render(t)|] == Render(t)
    ensures Loop(tokens, pos, nest, State(spine, None)) == Loop(tokens, pos + |Render(t)|, nest, Read(spine, t))
    decreases t, 0
  {
    hide Render, Loop, Insert, Hangs, Proper, Precedence;
    var l, r, op, implicit := t.left, t.right, t.op, t.implicit;
    var a, b := pos + |Render(l)|, pos + |Render(l)| + |OpText(op, implicit)|;
    var f := Frame(op, implicit, l);
    BinaryParts(spine, t);
    Slices(tokens, pos, t);
    Complete(tokens, pos, nest, spine, l);
    if implicit {
      ImplicitRead(tokens, a, nest, Read(spine, l), spine + [f], r);
    } else {
      assert tokens[a] == tokens[a..b][0];
      OperatorRead(tokens, a, nest, Read(spine, l), spine + [f], op);
    }
    Complete(tokens, b, nest, spine + [f], r);
    assert spine + [f] + RightSpine(r) == spine + RightSpine(t);
  }

  lemma OperatorRead(tokens: seq<Token>, pos: nat, nest: int, s: State, spine: seq<Frame>, op: Op)
    requires pos < |tokens| && tokens[pos] == Operator(op) && AddOperator(s, op) == Some(State(spine, None))
    ensures Loop(tokens, pos, nest, s) == Loop(tokens, pos + 1, nest, State(spine, None))
  {
  }

  /** The operands of a proper tree are proper and hang where they are read. */
  lemma BinaryParts(spine: seq<Frame>, t: Tree)
    requires t.Binary? && Proper(t) && Hangs(spine, t)
    ensures var f := Frame(t.op, t.implicit, t.left);
            && Proper(t.left) && Hangs(spine, t.left) && Proper(t.right) && Hangs(spine + [f], t.right)
            && Insert(spine + RightSpine(t.left), LastOperand(t.left), t.op, t.implicit) == spine + [f]
            && (if t.implicit then t.op == And else AddOperator(Read(spine, t.left), t.op) == Some(State(spine + [f], None)))
            && |Render(t)| == |Render(t.left)| + |OpText(t.op, t.implicit)| + |Render(t.right)|
  {
    LastPhrase(t.left, t.op);
    InsertAfter(spine, t.left, t.op, t.implicit);
  }

  lemma Slices(tokens: seq<Token>, pos: nat, t: Tree)
    requires t.Binary? && pos + |Render(t)| <= |tokens| && tokens[pos..pos + |Render(t)|] == Render(t)
    ensures var a, b, n := pos + |Render(t.left)|, pos + |Render(t.left)| + |OpText(t.op, t.implicit)|, pos + |Render(t)|;
            a <= b <= n && tokens[pos..a] == Render(t.left) && tokens[a..b] == OpText(t.op, t.implicit) && tokens[b..n] == Render(t.right)
  {
    Cut(tokens, pos, Render(t.left), OpText(t.op, t.implicit), Render(t.right));
  }

  lemma Cut(tokens: seq<Token>, pos: nat, x: seq<Token>, y: seq<Token>, z: seq<Token>)
    requires pos + |x + y + z| <= |tokens| && tokens[pos..pos + |x + y + z|] == x + y + z
    ensures tokens[pos..pos + |x|] == x && tokens[pos + |x|..pos + |x| + |y|] == y && tokens[pos + |x| + |y|..pos + |x| + |y| + |z|] == z
  {
    var text := tokens[pos..pos + |x + y + z|];
    assert forall i :: 0 <= i < |text| ==> tokens[pos + i] == text[i];
    assert forall i :: 0 <= i < |x| ==> text[i] == x[i];
    assert forall i :: 0 <= i < |y| ==> text[|x| + i] == y[i];
    assert forall i :: 0 <= i < |z| ==> text[|x| + |y| + i] == z[i];
  }

  lemma LastPhrase(l: Tree, op: Op)
    requires Proper(l) && Top(l) <= Precedence(op) && (op.Near? ==> IsPhrase(l) || (l.Binary? && l.op.Near?))
    ensures op.Near? ==> IsPhrase(LastOperand(l))
  {
  }

  lemma HangsOperand(spine: seq<Frame>, t: Tree)
    requires Hangs(spine, t) && Operand(t)
    ensures AddOperand(State(spine, None), t) == Some(State(spine, Some(t)))
  {
  }

  lemma RenderParts(r: Tree)
    requires Proper(r)
    ensures r.Leaf? ==> Render(r) == [Phrase(r.id)]
    ensures r.Group? ==> |Render(r)| == |Render(r.inner)| + 2 && Proper(r.inner)
    ensures r.Binary? ==> Proper(r.left)
  {
  }

  /** Reading an operand after an operand goes through an implicit AND. */
  lemma {:induction false} ImplicitRead(tokens: seq<Token>, pos: nat, nest: int, s: State, spine: seq<Frame>, r: Tree)
    requires Proper(r) && pos + |Render(r)| <= |tokens| && tokens[pos..pos + |Render(r)|] == Render(r)
    requires s.last.Some? && Insert(s.spine, s.last.value, And, true) == spine
    ensures Loop(tokens, pos, nest, s) == Loop(tokens, pos, nest, State(spine, None))
    decreases r, 0
  {
    hide Render, Insert;
    RenderParts(r);
    match r
    case Leaf(id) =>
      assert tokens[pos] == tokens[pos..pos + 1][0];
    case Group(u) =>
      GroupRead(tokens, pos, nest, s, u);
      GroupRead(tokens, pos, nest, State(spine, None), u);
    case Binary(op, implicit, x, y) =>
      Slices(tokens, pos, r);
      ImplicitRead(tokens, pos, nest, s, spine, x);
  }

  /** A bracketed tree is read by the parser calling itself. */
  lemma {:induction false} GroupRead(tokens: seq<Token>, pos: nat, nest: int, s: State, u: Tree)
    requires Proper(u) && pos + |Render(u)| + 2 <= |tokens| && tokens[pos..pos + |Render(u)| + 2] == Render(Group(u))
    ensures Loop(tokens, pos, nest, s) == Continue(tokens, pos + |Render(u)| + 2, nest, AddOperand(s, Group(u)))
    decreases u, 2
  {
    var n := |Render(u)|;
    Cut(tokens, pos, [Open], Render(u), [Close]);
    hide Proper, Render, AddOperand, Fold;
    assert tokens[pos] == tokens[pos..pos + 1][0] && tokens[pos + 1 + n] == tokens[pos + 1 + n..pos + 2 + n][0];
    Complete(tokens, pos + 1, nest + 1, [], u);
    FoldSpine([], u);
    FoldNone(u);
    var inner := Loop(tokens, pos + 1, nest + 1, START);
    assert inner == Finish(Read([], u), pos + 2 + n, nest);
  }

  // ---- main results ----

  /** No rendering contains empty brackets. */
  lemma {:induction false} RenderNoEmpty(t: Tree)
    ensures Render(t) != [] && NoEmptyBrackets(Render(t))
    ensures Render(t)[0] != Close && Render(t)[|Render(t)| - 1] != Open
  {
    match t
    case Leaf(_) =>
    case Group(u) => RenderNoEmpty(u);
    case Binary(op, implicit, l, r) =>
      RenderNoEmpty(l);
      RenderNoEmpty(r);
      assert Render(t) == Render(l) + OpText(op, implicit) + Render(r);
  }

  /** Every proper tree is read back as itself. */
  lemma RoundTrip(t: Tree)
    requires Proper(t)
    ensures ParseQuery(Render(t)) == Parsed(Some(t), |Render(t)|, 0)
  {
    var tokens := Render(t);
    Complete(tokens, 0, 0, [], t);
    FoldSpine([], t);
  }

  /** The parser accepts exactly the renderings of proper trees, and returns the
      tree, except that empty brackets cut a query short. */
  lemma ParserExact(tokens: seq<Token>, t: Tree)
    ensures (Proper(t) && Render(t) == tokens)
       <==> (NoEmptyBrackets(tokens) && ParseQuery(tokens).Parsed? && ParseQuery(tokens).tree == Some(t))
  {
    hide Proper, Loop, NoEmptyBrackets;
    if Proper(t) && Render(t) == tokens {
      RoundTrip(t);
      RenderNoEmpty(t);
    }
    StartOk();
    Sound(tokens, 0, 0, START);
  }

  /** There is only one way to group what is written. */
  lemma GroupingUnique(t: Tree, u: Tree)
    requires Proper(t) && Proper(u) && Render(t) == Render(u)
    ensures t == u
  {
    RoundTrip(t);
    RoundTrip(u);
  }

  /** A query is accepted without being read to the end only because of empty
      brackets. */
  lemma AcceptedIsRead(tokens: seq<Token>)
    requires ParseQuery(tokens).Parsed?
    ensures NoEmptyBrackets(tokens) ==> ParseQuery(tokens).pos == |tokens| && TreeText(ParseQuery(tokens).tree) == tokens
    ensures ParseQuery(tokens).tree.Some? && !NoEmptyBrackets(tokens) ==> Render(ParseQuery(tokens).tree.value) != tokens
  {
    hide Loop;
    StartOk();
    Sound(tokens, 0, 0, START);
    if ParseQuery(tokens).tree.Some? { RenderNoEmpty(ParseQuery(tokens).tree.value); }
  }

  /** Empty brackets, at any level, end that level as a closing bracket would, but
      leave its bracket open. */
  lemma EmptyBracketsEnd(tokens: seq<Token>, pos: nat, nest: int, s: State)
    requires pos + 1 < |tokens| && tokens[pos] == Open && tokens[pos + 1] == Close
    ensures Loop(tokens, pos, nest, s) == Finish(s, pos + 2, nest)
  {
    assert Loop(tokens, pos + 1, nest + 1, START) == Parsed(None, pos + 2, nest);
  }

  /** At the top level whatever follows them is dropped. */
  lemma EmptyBracketsDrop(t: Tree, rest: seq<Token>)
    requires Proper(t)
    ensures ParseQuery(Render(t) + [Open, Close] + rest) == Parsed(Some(t), |Render(t)| + 2, 0)
  {
    hide Proper, Render, Fold;
    var tokens, n := Render(t) + [Open, Close] + rest, |Render(t)|;
    assert tokens[..n] == Render(t) && tokens[n] == Open && tokens[n + 1] == Close;
    Complete(tokens, 0, 0, [], t);
    FoldSpine([], t);
    FoldNone(t);
    EmptyBracketsEnd(tokens, n, 0, Read([], t));
  }

  /** Inside brackets they close the group, and what follows is read one level up,
      as if it stood behind the group, with one bracket more to be closed. */
  lemma EmptyBracketsNested(tokens: seq<Token>, pos: nat, nest: int, s: State, u: Tree)
    requires Proper(u) && pos + |Render(u)| + 3 <= |tokens|
    requires tokens[pos] == Open && tokens[pos + 1..pos + 1 + |Render(u)|] == Render(u)
    requires tokens[pos + 1 + |Render(u)|] == Open && tokens[pos + 2 + |Render(u)|] == Close
    ensures Loop(tokens, pos, nest, s) == Continue(tokens, pos + |Render(u)| + 3, nest + 1, AddOperand(s, Group(u)))
  {
    hide Proper, Render, Fold, AddOperand;
    var n := |Render(u)|;
    Complete(tokens, pos + 1, nest + 1, [], u);
    FoldSpine([], u);
    FoldNone(u);
    EmptyBracketsEnd(tokens, pos + 1 + n, nest + 1, Read([], u));
    assert Loop(tokens, pos + 1, nest + 1, START) == Parsed(Some(u), pos + n + 3, nest + 1);
  }

  lemma FoldNone(t: Tree)
    ensures Fold([], t) == t
  {
  }

  // ---- which operator binds more tightly ----

  /** All ORs of a tree belong to one syntax. */
  predicate OneSyntax(t: Tree, tight: bool) {
    match t
    case Leaf(_) => true
    case Group(u) => OneSyntax(u, tight)
    case Binary(op, _, l, r) => (op.Or? ==> op.tight == tight) && OneSyntax(l, tight) && OneSyntax(r, tight)
  }

  predicate TokensOf(tokens: seq<Token>, tight: bool) {
    forall i :: 0 <= i < |tokens| ==> tokens[i].Operator? && tokens[i].op.Or? ==> tokens[i].op.tight == tight
  }

  predicate SpineSyntax(spine: seq<Frame>, tight: bool) {
    forall i :: 0 <= i < |spine| ==> (spine[i].op.Or? ==> spine[i].op.tight == tight) && OneSyntax(spine[i].left, tight)
  }

  predicate StateSyntax(s: State, tight: bool) {
    SpineSyntax(s.spine, tight) && (s.last.Some? ==> OneSyntax(s.last.value, tight))
  }

  lemma {:induction false} FoldSyntax(spine: seq<Frame>, t: Tree, tight: bool)
    requires SpineSyntax(spine, tight) && OneSyntax(t, tight)
    ensures OneSyntax(Fold(spine, t), tight)
  {
    if spine != [] {
      var f := spine[|spine| - 1];
      FoldSyntax(spine[..|spine| - 1], Binary(f.op, f.implicit, f.left, t), tight);
    }
  }

  lemma {:induction false} InsertSyntax(spine: seq<Frame>, split: Tree, op: Op, implicit: bool, tight: bool)
    requires SpineSyntax(spine, tight) && OneSyntax(split, tight) && (op.Or? ==> op.tight == tight)
    ensures SpineSyntax(Insert(spine, split, op, implicit), tight)
  {
    if spine != [] && Precedence(spine[|spine| - 1].op) <= Precedence(op) {
      var f := spine[|spine| - 1];
      InsertSyntax(spine[..|spine| - 1], Binary(f.op, f.implicit, f.left, split), op, implicit, tight);
    }
  }

  lemma {:induction false} LoopSyntax(tokens: seq<Token>, pos: nat, nest: int, s: State, tight: bool)
    requires pos <= |tokens| && TokensOf(tokens, tight) && StateSyntax(s, tight)
    ensures var r := Loop(tokens, pos, nest, s); r.Parsed? && r.tree.Some? ==> OneSyntax(r.tree.value, tight)
    decreases |tokens| - pos
  {
    hide Insert, Fold, OneSyntax, SpineSyntax;
    if s.last.Some? {
      FoldSyntax(s.spine, s.last.value, tight);
      InsertSyntax(s.spine, s.last.value, And, true, tight);
    }
    if pos < |tokens| {
      match tokens[pos]
      case Close =>
      case Phrase(id) =>
        LeafSyntax(id, tight);
        var next := AddOperand(s, Leaf(id));
        if next.Some? { LoopSyntax(tokens, pos + 1, nest, next.value, tight); }
      case Operator(op) =>
        var next := AddOperator(s, op);
        if next.Some? {
          InsertSyntax(s.spine, s.last.value, op, false, tight);
          LoopSyntax(tokens, pos + 1, nest, next.value, tight);
        }
      case Open =>
        StartSyntax(tight);
        LoopSyntax(tokens, pos + 1, nest + 1, START, tight);
        var r := Loop(tokens, pos + 1, nest + 1, START);
        if r.Parsed? && r.tree.Some? {
          GroupSyntax(r.tree.value, tight);
          var next := AddOperand(s, Group(r.tree.value));
          if next.Some? { LoopSyntax(tokens, r.pos, r.nest, next.value, tight); }
        }
    }
  }

  lemma LeafSyntax(id: nat, tight: bool)
    ensures OneSyntax(Leaf(id), tight)
  {
  }

  lemma GroupSyntax(t: Tree, tight: bool)
    ensures OneSyntax(Group(t), tight) == OneSyntax(t, tight)
  {
  }

  lemma StartSyntax(tight: bool)
    ensures StateSyntax(START, tight)
  {
  }

  /** Outside brackets the operand of an operator may only be of certain kinds: with
      parentheses NEAR binds most tightly, then NOT, AND and OR. */
  predicate Binds(t: Tree) {
    match t
    case Leaf(_) => true
    case Group(u) => Binds(u)
    case Binary(op, _, l, r) =>
      && Binds(l) && Binds(r)
      && (op.And? ==> !(l.Binary? && l.op.Or?) && !(r.Binary? && (r.op.Or? || r.op.And?)))
      && (op.Not? ==> !(l.Binary? && (l.op.And? || l.op.Or?)) && !(r.Binary? && !r.op.Near?))
      && (op.Near? ==> !(l.Binary? && !l.op.Near?) && !r.Binary?)
      && (op.Or? ==> !(r.Binary? && r.op.Or?))
  }

  /** Without parentheses NEAR binds most tightly, then OR and AND. */
  predicate OldBinds(t: Tree) {
    match t
    case Leaf(_) => true
    case Group(u) => OldBinds(u)
    case Binary(op, _, l, r) =>
      && OldBinds(l) && OldBinds(r)
      && (op.Or? ==> !(l.Binary? && l.op.And?) && !(r.Binary? && (r.op.Or? || r.op.And?)))
      && (op.Near? ==> !(l.Binary? && !l.op.Near?) && !r.Binary?)
      && (op.And? ==> !(r.Binary? && r.op.And?))
  }

  lemma {:induction false} GroupedBinds(t: Tree, tight: bool)
    requires Grouped(t) && OneSyntax(t, tight)
    ensures if tight then OldBinds(t) else Binds(t)
  {
    match t
    case Leaf(_) =>
    case Group(u) => GroupedBinds(u, tight);
    case Binary(_, _, l, r) => GroupedBinds(l, tight); GroupedBinds(r, tight);
  }

  /** In every tree the parser returns, the operators are grouped in this way, and
      those of one kind from the left. */
  lemma ParsedBinds(tokens: seq<Token>, tight: bool)
    requires TokensOf(tokens, tight) && ParseQuery(tokens).Parsed? && ParseQuery(tokens).tree.Some?
    ensures var t := ParseQuery(tokens).tree.value; if tight then OldBinds(t) else Binds(t)
  {
    hide Loop, Binds, OldBinds;
    StartOk();
    StartSyntax(tight);
    Sound(tokens, 0, 0, START);
    LoopSyntax(tokens, 0, 0, START, tight);
    GroupedBinds(ParseQuery(tokens).tree.value, tight);
  }

  function Three(a: nat, op1: Op, b: nat, op2: Op, c: nat): seq<Token> {
    [Phrase(a), Operator(op1), Phrase(b), Operator(op2), Phrase(c)]
  }

  /** Three phrases, two operators: `(a op1 b) op2 c`, or `a op1 (b op2 c)`. */
  function FirstTwo(a: nat, op1: Op, b: nat, op2: Op, c: nat): Tree {
    Binary(op2, false, Binary(op1, false, Leaf(a), Leaf(b)), Leaf(c))
  }

  function LastTwo(a: nat, op1: Op, b: nat, op2: Op, c: nat): Tree {
    Binary(op1, false, Leaf(a), Binary(op2, false, Leaf(b), Leaf(c)))
  }

  lemma ThreeText(a: nat, op1: Op, b: nat, op2: Op, c: nat)
    ensures Render(FirstTwo(a, op1, b, op2, c)) == Three(a, op1, b, op2, c) == Render(LastTwo(a, op1, b, op2, c))
  {
    var l, r := Binary(op1, false, Leaf(a), Leaf(b)), Binary(op2, false, Leaf(b), Leaf(c));
    assert Render(l) == [Phrase(a)] + [Operator(op1)] + [Phrase(b)];
    assert Render(r) == [Phrase(b)] + [Operator(op2)] + [Phrase(c)];
    assert Render(FirstTwo(a, op1, b, op2, c)) == Render(l) + [Operator(op2)] + [Phrase(c)];
    assert Render(LastTwo(a, op1, b, op2, c)) == [Phrase(a)] + [Operator(op1)] + Render(r);
  }

  lemma ThreeParsed(t: Tree, a: nat, op1: Op, b: nat, op2: Op, c: nat)
    requires Proper(t) && (t == FirstTwo(a, op1, b, op2, c) || t == LastTwo(a, op1, b, op2, c))
    ensures ParseQuery(Three(a, op1, b, op2, c)) == Parsed(Some(t), 5, 0)
  {
    hide Render, Proper, Loop;
    ThreeText(a, op1, b, op2, c);
    RoundTrip(t);
  }

  /** AND before OR, NOT before AND, NEAR before NOT, in either order; and equal
      operators from the left. */
  lemma ThreePhrases(a: nat, b: nat, c: nat, n: nat)
    ensures ParseQuery(Three(a, And, b, Or(false), c)) == Parsed(Some(Binary(Or(false), false, Binary(And, false, Leaf(a), Leaf(b)), Leaf(c))), 5, 0)
    ensures ParseQuery(Three(a, Or(false), b, And, c)) == Parsed(Some(Binary(Or(false), false, Leaf(a), Binary(And, false, Leaf(b), Leaf(c)))), 5, 0)
    ensures ParseQuery(Three(a, Not, b, And, c)) == Parsed(Some(Binary(And, false, Binary(Not, false, Leaf(a), Leaf(b)), Leaf(c))), 5, 0)
    ensures ParseQuery(Three(a, And, b, Not, c)) == Parsed(Some(Binary(And, false, Leaf(a), Binary(Not, false, Leaf(b), Leaf(c)))), 5, 0)
    ensures ParseQuery(Three(a, Near(n), b, Not, c)) == Parsed(Some(Binary(Not, false, Binary(Near(n), false, Leaf(a), Leaf(b)), Leaf(c))), 5, 0)
    ensures ParseQuery(Three(a, Not, b, Near(n), c)) == Parsed(Some(Binary(Not, false, Leaf(a), Binary(Near(n), false, Leaf(b), Leaf(c)))), 5, 0)
    ensures ParseQuery(Three(a, Not, b, Not, c)) == Parsed(Some(Binary(Not, false, Binary(Not, false, Leaf(a), Leaf(b)), Leaf(c))), 5, 0)
  {
    hide Loop, ParseQuery;
    ThreeProper(a, b, c, n);
    hide Proper;
    ThreeParsed(FirstTwo(a, And, b, Or(false), c), a, And, b, Or(false), c);
    ThreeParsed(LastTwo(a, Or(false), b, And, c), a, Or(false), b, And, c);
    ThreeParsed(FirstTwo(a, Not, b, And, c), a, Not, b, And, c);
    ThreeParsed(LastTwo(a, And, b, Not, c), a, And, b, Not, c);
    ThreeParsed(FirstTwo(a, Near(n), b, Not, c), a, Near(n), b, Not, c);
    ThreeParsed(LastTwo(a, Not, b, Near(n), c), a, Not, b, Near(n), c);
    ThreeParsed(FirstTwo(a, Not, b, Not, c), a, Not, b, Not, c);
  }

  lemma ThreeProper(a: nat, b: nat, c: nat, n: nat)
    ensures Proper(FirstTwo(a, And, b, Or(false), c)) && Proper(LastTwo(a, Or(false), b, And, c))
    ensures Proper(FirstTwo(a, Not, b, And, c)) && Proper(LastTwo(a, And, b, Not, c))
    ensures Proper(FirstTwo(a, Near(n), b, Not, c)) && Proper(LastTwo(a, Not, b, Near(n), c)) && Proper(FirstTwo(a, Not, b, Not, c))
  {
    forall x, y, op: Op ensures Proper(Binary(op, false, Leaf(x), Leaf(y))) {
      LeafProper(x);
      LeafProper(y);
    }
  }

  /** A bracketed operator is no operand of a NEAR, on either side. */
  lemma NearNeedsPhrase(a: nat, n: nat, u: Tree)
    requires Proper(u) && u.Binary?
    ensures ParseQuery([Phrase(a), Operator(Near(n))] + Render(Group(u))) == Error
    ensures ParseQuery(Render(Group(u)) + [Operator(Near(n)), Phrase(a)]) == Error
  {
    NotOnTheRight(a, n, u);
    NotOnTheLeft(a, n, u);
  }

  lemma NotOnTheRight(a: nat, n: nat, u: Tree)
    requires Proper(u) && u.Binary?
    ensures ParseQuery([Phrase(a), Operator(Near(n))] + Render(Group(u))) == Error
  {
    var g, k := Render(Group(u)), |Render(u)| + 2;
    assert |g| == k;
    hide Proper, Render;
    var tokens := [Phrase(a), Operator(Near(n))] + g;
    var one, two := State([], Some(Leaf(a))), State([Frame(Near(n), false, Leaf(a))], None);
    assert tokens[2..] == g && tokens[2..2 + k] == g;
    assert !IsPhrase(u) && !IsPhrase(Group(u));
    GroupRead(tokens, 2, 0, two, u);
    assert AddOperand(two, Group(u)) == None;
    assert Loop(tokens, 2, 0, two) == Error;
    assert AddOperand(START, Leaf(a)) == Some(one);
    assert Insert([], Leaf(a), Near(n), false) == two.spine;
    assert AddOperator(one, Near(n)) == Some(two);
    assert tokens[0] == Phrase(a) && tokens[1] == Operator(Near(n));
    assert Loop(tokens, 1, 0, one) == Loop(tokens, 2, 0, two);
    assert Loop(tokens, 0, 0, START) == Loop(tokens, 1, 0, one);
    assert ParseQuery(tokens) == Error;
  }

  lemma NotOnTheLeft(a: nat, n: nat, u: Tree)
    requires Proper(u) && u.Binary?
    ensures ParseQuery(Render(Group(u)) + [Operator(Near(n)), Phrase(a)]) == Error
  {
    var g, k := Render(Group(u)), |Render(u)| + 2;
    assert |g| == k;
    hide Proper, Render;
    var tokens := g + [Operator(Near(n)), Phrase(a)];
    assert tokens[0..0 + k] == g && tokens[k] == Operator(Near(n));
    assert !IsPhrase(u) && !IsPhrase(Group(u));
    GroupRead(tokens, 0, 0, START, u);
    assert AddOperand(START, Group(u)) == Some(State([], Some(Group(u))));
    assert AddOperator(State([], Some(Group(u))), Near(n)) == None;
    assert Loop(tokens, k, 0, State([], Some(Group(u)))) == Error;
    assert Loop(tokens, 0, 0, START) == Error;
    assert ParseQuery(tokens) == Error;
  }
}

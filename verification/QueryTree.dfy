/** The query tree as linked nodes: new operators are spliced into its right
    spine by climbing parent pointers. */
module QueryTree {
  import opened QueryParser

  datatype Kind = PhraseNode(id: nat) | OperatorNode(op: Op, implicit: bool)

  class Node {
    const kind: Kind
    var pLeft: Node?
    var pRight: Node?
    var pParent: Node?

    constructor (kind: Kind)
      ensures this.kind == kind && pLeft == null && pRight == null && pParent == null
    {
      this.kind, pLeft, pRight, pParent := kind, null, null, null;
    }
  }

  // ---- trees of nodes ----

  /** A tree together with the nodes it is made of. */
  datatype Shape = LeafAt(n: Node, id: nat) | GroupAt(inner: Shape) | BinaryAt(n: Node, op: Op, implicit: bool, left: Shape, right: Shape)

  ghost function Erase(s: Shape): Tree {
    match s
    case LeafAt(_, id) => Leaf(id)
    case GroupAt(u) => Group(Erase(u))
    case BinaryAt(_, op, implicit, l, r) => Binary(op, implicit, Erase(l), Erase(r))
  }

  ghost function Root(s: Shape): (n: Node)
    ensures n in Nodes(s)
  {
    match s
    case LeafAt(n, _) => n
    case GroupAt(u) => Root(u)
    case BinaryAt(n, _, _, _, _) => n
  }

  ghost function Nodes(s: Shape): set<Node> {
    match s
    case LeafAt(n, _) => {n}
    case GroupAt(u) => Nodes(u)
    case BinaryAt(n, _, _, l, r) => {n} + Nodes(l) + Nodes(r)
  }

  /** No node occurs twice. */
  ghost predicate Apart(s: Shape) {
    match s
    case LeafAt(_, _) => true
    case GroupAt(u) => Apart(u)
    case BinaryAt(n, _, _, l, r) => n !in Nodes(l) && n !in Nodes(r) && Nodes(l) !! Nodes(r) && Apart(l) && Apart(r)
  }

  /** The pointers downwards, and upwards below the root, are as the shape says. */
  ghost predicate Shaped(s: Shape)
    reads Nodes(s)`pLeft, Nodes(s)`pRight, (Nodes(s) - {Root(s)})`pParent
  {
    match s
    case LeafAt(n, id) => n.kind == PhraseNode(id) && n.pLeft == null && n.pRight == null
    case GroupAt(u) => Shaped(u)
    case BinaryAt(n, op, implicit, l, r) =>
      && n.kind == OperatorNode(op, implicit) && n.pLeft == Root(l) && n.pRight == Root(r)
      && n !in Nodes(l) && n !in Nodes(r) && IsChild(n, l) && IsChild(n, r) && Shaped(l) && Shaped(r)
  }

  /** The root of a subtree points up to the node above it. */
  ghost predicate IsChild(n: Node, s: Shape)
    reads Root(s)`pParent
  {
    Root(s).pParent == n
  }

  /** The type of the root node tells a phrase from an operator. */
  lemma {:induction false} RootKind(s: Shape)
    requires Shaped(s)
    ensures Root(s).kind.PhraseNode? <==> IsPhrase(Erase(s))
    ensures Root(s).kind.PhraseNode? || Root(s).pLeft != null
  {
    match s
    case LeafAt(_, _) =>
    case GroupAt(u) => RootKind(u);
    case BinaryAt(_, _, _, _, _) =>
  }

  // ---- the tree under construction ----

  /** An operator node on the right spine. */
  datatype Step = Step(n: Node, op: Op, implicit: bool, left: Shape)

  datatype Build = Build(spine: seq<Step>, last: Option<Shape>)

  ghost function EraseSpine(spine: seq<Step>): (r: seq<Frame>)
    ensures |r| == |spine|
  {
    seq(|spine|, i requires 0 <= i < |spine| => Frame(spine[i].op, spine[i].implicit, Erase(spine[i].left)))
  }

  ghost function EraseBuild(b: Build): State {
    State(EraseSpine(b.spine), match b.last { case None => None case Some(s) => Some(Erase(s)) })
  }

  /** The nodes along the spine, then the root of the last operand. */
  ghost function Along(b: Build, i: int): Node? {
    if 0 <= i < |b.spine| then b.spine[i].n
    else if i == |b.spine| && b.last.Some? then Root(b.last.value)
    else null
  }

  ghost function StepNodes(s: Step): set<Node> {
    {s.n} + Nodes(s.left)
  }

  ghost function LastNodes(b: Build): set<Node> {
    if b.last.Some? then Nodes(b.last.value) else {}
  }

  ghost predicate BuildApart(b: Build) {
    && (forall i :: 0 <= i < |b.spine| ==> b.spine[i].n !in Nodes(b.spine[i].left) && Apart(b.spine[i].left) && StepNodes(b.spine[i]) !! LastNodes(b))
    && (forall i, j :: 0 <= i < j < |b.spine| ==> StepNodes(b.spine[i]) !! StepNodes(b.spine[j]))
    && (b.last.Some? ==> Apart(b.last.value))
  }

  ghost function BuildNodes(b: Build): set<Node> {
    (set i, n | 0 <= i < |b.spine| && n in StepNodes(b.spine[i]) :: n) + LastNodes(b)
  }

  /** One spine node and its finished left operand. */
  ghost predicate StepLinked(b: Build, i: nat)
    requires i < |b.spine|
    reads b.spine[i].n`pLeft, b.spine[i].n`pRight, Nodes(b.spine[i].left)`pLeft, Nodes(b.spine[i].left)`pRight, Nodes(b.spine[i].left)`pParent
  {
    var s := b.spine[i];
    && s.n.kind == OperatorNode(s.op, s.implicit) && s.n.pLeft == Root(s.left) && Shaped(s.left)
    && s.n !in Nodes(s.left) && IsChild(s.n, s.left)
    && s.n.pRight == Along(b, i + 1)
  }

  /** The spine is linked downwards and upwards. */
  ghost predicate Linked(b: Build, head: Node?)
    reads BuildNodes(b)
  {
    && head == Along(b, 0)
    && (forall i :: 0 <= i < |b.spine| ==> StepIn(b, i) && StepLinked(b, i))
    && (b.last.Some? ==> Shaped(b.last.value))
    && (forall i :: 0 <= i <= |b.spine| ==> UpLinked(b, i))
  }

  ghost predicate StepIn(b: Build, i: nat)
    requires i < |b.spine|
  {
    StepNodes(b.spine[i]) <= BuildNodes(b)
  }

  ghost predicate UpLinked(b: Build, i: nat)
    reads BuildNodes(b)
  {
    var n := Along(b, i);
    n != null ==> n in BuildNodes(b) && n.pParent == if i == 0 then null else Along(b, i - 1)
  }

  // ---- finished parts ----

  /** The subtree from spine position `k` down. */
  ghost function Folded(b: Build, k: nat): Shape
    requires b.last.Some? && k <= |b.spine|
    decreases |b.spine| - k
  {
    if k == |b.spine| then b.last.value
    else BinaryAt(b.spine[k].n, b.spine[k].op, b.spine[k].implicit, b.spine[k].left, Folded(b, k + 1))
  }

  lemma {:induction false} FoldedRoot(b: Build, k: nat)
    requires b.last.Some? && k <= |b.spine|
    ensures Root(Folded(b, k)) == Along(b, k)
  {
  }

  lemma StepIsIn(b: Build, i: nat)
    requires i < |b.spine|
    ensures StepNodes(b.spine[i]) <= BuildNodes(b)
  {
  }

  lemma {:induction false} FoldedNodes(b: Build, k: nat)
    requires BuildApart(b) && b.last.Some? && k <= |b.spine|
    ensures Nodes(Folded(b, k)) <= BuildNodes(b) && Apart(Folded(b, k))
    ensures forall i :: 0 <= i < k ==> StepNodes(b.spine[i]) !! Nodes(Folded(b, k))
    decreases |b.spine| - k
  {
    hide BuildNodes;
    if k < |b.spine| {
      FoldedNodes(b, k + 1);
      StepIsIn(b, k);
      assert Nodes(Folded(b, k)) == StepNodes(b.spine[k]) + Nodes(Folded(b, k + 1));
    } else {
      LastIsIn(b);
    }
  }

  lemma LastIsIn(b: Build)
    ensures LastNodes(b) <= BuildNodes(b)
  {
  }

  lemma {:induction false} FoldedShaped(b: Build, k: nat, head: Node?)
    requires Linked(b, head) && BuildApart(b) && b.last.Some? && k <= |b.spine|
    ensures Shaped(Folded(b, k))
    decreases |b.spine| - k
  {
    if k < |b.spine| {
      FoldedShaped(b, k + 1, head);
      FoldedRoot(b, k + 1);
      FoldedNodes(b, k + 1);
      hide BuildNodes, BuildApart;
      assert StepLinked(b, k) && UpLinked(b, k + 1);
      assert b.spine[k].n in StepNodes(b.spine[k]);
    }
  }

  lemma {:induction false} EraseFolded(b: Build, k: nat)
    requires b.last.Some? && k <= |b.spine|
    ensures Fold(EraseSpine(b.spine), Erase(b.last.value)) == Fold(EraseSpine(b.spine[..k]), Erase(Folded(b, k)))
    decreases |b.spine| - k
  {
    if k < |b.spine| {
      EraseFolded(b, k + 1);
      EraseMore(b.spine, k);
    } else {
      assert b.spine[..k] == b.spine;
    }
  }

  lemma EraseMore(spine: seq<Step>, k: nat)
    requires k < |spine|
    ensures var f := EraseSpine(spine[..k + 1]);
            |f| == k + 1 && f[..k] == EraseSpine(spine[..k]) && f[k] == Frame(spine[k].op, spine[k].implicit, Erase(spine[k].left))
  {
  }

  // ---- inserting an operator ----

  /** What inserting before position `k` makes of the tree. */
  ghost function Spliced(b: Build, k: nat, n: Node): Build
    requires b.last.Some? && k <= |b.spine| && n.kind.OperatorNode?
  {
    Build(b.spine[..k] + [Step(n, n.kind.op, n.kind.implicit, Folded(b, k))], None)
  }

  lemma SplicedApart(b: Build, k: nat, n: Node)
    requires BuildApart(b) && b.last.Some? && k <= |b.spine| && n.kind.OperatorNode? && n !in BuildNodes(b)
    ensures BuildApart(Spliced(b, k, n)) && BuildNodes(Spliced(b, k, n)) <= BuildNodes(b) + {n}
  {
    FoldedNodes(b, k);
    var r := Spliced(b, k, n);
    forall i | 0 <= i < |r.spine| ensures StepNodes(r.spine[i]) <= BuildNodes(b) + {n} {
      if i < k {
        StepIsIn(b, i);
        assert r.spine[i] == b.spine[i];
      }
    }
    forall i, j | 0 <= i < j < |r.spine| ensures StepNodes(r.spine[i]) !! StepNodes(r.spine[j]) {
      StepIsIn(b, i);
      assert r.spine[i] == b.spine[i];
      if j < k { assert r.spine[j] == b.spine[j]; }
    }
  }

  /** A spine node's own kind and finished left operand. */
  ghost predicate LeftLinked(s: Step)
    reads s.n`pLeft, Nodes(s.left)`pLeft, Nodes(s.left)`pRight, Nodes(s.left)`pParent
  {
    && s.n.kind == OperatorNode(s.op, s.implicit) && s.n.pLeft == Root(s.left) && Shaped(s.left)
    && s.n !in Nodes(s.left) && IsChild(s.n, s.left)
  }

  /** The new pointers, given that nothing else has changed. */
  lemma SplicedLinked(b: Build, k: nat, n: Node, head: Node?)
    requires b.last.Some? && k <= |b.spine| && n.kind.OperatorNode?
    requires head == if k == 0 then n else Along(b, 0)
    requires Shaped(Folded(b, k)) && n !in Nodes(Folded(b, k)) && n.pLeft == Along(b, k) && Along(b, k).pParent == n && n.pRight == null
    requires forall i :: 0 <= i < k ==> LeftLinked(b.spine[i])
    requires forall i :: 0 <= i < k ==> b.spine[i].n.pRight == if i == k - 1 then n else Along(b, i + 1)
    requires forall i :: 0 <= i < k ==> b.spine[i].n.pParent == Along(b, i - 1)
    requires n.pParent == Along(b, k - 1)
    ensures Linked(Spliced(b, k, n), head)
  {
    var r := Spliced(b, k, n);
    FoldedRoot(b, k);
    hide BuildNodes, Shaped, Nodes, LeftLinked, StepLinked, Root, Folded;
    forall i | 0 <= i < |r.spine| ensures StepIn(r, i) && StepLinked(r, i) {
      StepIsIn(r, i);
      if i < k { SpliceKeeps(b, k, n, i); } else { SpliceNew(b, k, n); }
    }
    forall i | 0 <= i <= |r.spine| ensures UpLinked(r, i) {
      if i < |r.spine| {
        StepIsIn(r, i);
        assert r.spine[i].n == if i < k then b.spine[i].n else n;
      }
    }
  }

  lemma SpliceKeeps(b: Build, k: nat, n: Node, i: nat)
    requires b.last.Some? && i < k <= |b.spine| && n.kind.OperatorNode? && LeftLinked(b.spine[i])
    requires b.spine[i].n.pRight == if i == k - 1 then n else Along(b, i + 1)
    ensures StepLinked(Spliced(b, k, n), i)
  {
    hide Shaped, Nodes, Root, Folded;
  }

  lemma SpliceNew(b: Build, k: nat, n: Node)
    requires b.last.Some? && k <= |b.spine| && n.kind.OperatorNode? && Shaped(Folded(b, k)) && n.pLeft == Root(Folded(b, k)) && n.pRight == null
    requires n !in Nodes(Folded(b, k)) && IsChild(n, Folded(b, k))
    ensures StepLinked(Spliced(b, k, n), k)
  {
    hide Shaped, Nodes, Root, Folded;
  }

  /** Inserts an operator after the node inserted last: climbs past every operator
      that binds at least as tightly and takes the subtree there as its left
      operand. */
  method InsertBinaryOperator(head: Node, pPrev: Node, pNew: Node, ghost b: Build, ghost all: set<Node>) returns (newHead: Node, ghost r: Build)
    requires Linked(b, head) && BuildApart(b) && b.last.Some? && pPrev == Root(b.last.value) && BuildNodes(b) <= all
    requires pNew !in BuildNodes(b) && pNew.kind.OperatorNode? && pNew.pRight == null && pNew.pParent == null
    modifies BuildNodes(b)`pRight, BuildNodes(b)`pParent, pNew`pLeft, pNew`pParent
    ensures Linked(r, newHead) && BuildApart(r) && BuildNodes(r) <= BuildNodes(b) + {pNew}
    ensures EraseBuild(r) == State(Insert(EraseSpine(b.spine), Erase(b.last.value), pNew.kind.op, pNew.kind.implicit), None)
    ensures r.last == None && r.spine != [] && r.spine[|r.spine| - 1].n == pNew
  {
    hide BuildApart, BuildNodes, Insert, Erase, Linked;
    var pSplit := pPrev;
    ghost var k: nat := |b.spine|;
    assert b.spine[..k] == b.spine;
    ghost var op, implicit := pNew.kind.op, pNew.kind.implicit;
    ParentOf(b, head, k);
    while pSplit.pParent != null && Precedence(pSplit.pParent.kind.op) <= Precedence(pNew.kind.op)
      invariant 0 <= k <= |b.spine| && pSplit == Along(b, k) && Parent(b, k) && Linked(b, head)
      invariant Insert(EraseSpine(b.spine[..k]), Erase(Folded(b, k)), op, implicit) == Insert(EraseSpine(b.spine), Erase(b.last.value), op, implicit)
      decreases k
      modifies {}
    {
      ParentOf(b, head, k - 1);
      ClimbStep(b, k - 1, op, implicit);
      pSplit := pSplit.pParent;
      k := k - 1;
    }
    newHead, r := Splice(head, pSplit, pNew, b, k, all);
    InsertStops(EraseSpine(b.spine[..k]), Erase(Folded(b, k)), op, implicit);
    SplicedErases(b, k, pNew);
  }

  /** Puts the operator above the subtree at spine position `k`. */
  method Splice(head: Node, pSplit: Node, pNew: Node, ghost b: Build, ghost k: nat, ghost all: set<Node>) returns (newHead: Node, ghost r: Build)
    requires Linked(b, head) && BuildApart(b) && b.last.Some? && k <= |b.spine| && pSplit == Along(b, k) && BuildNodes(b) <= all
    requires pNew !in BuildNodes(b) && pNew.kind.OperatorNode? && pNew.pRight == null && pNew.pParent == null
    modifies BuildNodes(b)`pRight, BuildNodes(b)`pParent, pNew`pLeft, pNew`pParent
    ensures r == Spliced(b, k, pNew) && Linked(r, newHead) && BuildApart(r) && BuildNodes(r) <= BuildNodes(b) + {pNew}
  {
    hide BuildApart, BuildNodes, Linked, Shaped, Nodes, Root, LeftLinked, Folded, Spliced;
    r := Spliced(b, k, pNew);
    SplicedApart(b, k, pNew);
    ParentOf(b, head, k);
    SeparateNodes(b, k);
    SeparateLinks(b, k, head);
    newHead := Relink(head, pSplit, pNew);
    assert Shaped(Folded(b, k));
    forall i | 0 <= i < k ensures LeftLinked(b.spine[i]) {
      assert b.spine[k - 1].n !in Nodes(b.spine[i].left);
    }
    SplicedLinked(b, k, pNew, newHead);
  }

  /** The pointer changes themselves. */
  method Relink(head: Node, pSplit: Node, pNew: Node) returns (newHead: Node)
    requires pNew != pSplit && pNew != pSplit.pParent && pSplit != pSplit.pParent && pNew.pParent == null
    modifies (if pSplit.pParent == null then {} else {pSplit.pParent})`pRight, pNew`pLeft, pNew`pParent, pSplit`pParent
    ensures newHead == if old(pSplit.pParent) == null then pNew else head
    ensures old(pSplit.pParent) != null ==> old(pSplit.pParent).pRight == pNew
    ensures pNew.pParent == old(pSplit.pParent) && pNew.pLeft == pSplit && pSplit.pParent == pNew
  {
    newHead := head;
    if pSplit.pParent != null {
      pSplit.pParent.pRight := pNew;
      pNew.pParent := pSplit.pParent;
    } else {
      newHead := pNew;
    }
    pNew.pLeft := pSplit;
    pSplit.pParent := pNew;
  }

  ghost predicate Parent(b: Build, k: nat)
    reads (if Along(b, k) == null then {} else {Along(b, k)})
  {
    k <= |b.spine| && (Along(b, k) != null ==> Along(b, k).pParent == Along(b, k - 1))
    && (k > 0 ==> b.spine[k - 1].n.kind == OperatorNode(b.spine[k - 1].op, b.spine[k - 1].implicit))
  }

  lemma ParentOf(b: Build, head: Node?, k: nat)
    requires Linked(b, head) && k <= |b.spine|
    ensures Parent(b, k) && (Along(b, k) != null ==> Along(b, k) in BuildNodes(b))
  {
    assert UpLinked(b, k);
    if k > 0 { assert StepLinked(b, k - 1); }
  }

  /** The nodes the splice writes to are not part of what must stay. */
  lemma SeparateNodes(b: Build, k: nat)
    requires BuildApart(b) && b.last.Some? && k <= |b.spine|
    ensures Nodes(Folded(b, k)) <= BuildNodes(b) && Root(Folded(b, k)) == Along(b, k)
    ensures forall i :: 0 <= i < k ==> b.spine[i].n !in Nodes(Folded(b, k)) && b.spine[i].n in BuildNodes(b) && b.spine[i].n != Along(b, k)
    ensures forall i :: 0 <= i < k ==> Along(b, k) !in Nodes(b.spine[i].left)
    ensures forall i, j :: 0 <= i < k && 0 <= j < k ==> b.spine[i].n !in Nodes(b.spine[j].left)
    ensures forall i, j :: 0 <= i < j < k ==> b.spine[i].n != b.spine[j].n
    ensures forall i :: 0 <= i < k ==> Nodes(b.spine[i].left) <= BuildNodes(b)
  {
    FoldedNodes(b, k);
    FoldedRoot(b, k);
    OpenNodes(b);
    hide BuildNodes, Folded, Apart, BuildApart;
    forall i | 0 <= i < k ensures StepNodes(b.spine[i]) <= BuildNodes(b) {
      StepIsIn(b, i);
    }
  }

  lemma SeparateLinks(b: Build, k: nat, head: Node?)
    requires Linked(b, head) && BuildApart(b) && b.last.Some? && k <= |b.spine|
    ensures head == Along(b, 0) && Shaped(Folded(b, k))
    ensures forall i :: 0 <= i < k ==> LeftLinked(b.spine[i])
    ensures forall i :: 0 <= i < k ==> b.spine[i].n.pRight == Along(b, i + 1) && b.spine[i].n.pParent == Along(b, i - 1)
  {
    FoldedShaped(b, k, head);
    hide BuildNodes, Folded, Shaped;
    forall i | 0 <= i < k
      ensures LeftLinked(b.spine[i]) && b.spine[i].n.pRight == Along(b, i + 1) && b.spine[i].n.pParent == Along(b, i - 1)
    {
      assert StepLinked(b, i) && UpLinked(b, i);
    }
  }

  lemma InsertStops(spine: seq<Frame>, split: Tree, op: Op, implicit: bool)
    requires spine != [] ==> Precedence(op) < Precedence(spine[|spine| - 1].op)
    ensures Insert(spine, split, op, implicit) == spine + [Frame(op, implicit, split)]
  {
  }

  lemma SplicedErases(b: Build, k: nat, n: Node)
    requires b.last.Some? && k <= |b.spine| && n.kind.OperatorNode?
    ensures EraseBuild(Spliced(b, k, n)) == State(EraseSpine(b.spine[..k]) + [Frame(n.kind.op, n.kind.implicit, Erase(Folded(b, k)))], None)
  {
  }

  lemma ClimbStep(b: Build, k: nat, op: Op, implicit: bool)
    requires b.last.Some? && k < |b.spine| && Precedence(b.spine[k].op) <= Precedence(op)
    ensures Insert(EraseSpine(b.spine[..k + 1]), Erase(Folded(b, k + 1)), op, implicit) == Insert(EraseSpine(b.spine[..k]), Erase(Folded(b, k)), op, implicit)
  {
    EraseMore(b.spine, k);
  }

  // ---- attaching an operand ----

  lemma AttachedApart(b: Build, s: Shape)
    requires BuildApart(b) && b.last == None && Apart(s) && Nodes(s) !! BuildNodes(b)
    ensures BuildApart(Build(b.spine, Some(s))) && BuildNodes(Build(b.spine, Some(s))) <= BuildNodes(b) + Nodes(s)
  {
    forall i | 0 <= i < |b.spine| ensures StepNodes(b.spine[i]) <= BuildNodes(b) {
      StepIsIn(b, i);
    }
  }

  lemma AttachedLinked(b: Build, s: Shape, head: Node?)
    requires b.last == None && Shaped(s)
    requires head == if b.spine == [] then Root(s) else b.spine[0].n
    requires forall i :: 0 <= i < |b.spine| ==> LeftLinked(b.spine[i])
    requires forall i :: 0 <= i < |b.spine| ==> b.spine[i].n.pRight == Along(Build(b.spine, Some(s)), i + 1)
    requires forall i :: 0 <= i < |b.spine| ==> b.spine[i].n.pParent == Along(b, i - 1)
    requires Root(s).pParent == Along(b, |b.spine| - 1)
    ensures Linked(Build(b.spine, Some(s)), head)
  {
    var r := Build(b.spine, Some(s));
    LastIsIn(r);
    hide BuildNodes, Shaped, Nodes, LeftLinked, StepLinked, Root;
    forall i | 0 <= i < |r.spine| ensures StepIn(r, i) && StepLinked(r, i) {
      StepIsIn(r, i);
      AttachStep(b, s, i);
    }
    forall i | 0 <= i <= |r.spine| ensures UpLinked(r, i) {
      if i < |r.spine| { StepIsIn(r, i); }
    }
  }

  lemma AttachStep(b: Build, s: Shape, i: nat)
    requires i < |b.spine| && b.last == None && LeftLinked(b.spine[i])
    requires b.spine[i].n.pRight == Along(Build(b.spine, Some(s)), i + 1)
    ensures StepLinked(Build(b.spine, Some(s)), i)
  {
    hide Shaped, Root, Nodes;
  }

  lemma OpenLinks(b: Build, head: Node?)
    requires Linked(b, head)
    ensures head == Along(b, 0)
    ensures forall i :: 0 <= i < |b.spine| ==> LeftLinked(b.spine[i]) && b.spine[i].n in BuildNodes(b)
    ensures forall i :: 0 <= i < |b.spine| ==> b.spine[i].n.pRight == Along(b, i + 1) && b.spine[i].n.pParent == Along(b, i - 1)
  {
    forall i | 0 <= i < |b.spine|
      ensures LeftLinked(b.spine[i]) && b.spine[i].n.pRight == Along(b, i + 1) && b.spine[i].n.pParent == Along(b, i - 1)
      ensures b.spine[i].n in BuildNodes(b)
    {
      assert StepLinked(b, i) && UpLinked(b, i) && StepIn(b, i);
    }
  }

  lemma OpenNodes(b: Build)
    requires BuildApart(b)
    ensures forall i, j :: 0 <= i < |b.spine| && 0 <= j < |b.spine| ==> b.spine[i].n !in Nodes(b.spine[j].left)
    ensures forall i, j :: 0 <= i < j < |b.spine| ==> b.spine[i].n != b.spine[j].n
  {
    hide BuildNodes, Apart;
    forall i, j | 0 <= i < |b.spine| && 0 <= j < |b.spine|
      ensures b.spine[i].n !in Nodes(b.spine[j].left) && (i < j ==> b.spine[i].n != b.spine[j].n)
    {
      if i < j {
        assert StepNodes(b.spine[i]) !! StepNodes(b.spine[j]);
      } else if j < i {
        assert StepNodes(b.spine[j]) !! StepNodes(b.spine[i]);
      }
    }
  }

  /** Makes an operand the right child of the operator inserted last, or the root. */
  method AttachOperand(head: Node?, pPrev: Node?, p: Node, ghost b: Build, ghost s: Shape) returns (newHead: Node)
    requires Linked(b, head) && BuildApart(b) && b.last == None && (b.spine != [] ==> pPrev == b.spine[|b.spine| - 1].n)
    requires p == Root(s) && Shaped(s) && Apart(s) && Nodes(s) !! BuildNodes(b) && p.pParent == null
    modifies BuildNodes(b)`pRight, p`pParent
    ensures var r := Build(b.spine, Some(s)); Linked(r, newHead) && BuildApart(r) && BuildNodes(r) <= BuildNodes(b) + Nodes(s)
  {
    hide BuildApart, BuildNodes, Linked, Shaped, Nodes, Root, LeftLinked, Apart;
    AttachedApart(b, s);
    OpenLinks(b, head);
    OpenNodes(b);
    AttachRoot(b, s);
    if head != null {
      pPrev.pRight := p;
      p.pParent := pPrev;
      newHead := head;
    } else {
      newHead := p;
    }
    forall i | 0 <= i < |b.spine| ensures LeftLinked(b.spine[i]) {
      assert pPrev !in Nodes(b.spine[i].left);
    }
    forall i | 0 <= i < |b.spine| ensures b.spine[i].n.pRight == Along(Build(b.spine, Some(s)), i + 1) {
      assert i < |b.spine| - 1 ==> b.spine[i].n != b.spine[|b.spine| - 1].n;
    }
    AttachedLinked(b, s, newHead);
  }

  lemma AttachRoot(b: Build, s: Shape)
    requires Nodes(s) !! BuildNodes(b)
    ensures Root(s) !in BuildNodes(b) && Root(s) in Nodes(s)
    ensures forall i :: 0 <= i < |b.spine| ==> b.spine[i].n !in Nodes(s) && b.spine[i].n != Root(s) && Root(s) !in Nodes(b.spine[i].left)
  {
    forall i | 0 <= i < |b.spine| ensures b.spine[i].n !in Nodes(s) && Root(s) !in Nodes(b.spine[i].left) {
      StepIsIn(b, i);
    }
  }

  // ---- the parser ----

  ghost function EraseTree(s: Option<Shape>): Option<Tree> {
    match s { case None => None case Some(u) => Some(Erase(u)) }
  }

  /** The node inserted last: an operand, an operator, or none. */
  ghost function LastInserted(b: Build): Node? {
    if b.last.Some? then Root(b.last.value) else if b.spine != [] then b.spine[|b.spine| - 1].n else null
  }

  /** A finished tree on its own. */
  ghost predicate Whole(root: Node?, s: Shape)
    reads Nodes(s)
  {
    root == Root(s) && root.pParent == null && Shaped(s) && Apart(s)
  }

  /** The tree under construction and the node inserted last. */
  ghost predicate Growing(b: Build, head: Node?, pPrev: Node?)
    reads BuildNodes(b)
  {
    Linked(b, head) && BuildApart(b) && pPrev == LastInserted(b)
  }

  lemma EmptyBuild()
    ensures Growing(Build([], None), null, null) && BuildNodes(Build([], None)) == {} && EraseBuild(Build([], None)) == START
  {
  }

  lemma LeafWhole(n: Node, id: nat)
    requires n.kind == PhraseNode(id) && n.pLeft == null && n.pRight == null && n.pParent == null
    ensures Whole(n, LeafAt(n, id)) && Nodes(LeafAt(n, id)) == {n} && Erase(LeafAt(n, id)) == Leaf(id)
  {
  }

  lemma GroupWhole(n: Node, s: Shape)
    requires Whole(n, s)
    ensures Whole(n, GroupAt(s)) && Nodes(GroupAt(s)) == Nodes(s) && Erase(GroupAt(s)) == Group(Erase(s))
  {
  }

  /** An operator from the input: an operand must precede it, a phrase if it is a
      NEAR. */
  method InsertOperator(head: Node?, pPrev: Node?, isRequirePhrase: bool, op: Op, ghost b: Build, ghost all: set<Node>)
    returns (added: bool, newHead: Node?, last: Node?, ghost r: Build)
    requires Growing(b, head, pPrev) && isRequirePhrase == b.last.None? && BuildNodes(b) <= all
    modifies BuildNodes(b)
    ensures added ==> Growing(r, newHead, last) && r.last == None && AddOperator(EraseBuild(b), op) == Some(EraseBuild(r))
    ensures added ==> forall n :: n in BuildNodes(r) ==> n in BuildNodes(b) || fresh(n)
    ensures !added ==> AddOperator(EraseBuild(b), op) == None
  {
    hide Linked, BuildApart, BuildNodes, Erase, Insert, Nodes, Root, Shaped, EraseSpine;
    added, newHead, last, r := false, null, null, b;
    if isRequirePhrase { return; }
    LastFacts(b, head);
    if op.Near? && !pPrev.kind.PhraseNode? { return; }
    var p := new Node(OperatorNode(op, false));
    newHead, r := InsertBinaryOperator(head, pPrev, p, b, all);
    added, last := true, p;
  }

  lemma LastFacts(b: Build, head: Node?)
    requires Linked(b, head) && b.last.Some?
    ensures head != null && (Root(b.last.value).kind.PhraseNode? <==> IsPhrase(Erase(b.last.value)))
  {
    RootKind(b.last.value);
  }

  /** An operand from the input: an AND is implied after another operand, and
      after a NEAR only a phrase will do. */
  method InsertOperand(head: Node?, pPrev: Node?, isRequirePhrase: bool, p: Node, ghost b: Build, ghost s: Shape, ghost all: set<Node>)
    returns (added: bool, newHead: Node?, ghost r: Build)
    requires Growing(b, head, pPrev) && isRequirePhrase == b.last.None? && Whole(p, s) && Nodes(s) !! BuildNodes(b)
    requires BuildNodes(b) <= all && Nodes(s) <= all
    modifies BuildNodes(b), Nodes(s)`pParent
    ensures added ==> Growing(r, newHead, p) && r.last == Some(s) && AddOperand(EraseBuild(b), Erase(s)) == Some(EraseBuild(r))
    ensures added ==> forall n :: n in BuildNodes(r) ==> n in BuildNodes(b) || n in Nodes(s) || fresh(n)
    ensures !added ==> AddOperand(EraseBuild(b), Erase(s)) == None
  {
    hide Linked, BuildApart, BuildNodes, Erase, Insert, Nodes, Root, Shaped, Apart, EraseSpine;
    added, newHead, r := false, head, b;
    var prev := pPrev;
    if !isRequirePhrase {
      LastFacts(b, head);
      var pAnd := new Node(OperatorNode(And, true));
      newHead, r := InsertBinaryOperator(head, pPrev, pAnd, b, all);
      prev := pAnd;
    }
    OperandFacts(r, newHead, s);
    if prev != null && prev.kind.op.Near? && !p.kind.PhraseNode? { return; }
    newHead := AttachOperand(newHead, prev, p, r, s);
    added, r := true, Build(r.spine, Some(s));
  }

  lemma OperandFacts(b: Build, head: Node?, s: Shape)
    requires Linked(b, head) && b.last == None && Shaped(s)
    ensures b.spine != [] ==> b.spine[|b.spine| - 1].n.kind == OperatorNode(b.spine[|b.spine| - 1].op, b.spine[|b.spine| - 1].implicit)
    ensures b.spine != [] ==> EraseSpine(b.spine)[|b.spine| - 1].op == b.spine[|b.spine| - 1].op
    ensures Root(s).kind.PhraseNode? <==> IsPhrase(Erase(s))
  {
    RootKind(s);
    if b.spine != [] { assert StepLinked(b, |b.spine| - 1); }
  }

  /** One token of the specification. */
  lemma LoopStep(tokens: seq<Token>, pos: nat, nest: int, s: State)
    requires pos <= |tokens|
    ensures pos == |tokens| ==> Loop(tokens, pos, nest, s) == Finish(s, pos, nest)
    ensures pos < |tokens| ==>
              Loop(tokens, pos, nest, s) ==
              match tokens[pos] {
                case Close => Finish(s, pos + 1, nest - 1)
                case Phrase(id) => Continue(tokens, pos + 1, nest, AddOperand(s, Leaf(id)))
                case Operator(op) => Continue(tokens, pos + 1, nest, AddOperator(s, op))
                case Open =>
                  var r := Loop(tokens, pos + 1, nest + 1, START);
                  if r.Error? then Error
                  else if r.tree.None? then Finish(s, r.pos, r.nest)
                  else Continue(tokens, r.pos, r.nest, AddOperand(s, Group(r.tree.value)))
              }
  {
  }

  /** A spine with an operand at its end is a whole tree. */
  lemma CloseBuild(b: Build, head: Node?, pos: nat, nest: int)
    requires Linked(b, head) && BuildApart(b) && b.last.Some?
    ensures Whole(head, Folded(b, 0)) && Nodes(Folded(b, 0)) <= BuildNodes(b)
    ensures Finish(EraseBuild(b), pos, nest) == Parsed(Some(Erase(Folded(b, 0))), pos, nest)
  {
    FoldedNodes(b, 0);
    FoldedShaped(b, 0, head);
    FoldedRoot(b, 0);
    EraseFolded(b, 0);
    assert UpLinked(b, 0);
    assert b.spine[..0] == [];
  }

  lemma HeadMeans(b: Build, head: Node?)
    requires Linked(b, head)
    ensures head == null <==> b.spine == [] && b.last == None
    ensures EraseBuild(b).spine == [] <==> b.spine == []
  {
  }

  class Parser {
    const tokens: seq<Token>
    var pos: nat
    var nNest: int

    constructor (tokens: seq<Token>)
      ensures this.tokens == tokens && pos == 0 && nNest == 0
    {
      this.tokens, pos, nNest := tokens, 0, 0;
    }

    /** Reads expressions until a closing bracket or the end of the input, and
        builds the tree of nodes. */
    method ExprParse() returns (ok: bool, root: Node?, ghost shape: Option<Shape>)
      requires pos <= |tokens|
      modifies this
      ensures ok ==> pos <= |tokens|
      ensures var r := Loop(tokens, old(pos), old(nNest), START);
              if ok then r == Parsed(EraseTree(shape), pos, nNest) else r == Error
      ensures ok && shape == None ==> root == null
      ensures ok && shape.Some? ==> Whole(root, shape.value) && fresh(Nodes(shape.value))
      decreases |tokens| - pos
    {
      hide Loop, Linked, BuildApart, BuildNodes, Erase, Insert, Nodes, Root, Shaped, Apart, Finish, EraseSpine, AddOperand, AddOperator;
      var head: Node?, pPrev: Node?, isRequirePhrase := null, null, true;
      ghost var b := Build([], None);
      ghost var all: set<Node> := {};
      EmptyBuild();
      while true
        invariant old(pos) <= pos <= |tokens| && Growing(b, head, pPrev) && isRequirePhrase == b.last.None?
        invariant BuildNodes(b) <= all && fresh(all)
        invariant Loop(tokens, old(pos), old(nNest), START) == Loop(tokens, pos, nNest, EraseBuild(b))
        decreases |tokens| - pos
      {
        LoopStep(tokens, pos, nNest, EraseBuild(b));
        if pos == |tokens| { break; }
        var token := tokens[pos];
        pos := pos + 1;
        if token.Close? {
          nNest := nNest - 1;
          break;
        } else if token.Operator? {
          var added, h, last;
          ghost var r;
          added, h, last, r := InsertOperator(head, pPrev, isRequirePhrase, token.op, b, all);
          if !added { return false, null, None; }
          head, pPrev, isRequirePhrase, b := h, last, true, r;
          all := all + BuildNodes(r);
        } else {
          var p: Node;
          ghost var s: Shape;
          if token.Open? {
            nNest := nNest + 1;
            var inner, n;
            ghost var t;
            inner, n, t := ExprParse();
            if !inner { return false, null, None; }
            if n == null { break; }
            p, s := n, GroupAt(t.value);
            GroupWhole(p, t.value);
          } else {
            p := new Node(PhraseNode(token.id));
            s := LeafAt(p, token.id);
            LeafWhole(p, token.id);
          }
          var added, h;
          ghost var r;
          added, h, r := InsertOperand(head, pPrev, isRequirePhrase, p, b, s, all + Nodes(s));
          if !added { return false, null, None; }
          head, pPrev, isRequirePhrase, b := h, p, false, r;
          all := all + Nodes(s) + BuildNodes(r);
        }
      }
      ok, root, shape := Close(head, isRequirePhrase, b);
    }

    /** The end of a level: an operator without its right operand is an error. */
    method Close(head: Node?, isRequirePhrase: bool, ghost b: Build) returns (ok: bool, root: Node?, ghost shape: Option<Shape>)
      requires Linked(b, head) && BuildApart(b) && isRequirePhrase == b.last.None?
      ensures if ok then Finish(EraseBuild(b), pos, nNest) == Parsed(EraseTree(shape), pos, nNest) else Finish(EraseBuild(b), pos, nNest) == Error
      ensures ok && shape == None ==> root == null
      ensures ok && shape.Some? ==> Whole(root, shape.value) && Nodes(shape.value) <= BuildNodes(b)
    {
      hide Linked, BuildApart, BuildNodes, Erase, Nodes, Root, Shaped, Apart, EraseSpine, Whole;
      ok, root, shape := true, head, None;
      HeadMeans(b, head);
      if head != null && isRequirePhrase {
        ok := false;
      } else if head != null {
        CloseBuild(b, head, pos, nNest);
        shape := Some(Folded(b, 0));
      }
    }

    /** Parses a whole query; unbalanced brackets are an error. */
    method Parse() returns (ok: bool, root: Node?, ghost shape: Option<Shape>)
      requires pos == 0 && nNest == 0
      modifies this
      ensures var r := ParseQuery(tokens); if ok then r == Parsed(EraseTree(shape), pos, nNest) else r == Error
      ensures ok && shape == None ==> root == null
      ensures ok && shape.Some? ==> Whole(root, shape.value) && fresh(Nodes(shape.value))
    {
      hide Loop, Whole, Erase, Nodes;
      ok, root, shape := ExprParse();
      if ok && nNest != 0 { ok, root, shape := false, null, None; }
    }
  }
}

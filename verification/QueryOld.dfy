/** The query syntax without parentheses, which is the default: OR binds more
    tightly than AND, AND is always implied, and a phrase with a minus sign is
    excluded from the whole query, wherever it stands. */
module QueryOld {
  import opened QueryParser
  import opened QueryTree

  datatype Item = Wanted(token: Token) | Excluded(id: nat)

  /** The tokens there are without parentheses. */
  predicate OldToken(t: Token) {
    t.Phrase? || (t.Operator? && (t.op.Near? || t.op == Or(true)))
  }

  predicate OldItems(items: seq<Item>) {
    forall i :: 0 <= i < |items| ==> items[i].Wanted? ==> OldToken(items[i].token)
  }

  function WantedTokens(items: seq<Item>): seq<Token> {
    if items == [] then []
    else
      var before, last := WantedTokens(items[..|items| - 1]), items[|items| - 1];
      if last.Wanted? then before + [last.token] else before
  }

  function ExcludedIds(items: seq<Item>): seq<nat> {
    if items == [] then []
    else
      var before, last := ExcludedIds(items[..|items| - 1]), items[|items| - 1];
      if last.Excluded? then before + [last.id] else before
  }

  /** A tree, less the excluded phrases one after the other. */
  function Less(t: Tree, ids: seq<nat>): Tree {
    if ids == [] then t else Binary(Not, false, Less(t, ids[..|ids| - 1]), Leaf(ids[|ids| - 1]))
  }

  /** What a query means: the wanted part read on its own, then the exclusions;
      exclusions alone are an error. */
  function ParseOld(items: seq<Item>): Option<Option<Tree>> {
    var r, ids := ParseQuery(WantedTokens(items)), ExcludedIds(items);
    if r.Error? || (r.tree.None? && ids != []) then None
    else Some(match r.tree { case None => None case Some(t) => Some(Less(t, ids)) })
  }

  // ---- what is accepted ----

  lemma {:induction false} WantedOld(items: seq<Item>)
    requires OldItems(items)
    ensures forall i :: 0 <= i < |WantedTokens(items)| ==> OldToken(WantedTokens(items)[i])
  {
    if items != [] { WantedOld(items[..|items| - 1]); }
  }

  /** A query is accepted, with a given tree, exactly if what is wanted of it is
      the text of a properly grouped tree, less the excluded phrases. */
  lemma OldExact(items: seq<Item>, t: Tree)
    requires OldItems(items)
    ensures ParseOld(items) == Some(Some(Less(t, ExcludedIds(items)))) <==> Proper(t) && Render(t) == WantedTokens(items)
  {
    hide Proper, Render, ParseQuery;
    var tokens, ids := WantedTokens(items), ExcludedIds(items);
    WantedOld(items);
    assert NoEmptyBrackets(tokens);
    ParserExact(tokens, t);
    var r := ParseQuery(tokens);
    if r.Parsed? && r.tree.Some? { LessSame(r.tree.value, t, ids); }
  }

  lemma {:induction false} LessSame(t: Tree, u: Tree, ids: seq<nat>)
    ensures Less(t, ids) == Less(u, ids) <==> t == u
  {
    if ids != [] { LessSame(t, u, ids[..|ids| - 1]); }
  }

  function AllWanted(tokens: seq<Token>): (items: seq<Item>)
    ensures |items| == |tokens| && forall i :: 0 <= i < |tokens| ==> items[i] == Wanted(tokens[i])
  {
    seq(|tokens|, i requires 0 <= i < |tokens| => Wanted(tokens[i]))
  }

  lemma {:induction false} WantedAll(tokens: seq<Token>)
    ensures WantedTokens(AllWanted(tokens)) == tokens && ExcludedIds(AllWanted(tokens)) == []
  {
    if tokens != [] {
      var n := |tokens| - 1;
      assert AllWanted(tokens)[..n] == AllWanted(tokens[..n]);
      WantedAll(tokens[..n]);
    }
  }

  /** ORs are taken together before the implied ANDs. */
  lemma OrBeforeAnd(a: nat, b: nat, c: nat)
    ensures ParseOld(AllWanted([Phrase(a), Phrase(b), Operator(Or(true)), Phrase(c)]))
         == Some(Some(Binary(And, true, Leaf(a), Binary(Or(true), false, Leaf(b), Leaf(c)))))
  {
    var tokens := [Phrase(a), Phrase(b), Operator(Or(true)), Phrase(c)];
    var right := Binary(Or(true), false, Leaf(b), Leaf(c));
    var t := Binary(And, true, Leaf(a), right);
    assert Render(right) == [Phrase(b), Operator(Or(true)), Phrase(c)];
    assert Render(t) == [Phrase(a)] + [] + Render(right) == tokens;
    LeafProper(a);
    LeafProper(b);
    LeafProper(c);
    assert Top(right) == 2 && Precedence(And) == 3;
    assert Proper(right);
    assert Proper(t);
    WantedAll(tokens);
    OldExact(AllWanted(tokens), t);
    assert Less(t, []) == t;
  }

  lemma OneItem(items: seq<Item>, item: Item)
    ensures WantedTokens(items + [item]) == WantedTokens(items) + if item.Wanted? then [item.token] else []
    ensures ExcludedIds(items + [item]) == ExcludedIds(items) + if item.Excluded? then [item.id] else []
  {
    assert (items + [item])[..|items|] == items;
  }

  lemma OneLess(t: Tree, ids: seq<nat>, id: nat)
    ensures Less(t, ids + [id]) == Binary(Not, false, Less(t, ids), Leaf(id))
  {
    assert (ids + [id])[..|ids|] == ids;
  }

  lemma Sample(a: nat, b: nat, c: nat, d: nat)
    ensures var items := [Wanted(Phrase(a)), Excluded(b), Wanted(Phrase(c)), Excluded(d)];
            WantedTokens(items) == [Phrase(a), Phrase(c)] && ExcludedIds(items) == [b, d] && OldItems(items)
  {
    var i0: seq<Item> := [];
    OneItem(i0, Wanted(Phrase(a)));
    var i1 := i0 + [Wanted(Phrase(a))];
    OneItem(i1, Excluded(b));
    var i2 := i1 + [Excluded(b)];
    OneItem(i2, Wanted(Phrase(c)));
    var i3 := i2 + [Wanted(Phrase(c))];
    OneItem(i3, Excluded(d));
    assert [Wanted(Phrase(a)), Excluded(b), Wanted(Phrase(c)), Excluded(d)] == i3 + [Excluded(d)];
  }

  /** `a -b c -d` is ((a AND c) NOT b) NOT d, and an exclusion alone is an error. */
  lemma Exclusions(a: nat, b: nat, c: nat, d: nat)
    ensures ParseOld([Wanted(Phrase(a)), Excluded(b), Wanted(Phrase(c)), Excluded(d)])
         == Some(Some(Binary(Not, false, Binary(Not, false, Binary(And, true, Leaf(a), Leaf(c)), Leaf(b)), Leaf(d))))
    ensures ParseOld([Excluded(a)]) == None
  {
    hide ParseQuery, Loop;
    Sample(a, b, c, d);
    var t := Binary(And, true, Leaf(a), Leaf(c));
    assert Render(t) == [Phrase(a)] + [] + [Phrase(c)];
    LeafProper(a);
    LeafProper(c);
    assert Proper(t);
    OldExact([Wanted(Phrase(a)), Excluded(b), Wanted(Phrase(c)), Excluded(d)], t);
    hide ParseOld;
    OneLess(t, [], b);
    OneLess(t, [b], d);
    assert [b] + [d] == [b, d] && [] + [b] == [b];
    OnlyExcluded(a);
  }

  lemma OnlyExcluded(a: nat)
    ensures ParseOld([Excluded(a)]) == None
  {
    OneItem([], Excluded(a));
    assert [] + [Excluded(a)] == [Excluded(a)];
    assert Loop([], 0, 0, START) == Parsed(None, 0, 0);
  }

  // ---- the exclusions as linked nodes ----

  /** A NOT node with its phrase on the right and its predecessor on the left. */
  ghost predicate Link(n: Node, phrase: Node, id: nat, left: Node?)
    reads n, phrase
  {
    && n.kind == OperatorNode(Not, false) && n.pRight == phrase && n.pLeft == left
    && phrase.kind == PhraseNode(id) && phrase.pLeft == null && phrase.pRight == null
  }

  ghost function Below(nots: seq<Node>, bottom: Node?, i: nat): Node?
    requires i <= |nots|
  {
    if i == 0 then bottom else nots[i - 1]
  }

  ghost predicate Chained(nots: seq<Node>, phrases: seq<Node>, ids: seq<nat>, bottom: Node?)
    reads nots, phrases
  {
    && |nots| == |phrases| == |ids|
    && (forall i, j :: 0 <= i < j < |nots| ==> nots[i] != nots[j])
    && (forall i, j :: 0 <= i < j < |phrases| ==> phrases[i] != phrases[j])
    && (forall i :: 0 <= i < |nots| ==> Link(nots[i], phrases[i], ids[i], Below(nots, bottom, i)))
  }

  ghost function ChainNodes(nots: seq<Node>, phrases: seq<Node>): set<Node> {
    (set n | n in nots) + (set n | n in phrases)
  }

  /** One more exclusion. */
  method Exclude(id: nat, pNotBranch: Node?) returns (pNot: Node, p: Node)
    ensures Link(pNot, p, id, pNotBranch) && fresh(pNot) && fresh(p)
  {
    p := new Node(PhraseNode(id));
    pNot := new Node(OperatorNode(Not, false));
    pNot.pRight := p;
    if pNotBranch != null { pNot.pLeft := pNotBranch; }
  }

  lemma ChainMore(nots: seq<Node>, phrases: seq<Node>, ids: seq<nat>, pNot: Node, p: Node, id: nat)
    requires Chained(nots, phrases, ids, null) && pNot !in nots && p !in phrases && Link(pNot, p, id, if nots == [] then null else nots[|nots| - 1])
    ensures Chained(nots + [pNot], phrases + [p], ids + [id], null)
    ensures ChainNodes(nots + [pNot], phrases + [p]) == ChainNodes(nots, phrases) + {pNot, p}
  {
    hide Link;
    MoreNodes(nots, phrases, pNot, p);
    hide ChainNodes;
    var ns := nots + [pNot];
    forall i | 0 <= i < |ns| ensures Below(ns, null, i) == Below(nots, null, i) {
    }
  }

  lemma MoreNodes(nots: seq<Node>, phrases: seq<Node>, pNot: Node, p: Node)
    ensures ChainNodes(nots + [pNot], phrases + [p]) == ChainNodes(nots, phrases) + {pNot, p}
  {
  }

  lemma ChainApart(nots: seq<Node>, phrases: seq<Node>, nodes: set<Node>)
    requires ChainNodes(nots, phrases) !! nodes
    ensures forall n :: n in nots || n in phrases ==> n !in nodes
  {
    forall n | n in nots || n in phrases ensures n !in nodes { assert n in ChainNodes(nots, phrases); }
  }

  lemma ChainIn(nots: seq<Node>, phrases: seq<Node>, all: set<Node>)
    requires ChainNodes(nots, phrases) <= all
    ensures forall i :: 0 <= i < |nots| ==> nots[i] in all
    ensures forall i :: 0 <= i < |phrases| ==> phrases[i] in all
  {
    forall i | 0 <= i < |nots| ensures nots[i] in all { assert nots[i] in ChainNodes(nots, phrases); }
    forall i | 0 <= i < |phrases| ensures phrases[i] in all { assert phrases[i] in ChainNodes(nots, phrases); }
  }

  /** Puts the wanted tree under the oldest NOT. */
  method HangUnder(pNotBranch: Node, head: Node, ghost nots: seq<Node>, ghost phrases: seq<Node>, ghost ids: seq<nat>)
    requires nots != [] && pNotBranch == nots[|nots| - 1] && Chained(nots, phrases, ids, null)
    modifies {nots[0]}`pLeft
    ensures Chained(nots, phrases, ids, head)
  {
    var pIter := pNotBranch;
    ghost var k := |nots| - 1;
    while pIter.pLeft != null
      invariant 0 <= k < |nots| && pIter == nots[k] && Chained(nots, phrases, ids, null)
      decreases k
    {
      assert Link(nots[k], phrases[k], ids[k], Below(nots, null, k));
      pIter := pIter.pLeft;
      k := k - 1;
    }
    assert Link(nots[k], phrases[k], ids[k], Below(nots, null, k));
    pIter.pLeft := head;
    forall i | 0 <= i < |nots| ensures Link(nots[i], phrases[i], ids[i], Below(nots, head, i)) {
      assert i > 0 ==> nots[i] != nots[0] && Below(nots, head, i) == Below(nots, null, i);
    }
  }

  /** The finished query: the wanted tree, and above it the exclusions, whose nodes
      are all different from each other and from those of the tree. */
  ghost predicate Built(root: Node?, s: Option<Shape>, nots: seq<Node>, phrases: seq<Node>, ids: seq<nat>)
    reads match s { case None => {} case Some(u) => Nodes(u) }, nots, phrases
  {
    match s
    case None => root == null && nots == []
    case Some(u) =>
      && Whole(Root(u), u) && Chained(nots, phrases, ids, Root(u)) && root == (if nots == [] then Root(u) else nots[|nots| - 1])
      && ChainNodes(nots, phrases) !! Nodes(u) && (forall n :: n in nots ==> n !in phrases)
  }

  function Added(s: State, token: Token): Option<State>
    requires OldToken(token)
  {
    match token
    case Phrase(id) => AddOperand(s, Leaf(id))
    case Operator(op) => AddOperator(s, op)
  }

  /** One wanted token. */
  method InsertWanted(token: Token, head: Node?, pPrev: Node?, isRequirePhrase: bool, ghost b: Build, ghost all: set<Node>)
    returns (added: bool, newHead: Node?, last: Node?, ghost r: Build)
    requires OldToken(token) && Growing(b, head, pPrev) && isRequirePhrase == b.last.None? && BuildNodes(b) <= all
    modifies BuildNodes(b)
    ensures added ==> Growing(r, newHead, last) && (r.last.None? <==> token.Operator?)
    ensures added ==> forall n :: n in BuildNodes(r) ==> n in BuildNodes(b) || fresh(n)
    ensures Added(EraseBuild(b), token) == if added then Some(EraseBuild(r)) else None
  {
    hide Growing, BuildNodes, Nodes, Erase, EraseBuild, Whole, AddOperand, AddOperator;
    if token.Operator? {
      added, newHead, last, r := InsertOperator(head, pPrev, isRequirePhrase, token.op, b, all);
    } else {
      var p := new Node(PhraseNode(token.id));
      ghost var s := LeafAt(p, token.id);
      LeafWhole(p, token.id);
      added, newHead, r := InsertOperand(head, pPrev, isRequirePhrase, p, b, s, all + {p});
      last := p;
    }
  }

  /** The end of the wanted part. */
  method CloseQuery(head: Node?, isRequirePhrase: bool, ghost b: Build, ghost pPrev: Node?, ghost tokens: seq<Token>)
    returns (ok: bool, root: Node?, ghost shape: Option<Shape>)
    requires Growing(b, head, pPrev) && isRequirePhrase == b.last.None?
    requires Loop(tokens, 0, 0, START) == Finish(EraseBuild(b), |tokens|, 0)
    ensures ParseQuery(tokens) == if ok then Parsed(EraseTree(shape), |tokens|, 0) else Error
    ensures ok && shape == None ==> root == null
    ensures ok && shape.Some? ==> root == Root(shape.value) && Whole(root, shape.value) && Nodes(shape.value) <= BuildNodes(b)
  {
    hide Loop, Linked, BuildApart, BuildNodes, Erase, Nodes, Root, Shaped, Apart, EraseSpine;
    ok, root, shape := true, head, None;
    HeadMeans(b, head);
    if head != null && isRequirePhrase {
      ok := false;
    } else if head != null {
      CloseBuild(b, head, |tokens|, 0);
      shape := Some(Folded(b, 0));
    }
  }

  lemma UnderChain(s: Shape, b: Build, nots: seq<Node>, phrases: seq<Node>)
    requires Nodes(s) <= BuildNodes(b) && BuildNodes(b) !! ChainNodes(nots, phrases)
    ensures forall i :: 0 <= i < |nots| ==> nots[i] !in Nodes(s)
    ensures ChainNodes(nots, phrases) !! Nodes(s)
  {
    hide Nodes, BuildNodes;
    forall i | 0 <= i < |nots| ensures nots[i] !in Nodes(s) { assert nots[i] in ChainNodes(nots, phrases); }
  }

  lemma {:induction false} WantedPrefix(items: seq<Item>, k: nat)
    requires k <= |items|
    ensures WantedTokens(items[..k]) <= WantedTokens(items)
  {
    if k < |items| {
      WantedPrefix(items[..|items| - 1], k);
      assert items[..|items| - 1][..k] == items[..k];
    } else {
      assert items[..k] == items;
    }
  }

  /** One item more. */
  lemma ItemStep(items: seq<Item>, pos: nat)
    requires pos < |items|
    ensures var n := |WantedTokens(items[..pos])|;
            if items[pos].Wanted? then
              && |WantedTokens(items[..pos + 1])| == n + 1 <= |WantedTokens(items)| && WantedTokens(items)[n] == items[pos].token
              && ExcludedIds(items[..pos + 1]) == ExcludedIds(items[..pos])
            else
              && WantedTokens(items[..pos + 1]) == WantedTokens(items[..pos])
              && ExcludedIds(items[..pos + 1]) == ExcludedIds(items[..pos]) + [items[pos].id]
  {
    assert items[..pos + 1][..pos] == items[..pos];
    WantedPrefix(items, pos + 1);
  }

  /** The wanted tree under construction, and the exclusions so far. */
  ghost predicate Ready(b: Build, head: Node?, pPrev: Node?, pNotBranch: Node?, nots: seq<Node>, phrases: seq<Node>, ids: seq<nat>, all: set<Node>)
    reads BuildNodes(b), nots, phrases
  {
    && Growing(b, head, pPrev) && Chained(nots, phrases, ids, null) && pNotBranch == (if nots == [] then null else nots[|nots| - 1])
    && BuildNodes(b) <= all && ChainNodes(nots, phrases) <= all && BuildNodes(b) !! ChainNodes(nots, phrases)
  }

  lemma ReadyAtStart()
    ensures Ready(Build([], None), null, null, null, [], [], [], {}) && EraseBuild(Build([], None)) == START
  {
    EmptyBuild();
  }

  method TakeExcluded(id: nat, head: Node?, pPrev: Node?, pNotBranch: Node?, ghost b: Build, ghost nots: seq<Node>, ghost phrases: seq<Node>, ghost ids: seq<nat>, ghost all: set<Node>)
    returns (pNot: Node, ghost p: Node)
    requires Ready(b, head, pPrev, pNotBranch, nots, phrases, ids, all)
    ensures Ready(b, head, pPrev, pNot, nots + [pNot], phrases + [p], ids + [id], all + {pNot, p}) && fresh(pNot) && fresh(p)
  {
    hide Growing, BuildNodes, Chained, ChainNodes, Link;
    ChainIn(nots, phrases, all);
    var q;
    pNot, q := Exclude(id, pNotBranch);
    p := q;
    ChainMore(nots, phrases, ids, pNot, p, id);
  }

  method TakeWanted(token: Token, head: Node?, pPrev: Node?, isRequirePhrase: bool, ghost pNotBranch: Node?, ghost b: Build, ghost nots: seq<Node>, ghost phrases: seq<Node>, ghost ids: seq<nat>, ghost all: set<Node>)
    returns (added: bool, newHead: Node?, last: Node?, ghost r: Build, ghost more: set<Node>)
    requires OldToken(token) && isRequirePhrase == b.last.None? && Ready(b, head, pPrev, pNotBranch, nots, phrases, ids, all)
    modifies all
    ensures added ==> Ready(r, newHead, last, pNotBranch, nots, phrases, ids, all + more) && (r.last.None? <==> token.Operator?)
    ensures fresh(more - all)
    ensures Added(EraseBuild(b), token) == if added then Some(EraseBuild(r)) else None
  {
    hide Growing, BuildNodes, Chained, ChainNodes, EraseBuild, Added;
    ChainIn(nots, phrases, all);
    ChainApart(nots, phrases, BuildNodes(b));
    added, newHead, last, r := InsertWanted(token, head, pPrev, isRequirePhrase, b, all);
    more := if added then BuildNodes(r) else {};
  }

  /** The end of a query: the wanted tree goes under the exclusions. */
  method FinishQuery(head: Node?, isRequirePhrase: bool, pNotBranch: Node?, ghost b: Build, ghost pPrev: Node?, ghost nots: seq<Node>, ghost phrases: seq<Node>, ghost items: seq<Item>, ghost all: set<Node>)
    returns (ok: bool, root: Node?, ghost shape: Option<Shape>)
    requires Ready(b, head, pPrev, pNotBranch, nots, phrases, ExcludedIds(items), all) && isRequirePhrase == b.last.None?
    requires var tokens := WantedTokens(items); Loop(tokens, 0, 0, START) == Finish(EraseBuild(b), |tokens|, 0)
    modifies all
    ensures if ok then
              && ParseOld(items) == Some(match shape { case None => None case Some(s) => Some(Less(Erase(s), ExcludedIds(items))) })
              && Built(root, shape, nots, phrases, ExcludedIds(items))
            else ParseOld(items) == None
  {
    hide Loop, Growing, BuildNodes, Chained, ChainNodes, Erase, Nodes, Finish, EraseSpine, Root, EraseBuild, Less, ParseQuery, Shaped, Apart;
    ok, root, shape := CloseQuery(head, isRequirePhrase, b, pPrev, WantedTokens(items));
    ghost var ids := ExcludedIds(items);
    ChainSize(nots, phrases, ids);
    if ok && shape.Some? { UnderChain(shape.value, b, nots, phrases); }
    if ok && pNotBranch != null {
      if root == null {
        ok := false;
      } else {
        ChainIn(nots, phrases, all);
        HangUnder(pNotBranch, root, nots, phrases, ids);
        root := pNotBranch;
      }
    }
  }

  lemma ChainSize(nots: seq<Node>, phrases: seq<Node>, ids: seq<nat>)
    requires Chained(nots, phrases, ids, null)
    ensures |nots| == |ids| && (nots == [] ==> forall n :: Chained(nots, phrases, ids, n))
    ensures forall n :: n in nots ==> n !in phrases
  {
    forall i, j | 0 <= i < |nots| && 0 <= j < |phrases| ensures nots[i] != phrases[j] {
      assert Link(nots[i], phrases[i], ids[i], Below(nots, null, i)) && Link(nots[j], phrases[j], ids[j], Below(nots, null, j));
    }
  }

  /** Reads a whole query and builds its tree of nodes. */
  method ExprParse(items: seq<Item>)
    returns (ok: bool, root: Node?, ghost shape: Option<Shape>, ghost nots: seq<Node>, ghost phrases: seq<Node>)
    requires OldItems(items)
    ensures if ok then
              && ParseOld(items) == Some(match shape { case None => None case Some(s) => Some(Less(Erase(s), ExcludedIds(items))) })
              && Built(root, shape, nots, phrases, ExcludedIds(items))
            else ParseOld(items) == None
  {
    hide Loop, Ready, BuildNodes, Erase, Nodes, Finish, EraseSpine, AddOperand, AddOperator, Root, EraseBuild;
    var head: Node?, pPrev: Node?, pNotBranch: Node?, isRequirePhrase := null, null, null, true;
    var pos := 0;
    ghost var b, tokens := Build([], None), WantedTokens(items);
    ghost var all: set<Node> := {};
    nots, phrases := [], [];
    ReadyAtStart();
    while pos < |items|
      invariant 0 <= pos <= |items| && isRequirePhrase == b.last.None? && fresh(all)
      invariant Ready(b, head, pPrev, pNotBranch, nots, phrases, ExcludedIds(items[..pos]), all)
      invariant |WantedTokens(items[..pos])| <= |tokens|
      invariant Loop(tokens, 0, 0, START) == Loop(tokens, |WantedTokens(items[..pos])|, 0, EraseBuild(b))
    {
      ItemStep(items, pos);
      var item := items[pos];
      ghost var ids := ExcludedIds(items[..pos]);
      if item.Excluded? {
        var pNot;
        ghost var p;
        pNot, p := TakeExcluded(item.id, head, pPrev, pNotBranch, b, nots, phrases, ids, all);
        nots, phrases, pNotBranch, all := nots + [pNot], phrases + [p], pNot, all + {pNot, p};
      } else {
        LoopStep(tokens, |WantedTokens(items[..pos])|, 0, EraseBuild(b));
        var added, h, last;
        ghost var r, more;
        added, h, last, r, more := TakeWanted(item.token, head, pPrev, isRequirePhrase, pNotBranch, b, nots, phrases, ids, all);
        if !added { return false, null, None, [], []; }
        head, pPrev, isRequirePhrase, b, all := h, last, item.token.Operator?, r, all + more;
      }
      pos := pos + 1;
    }
    assert items[..pos] == items;
    LoopStep(tokens, |tokens|, 0, EraseBuild(b));
    ok, root, shape := FinishQuery(head, isRequirePhrase, pNotBranch, b, pPrev, nots, phrases, items, all);
  }
}

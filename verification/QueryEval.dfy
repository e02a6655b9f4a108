/** Evaluating a full-text query: a tree of iterators over docids. */
module QueryEval {
  import Varint
  import Doclist
  import DoclistIterate
  import DoclistPhrase
  import QueryPhrase
  import QueryNear

  datatype Kind = PHRASE | NEAR | NOT | AND | OR

  /** `a` comes before `b` in the cursor's direction. */
  predicate Before(desc: bool, a: int, b: int) {
    if desc then b < a else a < b
  }

  function DocidCmp(desc: bool, a: int, b: int): (r: int)
    ensures r < 0 <==> Before(desc, a, b)
    ensures r == 0 <==> a == b
  {
    (if desc then -1 else 1) * (a - b)
  }

  ghost predicate Ordered(desc: bool, s: seq<int>) {
    forall i, j :: 0 <= i < j < |s| ==> Before(desc, s[i], s[j])
  }

  ghost function Members(s: seq<int>): set<int> { set d | d in s }

  /** The docids of `s` from `d` on. */
  ghost function From(desc: bool, s: set<int>, d: int): set<int> {
    set c | c in s && !Before(desc, c, d)
  }

  /** The rows an operator's iterator stops at, given its operands' stops: NEAR
      is treated as AND, and the right side of NOT is not considered. */
  ghost function StopsOf(k: Kind, l: set<int>, r: set<int>): set<int> {
    if k == OR then l + r else if k == NOT then l else l * r
  }

  /** The rows that match, given the operands' matches. */
  ghost function MatchesOf(k: Kind, l: set<int>, r: set<int>, near: int -> bool): set<int> {
    if k == OR then l + r
    else if k == NOT then l - r
    else if k == NEAR then set d | d in l * r && near(d)
    else l * r
  }

  /** What the operators mean, document by document. */
  lemma OperatorMeans(k: Kind, l: set<int>, r: set<int>, near: int -> bool)
    ensures k == NOT ==> MatchesOf(k, l, r, near) !! r
    ensures k == NOT ==> forall d :: d in l <==> d in MatchesOf(k, l, r, near) || (d in l && d in r)
    ensures k == OR ==> forall d :: d in MatchesOf(k, l, r, near) <==> d in l || d in r
    ensures k == AND ==> forall d :: d in MatchesOf(k, l, r, near) <==> d in l && d in r
    ensures k == NEAR ==> forall d :: d in MatchesOf(k, l, r, near) <==> d in l && d in r && near(d)
  {
  }

  /** OR gives the least set with the matches of both sides, AND the greatest within
      both. */
  lemma OperatorBounds(l: set<int>, r: set<int>, s: set<int>, near: int -> bool)
    ensures l <= MatchesOf(OR, l, r, near) && r <= MatchesOf(OR, l, r, near) && (l <= s && r <= s ==> MatchesOf(OR, l, r, near) <= s)
    ensures MatchesOf(AND, l, r, near) <= l && MatchesOf(AND, l, r, near) <= r && (s <= l && s <= r ==> s <= MatchesOf(AND, l, r, near))
  {
  }

  // ---- what an iterator node shows of itself ----

  datatype View = View(desc: bool, stops: set<int>, bStart: bool, bEof: bool, iDocid: int) {
    /** The stops not yet left behind. */
    ghost function Todo(): set<int> {
      if bEof then {} else if !bStart then stops else From(desc, stops, iDocid)
    }

    ghost predicate Ok() {
      && (bEof ==> bStart)
      && (!bStart ==> iDocid == 0)
      && (bStart && !bEof ==> iDocid in stops)
    }

    /** Standing on the first of its stops from `d` on. */
    ghost predicate Ahead(d: int) {
      bStart && Todo() == From(desc, stops, d)
    }
  }

  /** `w` is `v` after one advance. */
  ghost predicate Stepped(v: View, w: View) {
    && w.desc == v.desc && w.stops == v.stops && w.Ok() && w.bStart
    && w.Todo() == if v.bStart then v.Todo() - {v.iDocid} else v.stops
  }

  /** How an operator stands to its operands. */
  ghost predicate Linked(k: Kind, v: View, l: View, r: View) {
    && v.Ok() && l.Ok() && r.Ok() && l.desc == v.desc == r.desc && v.stops == StopsOf(k, l.stops, r.stops)
    && l.bStart == v.bStart == r.bStart
    && (v.bEof ==> if k == OR then l.bEof && r.bEof else if k == NOT then l.bEof else l.bEof || r.bEof)
    && (v.bStart && !v.bEof ==>
          if k == OR then l.Ahead(v.iDocid) && r.Ahead(v.iDocid)
          else if k == NOT then !l.bEof && l.iDocid == v.iDocid && r.Ahead(v.iDocid)
          else !l.bEof && !r.bEof && l.iDocid == v.iDocid == r.iDocid)
  }

  lemma StepShrinks(v: View, w: View)
    requires v.Ok() && !v.bEof && v.bStart && Stepped(v, w)
    ensures w.Todo() < v.Todo()
  {
    assert v.iDocid in v.Todo();
  }

  // ---- AND ----

  lemma AndFirst(k: Kind, v: View, l: View, r: View, l': View, r': View)
    requires (k == AND || k == NEAR) && Linked(k, v, l, r) && !v.bEof && Stepped(l, l') && Stepped(r, r')
    ensures l'.Todo() * r'.Todo() == if v.bStart then v.Todo() - {v.iDocid} else v.stops
  {
  }

  lemma AndAdvance(l: View, r: View, l': View)
    requires l.Ok() && r.Ok() && l.bStart && r.bStart && l.desc == r.desc && !l.bEof && !r.bEof
    requires Before(l.desc, l.iDocid, r.iDocid) && Stepped(l, l')
    ensures l'.Todo() * r.Todo() == l.Todo() * r.Todo()
    ensures r.Todo() * l'.Todo() == r.Todo() * l.Todo()
  {
  }

  lemma AndFinish(k: Kind, v: View, l: View, r: View, w: View)
    requires (k == AND || k == NEAR) && l.Ok() && r.Ok() && l.bStart && r.bStart && l.desc == v.desc == r.desc
    requires v.stops == StopsOf(k, l.stops, r.stops)
    requires l.bEof || r.bEof || l.iDocid == r.iDocid
    requires l.Todo() * r.Todo() == if v.bStart then v.Todo() - {v.iDocid} else v.stops
    requires w == v.(bStart := true, bEof := l.bEof || r.bEof, iDocid := l.iDocid)
    ensures Linked(k, w, l, r) && Stepped(v, w)
  {
  }

  // ---- OR ----

  /** Which operands an OR node advances. */
  predicate OrMovesLeft(v: View, l: View, r: View) {
    r.bEof || (!l.bEof && DocidCmp(v.desc, l.iDocid, r.iDocid) <= 0)
  }

  predicate OrMovesRight(v: View, l: View, r: View) {
    l.bEof || (!r.bEof && DocidCmp(v.desc, l.iDocid, r.iDocid) >= 0)
  }

  /** An operand that is ahead of a row stands on it if the row is one of its
      stops, and beyond it otherwise. */
  lemma AheadAt(l: View, d: int)
    requires l.Ok() && l.Ahead(d)
    ensures d in l.stops ==> !l.bEof && l.iDocid == d
    ensures !l.bEof ==> !Before(l.desc, l.iDocid, d)
  {
    var f := From(l.desc, l.stops, d);
    if d in l.stops { assert d in f; }
    if !l.bEof { assert l.iDocid in l.Todo(); assert l.iDocid in f; }
  }

  /** The stops that remain once row `v.iDocid` is left behind. */
  ghost function Rest(v: View, stops: set<int>): set<int> {
    if v.bStart then From(v.desc, stops, v.iDocid) - {v.iDocid} else stops
  }

  /** An operand ends up on its first stop after the row left behind. */
  lemma OrOperand(v: View, l: View, l': View)
    requires v.Ok() && l.Ok() && !v.bEof && l.bStart == v.bStart && l.desc == v.desc
    requires v.bStart ==> l.Ahead(v.iDocid)
    requires if !v.bStart || (!l.bEof && l.iDocid == v.iDocid) then Stepped(l, l') else l' == l
    ensures l'.Ok() && l'.bStart && l'.stops == l.stops && l'.desc == l.desc && l'.Todo() == Rest(v, l.stops)
  {
    if v.bStart { AheadAt(l, v.iDocid); }
  }

  lemma OrLeast(v: View, l: View, r: View, w: View)
    requires l.Ok() && r.Ok() && l.bStart && r.bStart && l.desc == v.desc == r.desc && v.stops == l.stops + r.stops
    requires v.Ok() && !v.bEof && l.Todo() == Rest(v, l.stops) && r.Todo() == Rest(v, r.stops)
    requires w == v.(bStart := true, bEof := l.bEof && r.bEof,
                     iDocid := if r.bEof || (!l.bEof && Before(v.desc, l.iDocid, r.iDocid)) then l.iDocid else r.iDocid)
    ensures Linked(OR, w, l, r) && w.Todo() == Rest(v, v.stops)
  {
    if !w.bEof {
      var x := w.iDocid;
      assert !l.bEof ==> l.iDocid in l.Todo();
      assert !r.bEof ==> r.iDocid in r.Todo();
      assert x in Rest(v, v.stops);
      OrAhead(v, l, x);
      OrAhead(v, r, x);
      assert w.Todo() == l.Todo() + r.Todo();
    }
  }

  lemma OrAhead(v: View, l: View, x: int)
    requires l.Ok() && l.bStart && l.desc == v.desc && l.Todo() == Rest(v, l.stops)
    requires v.bStart ==> Before(v.desc, v.iDocid, x)
    requires !l.bEof ==> !Before(v.desc, l.iDocid, x)
    ensures l.Ahead(x) && l.Todo() == From(v.desc, l.stops, x)
  {
    assert From(v.desc, l.stops, x) <= Rest(v, l.stops);
  }

  lemma OrFinish(v: View, l: View, r: View, l': View, r': View, w: View)
    requires Linked(OR, v, l, r) && !v.bEof
    requires if OrMovesLeft(v, l, r) then Stepped(l, l') else l' == l
    requires if OrMovesRight(v, l, r) then Stepped(r, r') else r' == r
    requires w == v.(bStart := true, bEof := l'.bEof && r'.bEof,
                     iDocid := if r'.bEof || (!l'.bEof && Before(v.desc, l'.iDocid, r'.iDocid)) then l'.iDocid else r'.iDocid)
    ensures Linked(OR, w, l', r') && Stepped(v, w)
  {
    if v.bStart {
      AheadAt(l, v.iDocid);
      AheadAt(r, v.iDocid);
    }
    OrOperand(v, l, l');
    OrOperand(v, r, r');
    OrLeast(v, l', r', w);
  }

  lemma OrAlive(v: View, l: View, r: View)
    requires Linked(OR, v, l, r) && !v.bEof
    ensures !l.bEof || !r.bEof
  {
    if v.bStart {
      AheadAt(l, v.iDocid);
      AheadAt(r, v.iDocid);
    }
  }

  // ---- NOT ----

  /** Advancing the right side past rows before `d` loses no row from `d` on. */
  lemma NotAdvance(r: View, r': View, d: int)
    requires r.Ok() && r.bStart && !r.bEof && Before(r.desc, r.iDocid, d) && Stepped(r, r')
    requires From(r.desc, r.Todo(), d) == From(r.desc, r.stops, d)
    ensures From(r.desc, r'.Todo(), d) == From(r.desc, r.stops, d)
  {
    assert From(r.desc, r'.Todo(), d) == From(r.desc, r.Todo(), d);
  }

  lemma NotFirst(v: View, l: View, r: View, l': View, r': View)
    requires Linked(NOT, v, l, r) && !v.bEof && Stepped(l, l')
    requires if v.bStart then r' == r else Stepped(r, r')
    ensures r'.Ok() && r'.bStart && r'.desc == r.desc && r'.stops == r.stops
    ensures !l'.bEof ==> From(v.desc, r'.Todo(), l'.iDocid) == From(v.desc, r.stops, l'.iDocid)
  {
    if v.bStart && !l'.bEof {
      assert l'.iDocid in l'.Todo();
      assert l'.iDocid in l.Todo() && l'.iDocid != l.iDocid;
    }
  }

  lemma NotFinish(v: View, l: View, l': View, r: View, w: View)
    requires v.Ok() && l.Ok() && !v.bEof && v.stops == l.stops && l.desc == v.desc == r.desc && l.bStart == v.bStart
    requires (v.bStart ==> !l.bEof && l.iDocid == v.iDocid) && Stepped(l, l')
    requires r.Ok() && r.bStart
    requires !l'.bEof ==> && From(v.desc, r.Todo(), l'.iDocid) == From(v.desc, r.stops, l'.iDocid)
                          && (!r.bEof ==> !Before(v.desc, r.iDocid, l'.iDocid))
    requires w == v.(bStart := true, bEof := l'.bEof, iDocid := l'.iDocid)
    ensures Linked(NOT, w, l', r) && Stepped(v, w)
  {
    if !l'.bEof { assert From(v.desc, r.Todo(), l'.iDocid) == r.Todo(); }
  }

  // ---- testing a row ----

  /** What a test of row `d` says about a node: nothing matches at or before the
      end of file, nothing matches before the current stop, and at the current
      stop the answer is right. */
  ghost predicate Accurate(v: View, matches: set<int>, d: int, hit: bool) {
    && (v.bEof ==> !hit)
    && (v.bStart && !v.bEof && Before(v.desc, d, v.iDocid) ==> !hit)
    && (v.bStart && !v.bEof && d == v.iDocid ==> (hit <==> d in matches))
  }

  function Combine(k: Kind, left: bool, right: bool, near: bool): bool {
    if k == OR then left || right
    else if k == NOT then left && !right
    else if k == NEAR then left && right && near
    else left && right
  }

  lemma TestCombines(k: Kind, v: View, l: View, r: View, ml: set<int>, mr: set<int>, near: int -> bool,
                     d: int, hl: bool, hr: bool)
    requires Linked(k, v, l, r) && v.bStart && ml <= l.stops && mr <= r.stops
    requires Accurate(l, ml, d, hl) && Accurate(r, mr, d, hr)
    ensures Accurate(v, MatchesOf(k, ml, mr, near), d, Combine(k, hl, hr, near(d)))
  {
    if !v.bEof && (k == OR || k == NOT) {
      AheadAt(r, v.iDocid);
      if k == OR { AheadAt(l, v.iDocid); }
    }
  }

  // ---- NEAR ----

  /** A phrase of a NEAR query: its documents and its number of tokens. */
  datatype Part = Part(docs: seq<Doclist.Doc>, nToken: nat)

  /** The phrases of a NEAR query in one row. */
  ghost function ClusterAt(parts: seq<Part>, nears: seq<nat>, d: int): (q: QueryNear.Cluster)
    ensures |q.lists| == |parts| == |q.tokens|
  {
    QueryNear.Cluster(seq(|parts|, i requires 0 <= i < |parts| => DoclistPhrase.ColumnsOf(parts[i].docs, d)),
                      seq(|parts|, i requires 0 <= i < |parts| => parts[i].nToken), nears)
  }

  /** The row holds a chain of the phrases. */
  ghost predicate NearRow(parts: seq<Part>, nears: seq<nat>, d: int) {
    var q := ClusterAt(parts, nears, d);
    QueryNear.Sound(q) && QueryNear.NearMatch(q)
  }

  lemma ClusterGrows(parts: seq<Part>, nears: seq<nat>, more: seq<Part>, n: nat, d: int)
    requires |more| == 1
    requires QueryNear.Sound(ClusterAt(parts, nears, d)) && QueryNear.Sound(ClusterAt(more, [], d))
    ensures var q := ClusterAt(parts + more, nears + [n], d);
            && QueryNear.Sound(q) && q.lists == ClusterAt(parts, nears, d).lists + ClusterAt(more, [], d).lists
            && q.tokens == ClusterAt(parts, nears, d).tokens + ClusterAt(more, [], d).tokens
  {
    hide DoclistPhrase.ColumnsOf, Doclist.ValidColumns;
    var a, b, q := ClusterAt(parts, nears, d), ClusterAt(more, [], d), ClusterAt(parts + more, nears + [n], d);
    assert q.lists == a.lists + b.lists;
    assert q.tokens == a.tokens + b.tokens;
  }

  // ---- the tree ----

  class Fts3Expr {
    const desc: bool
    const eType: Kind
    const pLeft: Fts3Expr?
    const pRight: Fts3Expr?
    /** A phrase's doclist, whether it is in descending order, and the documents
        it encodes. */
    const aAll: seq<Varint.Byte>
    const bDescIdx: bool
    ghost const docs: seq<Doclist.Doc>
    ghost const order: Doclist.Order
    /** Its docids in cursor order. */
    ghost const docids: seq<int>
    /** The number of tokens of a phrase, the distance of a NEAR, and whether the
        node above is a NEAR, too. */
    const nToken: nat
    const nNear: nat
    const underNear: bool
    /** The phrases and distances of a NEAR query, and whether a row satisfies it. */
    ghost const parts: seq<Part>
    ghost const nears: seq<nat>
    ghost const nearTest: int -> bool

    /** How far a phrase has got in its doclist. */
    var pNextDocid: DoclistIterate.Iter
    var listDocid: int
    var pList: nat
    var nList: nat
    ghost var next: nat
    var iDocid: int
    var bEof: bool
    var bStart: bool

    ghost const Repr: set<Fts3Expr>
    ghost const Stops: set<int>
    ghost const Matches: set<int>

    ghost function V(): View
      reads this
    {
      View(desc, Stops, bStart, bEof, iDocid)
    }

    /** The tree below a node, which never changes. */
    ghost predicate Shape()
      decreases Repr
    {
      && this in Repr && Matches <= Stops
      && if eType == PHRASE then
           && Repr == {this} && Ordered(desc, docids) && Stops == Members(docids) == Matches && Listed()
           && nToken > 0 && parts == [Part(docs, nToken)] && nears == []
         else
           && pLeft != null && pRight != null && pLeft in pLeft.Repr && pRight in pRight.Repr
           && this !in pLeft.Repr && this !in pRight.Repr && pLeft.Repr !! pRight.Repr
           && pLeft.Repr <= Repr && pRight.Repr <= Repr
           && Matches == MatchesOf(eType, pLeft.Matches, pRight.Matches, nearTest) && Clustered()
           && pLeft.Shape() && pRight.Shape()
    }

    /** NEARs hang together to the left, with a phrase on the right of each; only the
        topmost of them is tested, for a chain of all its phrases. */
    ghost predicate Clustered()
      requires pLeft != null && pRight != null
    {
      && (if eType == NEAR then
            && pRight.eType == PHRASE && (pLeft.eType == PHRASE || (pLeft.eType == NEAR && pLeft.underNear))
            && parts == pLeft.parts + pRight.parts && nears == pLeft.nears + [nNear]
          else (pLeft.eType == NEAR ==> !pLeft.underNear) && (pRight.eType == NEAR ==> !pRight.underNear))
      && forall d :: nearTest(d) <==> underNear || NearRow(parts, nears, d)
    }

    /** The bytes of a phrase encode its docids. */
    ghost predicate Listed() {
      DoclistIterate.ValidList(aAll, docs, order) && order.desc == bDescIdx && docids == QueryPhrase.Visits(desc, docs, order)
    }

    /** The iterators below a node agree with it. */
    ghost predicate State()
      requires Shape()
      reads Repr
      decreases Repr
    {
      && V().Ok()
      && if eType == PHRASE then
           && next <= |docids|
           && (bStart <==> next > 0 || bEof)
           && (bEof ==> next == |docids|)
           && (bStart && !bEof ==> iDocid == docids[next - 1])
           && (!bEof ==> QueryPhrase.HasVisited(desc, docs, order, next, pNextDocid, listDocid))
           && (bStart && !bEof ==> QueryPhrase.ListAt(aAll, docs, QueryPhrase.Current(desc, docs, order, next), pList, nList))
         else
           Linked(eType, V(), pLeft.V(), pRight.V()) && pLeft.State() && pRight.State()
    }

    ghost predicate Valid()
      reads Repr
    {
      Shape() && State()
    }

    /** The operands of an operator node are in order, whatever the node's own
        fields say. */
    ghost predicate Operands()
      reads Repr
    {
      Shape() && eType != PHRASE && pLeft.State() && pRight.State()
    }

    /** A phrase with its doclist, for a cursor that runs in either direction. */
    constructor Phrase(desc: bool, bDescIdx: bool, a: seq<Varint.Byte>, nToken: nat, ghost docs: seq<Doclist.Doc>, ghost order: Doclist.Order)
      requires DoclistIterate.ValidList(a, docs, order) && order.desc == bDescIdx && nToken > 0
      ensures Valid() && fresh(Repr) && !bStart && !bEof && eType == PHRASE && parts == [Part(docs, nToken)] && nears == []
      ensures Matches == Members(QueryPhrase.Docids(docs)) && this.desc == desc
    {
      ghost var docids := QueryPhrase.Visits(desc, docs, order);
      SameMembers(desc, docs, order);
      this.desc, this.eType, this.docids := desc, PHRASE, docids;
      this.aAll, this.bDescIdx, this.docs, this.order := a, bDescIdx, docs, order;
      this.pNextDocid, this.listDocid, this.pList, this.nList := DoclistIterate.Fresh, 0, 0, 0;
      this.nToken, this.nNear, this.underNear, this.parts, this.nears := nToken, 0, false, [Part(docs, nToken)], [];
      this.pLeft, this.pRight, this.nearTest := null, null, _ => true;
      this.next, this.iDocid, this.bEof, this.bStart := 0, 0, false, false;
      this.Repr, this.Stops, this.Matches := {this}, Members(docids), Members(docids);
    }

    /** An operator above two operands. Those of a NEAR are phrases, or a NEAR on the
        left; a row matches it if it holds a chain of its phrases. */
    constructor Binary(eType: Kind, left: Fts3Expr, right: Fts3Expr, nNear: nat, underNear: bool)
      requires eType != PHRASE && left.Valid() && right.Valid() && left.desc == right.desc
      requires left.Repr !! right.Repr && !left.bStart && !right.bStart
      requires if eType == NEAR then right.eType == PHRASE && (left.eType == PHRASE || (left.eType == NEAR && left.underNear))
               else (left.eType == NEAR ==> !left.underNear) && (right.eType == NEAR ==> !right.underNear)
      ensures Valid() && fresh(Repr - left.Repr - right.Repr) && !bStart && !bEof && desc == left.desc
      ensures this.eType == eType && this.underNear == underNear
      ensures eType == NEAR ==> parts == left.parts + right.parts && nears == left.nears + [nNear]
      ensures Matches == MatchesOf(eType, left.Matches, right.Matches, d => underNear || NearRow(parts, nears, d))
      ensures eType == NOT ==> Matches !! right.Matches && forall d :: d in left.Matches <==> d in Matches || (d in left.Matches && d in right.Matches)
      ensures eType == OR ==> forall d :: d in Matches <==> d in left.Matches || d in right.Matches
      ensures eType == AND ==> forall d :: d in Matches <==> d in left.Matches && d in right.Matches
      ensures eType == NEAR ==>
                forall d :: d in Matches <==> d in left.Matches && d in right.Matches && (underNear || NearRow(left.parts + right.parts, left.nears + [nNear], d))
    {
      ghost var parts, nears := if eType == NEAR then left.parts + right.parts else [], if eType == NEAR then left.nears + [nNear] else [];
      ghost var nearTest := d => underNear || NearRow(parts, nears, d);
      this.nToken, this.nNear, this.underNear, this.parts, this.nears := 0, nNear, underNear, parts, nears;
      this.desc, this.eType, this.docids := left.desc, eType, [];
      this.aAll, this.bDescIdx, this.docs, this.order := [], false, [], Doclist.Order(false, 0);
      this.pNextDocid, this.listDocid, this.pList, this.nList := DoclistIterate.Fresh, 0, 0, 0;
      this.pLeft, this.pRight, this.nearTest := left, right, nearTest;
      this.next, this.iDocid, this.bEof, this.bStart := 0, 0, false, false;
      this.Repr := {this} + left.Repr + right.Repr;
      this.Stops := StopsOf(eType, left.Stops, right.Stops);
      this.Matches := MatchesOf(eType, left.Matches, right.Matches, nearTest);
      new;
      hide MatchesOf, StopsOf, Linked, NearRow, Listed;
      MatchesAreStops(eType, left.Stops, right.Stops, left.Matches, right.Matches, nearTest);
      OperatorMeans(eType, left.Matches, right.Matches, nearTest);
      NotStarted(eType, V(), left.V(), right.V());
    }

    /** Advances to the next stop. */
    method NextRow()
      requires Valid() && !bEof
      modifies Repr
      ensures Valid() && Stepped(old(V()), V())
      decreases Repr, 3
    {
      if eType == PHRASE {
        NextPhrase();
      } else if eType == OR {
        NextOr();
      } else if eType == NOT {
        NextNot();
      } else {
        NextAnd();
      }
    }

    method NextPhrase()
      requires Valid() && !bEof && eType == PHRASE
      modifies this
      ensures Valid() && Stepped(old(V()), V())
    {
      hide DoclistIterate.ValidList, QueryPhrase.Visits, QueryPhrase.HasVisited, QueryPhrase.ListAt, Stepped;
      bStart := true;
      pNextDocid, listDocid, pList, nList, bEof := QueryPhrase.PhraseNext(desc, bDescIdx, aAll, pNextDocid, listDocid, docs, order, next);
      iDocid := listDocid;
      PhraseSteps(docids, next, old(V()), V());
      if !bEof { next := next + 1; }
    }

    method MoveLeft()
      requires Operands() && !pLeft.bEof
      modifies Repr
      ensures Operands() && Stepped(old(pLeft.V()), pLeft.V()) && pRight.V() == old(pRight.V()) && V() == old(V())
      decreases Repr, 0
    {
      hide Stepped, MatchesOf, Clustered, Listed;
      pLeft.NextRow();
    }

    method MoveRight()
      requires Operands() && !pRight.bEof
      modifies Repr
      ensures Operands() && Stepped(old(pRight.V()), pRight.V()) && pLeft.V() == old(pLeft.V()) && V() == old(V())
      decreases Repr, 0
    {
      hide Stepped, MatchesOf, Clustered, Listed;
      pRight.NextRow();
    }

    method Settle(eof: bool, docid: int)
      requires Operands()
      modifies this
      ensures Operands() && pLeft.V() == old(pLeft.V()) && pRight.V() == old(pRight.V())
      ensures V() == old(V()).(bStart := true, bEof := eof, iDocid := docid)
    {
      bStart, bEof, iDocid := true, eof, docid;
    }

    method NextAnd()
      requires Valid() && !bEof && (eType == AND || eType == NEAR)
      modifies Repr
      ensures Valid() && Stepped(old(V()), V())
      decreases Repr, 1
    {
      hide Linked, Stepped, From, MatchesOf, StopsOf, Clustered, Listed;
      ghost var v, l0, r0 := V(), pLeft.V(), pRight.V();
      OperandsAlive(eType, v, l0, r0);
      MoveLeft();
      MoveRight();
      AndFirst(eType, v, l0, r0, pLeft.V(), pRight.V());
      SteppedFacts(l0, pLeft.V());
      SteppedFacts(r0, pRight.V());
      while !pLeft.bEof && !pRight.bEof && pLeft.iDocid != pRight.iDocid
        invariant Operands() && V() == v && pLeft.V().Ok() && pRight.V().Ok() && pLeft.bStart && pRight.bStart
        invariant pLeft.V().Todo() * pRight.V().Todo() == if v.bStart then v.Todo() - {v.iDocid} else v.stops
        decreases pLeft.V().Todo(), pRight.V().Todo()
      {
        ghost var l, r := pLeft.V(), pRight.V();
        var iDiff := DocidCmp(desc, pLeft.iDocid, pRight.iDocid);
        if iDiff < 0 {
          MoveLeft();
          AndAdvance(l, r, pLeft.V());
          StepShrinks(l, pLeft.V());
          SteppedFacts(l, pLeft.V());
        } else {
          MoveRight();
          AndAdvance(r, l, pRight.V());
          StepShrinks(r, pRight.V());
          SteppedFacts(r, pRight.V());
        }
      }
      Settle(pLeft.bEof || pRight.bEof, pLeft.iDocid);
      AndFinish(eType, v, pLeft.V(), pRight.V(), V());
      SteppedFacts(v, V());
    }

    method NextOr()
      requires Valid() && !bEof && eType == OR
      modifies Repr
      ensures Valid() && Stepped(old(V()), V())
      decreases Repr, 2
    {
      hide Linked, Stepped, From, MatchesOf, StopsOf, Clustered, Listed;
      ghost var v, l0, r0 := V(), pLeft.V(), pRight.V();
      OrAlive(v, l0, r0);
      OperandsAlive(eType, v, l0, r0);
      OrMove();
      var iCmp := DocidCmp(desc, pLeft.iDocid, pRight.iDocid);
      var takeLeft := pRight.bEof || (!pLeft.bEof && iCmp < 0);
      Settle(pLeft.bEof && pRight.bEof, if takeLeft then pLeft.iDocid else pRight.iDocid);
      OrFinish(v, l0, r0, pLeft.V(), pRight.V(), V());
      SteppedFacts(v, V());
    }

    /** Advances the operand that is behind; both, when they stand together. */
    method OrMove()
      requires Operands() && (!pLeft.bEof || !pRight.bEof)
      modifies Repr
      ensures Operands() && V() == old(V())
      ensures if OrMovesLeft(old(V()), old(pLeft.V()), old(pRight.V())) then Stepped(old(pLeft.V()), pLeft.V())
              else pLeft.V() == old(pLeft.V())
      ensures if OrMovesRight(old(V()), old(pLeft.V()), old(pRight.V())) then Stepped(old(pRight.V()), pRight.V())
              else pRight.V() == old(pRight.V())
      decreases Repr, 1
    {
      hide Stepped;
      var iCmp := DocidCmp(desc, pLeft.iDocid, pRight.iDocid);
      if pRight.bEof || (!pLeft.bEof && iCmp < 0) {
        MoveLeft();
      } else if pLeft.bEof || (!pRight.bEof && iCmp > 0) {
        MoveRight();
      } else {
        MoveLeft();
        MoveRight();
      }
    }

    method NextNot()
      requires Valid() && !bEof && eType == NOT
      modifies Repr
      ensures Valid() && Stepped(old(V()), V())
      decreases Repr, 1
    {
      hide Linked, Stepped, From, MatchesOf, StopsOf, Clustered, Listed;
      ghost var v, l0, r0 := V(), pLeft.V(), pRight.V();
      OperandsAlive(eType, v, l0, r0);
      NotStops(l0.stops, r0.stops);
      if !pRight.bStart {
        MoveRight();
      }
      MoveLeft();
      ghost var l := pLeft.V();
      NotFirst(v, l0, r0, l, pRight.V());
      SteppedFacts(l0, l);
      if !pLeft.bEof {
        while !pRight.bEof && DocidCmp(desc, pLeft.iDocid, pRight.iDocid) > 0
          invariant Operands() && V() == v && pRight.V().Ok() && pRight.bStart && pLeft.V() == l
          invariant From(desc, pRight.V().Todo(), l.iDocid) == From(desc, pRight.Stops, l.iDocid)
          decreases pRight.V().Todo()
        {
          ghost var r := pRight.V();
          MoveRight();
          NotAdvance(r, pRight.V(), l.iDocid);
          StepShrinks(r, pRight.V());
          SteppedFacts(r, pRight.V());
        }
      }
      Settle(pLeft.bEof, pLeft.iDocid);
      NotFinish(v, l0, l, pRight.V(), V());
      SteppedFacts(v, V());
    }

    lemma MatchesIn()
      requires Shape()
      ensures Matches <= Stops
    {
    }

    /** The current position-lists of the phrases of a NEAR query. */
    method Lists() returns (b: seq<array<Varint.Byte>>, tokens: seq<nat>, dists: seq<nat>)
      requires Valid() && (eType == PHRASE || eType == NEAR) && bStart && !bEof
      ensures forall i :: 0 <= i < |b| ==> fresh(b[i])
      ensures QueryNear.Distinct(b) && tokens == ClusterAt(parts, nears, iDocid).tokens && dists == nears
      ensures QueryNear.Sound(ClusterAt(parts, nears, iDocid)) && QueryNear.Held(b, ClusterAt(parts, nears, iDocid).lists)
      decreases Repr
    {
      hide DoclistPhrase.ColumnsOf, Doclist.ValidColumns, DoclistIterate.ValidList, QueryNear.Held, QueryNear.Distinct, QueryNear.Sound, ClusterAt;
      if eType == PHRASE {
        var list := QueryPhrase.CopyList(aAll, pList, nList);
        b, tokens, dists := [list], [nToken], [];
        PhraseCluster(desc, docs, order, next, nToken, aAll, iDocid, list);
      } else {
        var b1, t1, d1 := pLeft.Lists();
        var b2, t2, d2 := pRight.Lists();
        b, tokens, dists := b1 + b2, t1 + t2, d1 + [nNear];
        JoinedLists(b1, b2, ClusterAt(pLeft.parts, pLeft.nears, iDocid).lists, ClusterAt(pRight.parts, pRight.nears, iDocid).lists);
        ClusterGrows(pLeft.parts, pLeft.nears, pRight.parts, nNear, iDocid);
      }
    }

    /** Whether the current row holds a chain of the phrases of a NEAR query. */
    method NearTest() returns (res: bool)
      requires Valid() && eType == NEAR && bStart && !bEof
      ensures res <==> NearRow(parts, nears, iDocid)
    {
      hide QueryNear.Sound, QueryNear.NearMatch, QueryNear.Held, QueryNear.Distinct;
      var b, tokens, dists := Lists();
      ghost var cur;
      res, cur := QueryNear.EvalNearTest(b, tokens, dists, ClusterAt(parts, nears, iDocid));
    }

    /** The test of a NEAR whose operands match the row: it is left to the topmost
        one. */
    method NearHolds(d: int) returns (near: bool)
      requires Valid() && eType == NEAR && bStart && !pRight.bEof && pRight.iDocid == d && Accurate(pLeft.V(), pLeft.Matches, d, true)
      ensures near == nearTest(d) && !bEof && iDocid == d
    {
      hide NearRow, Listed, Linked, Accurate, MatchesOf;
      BothStand(V(), pLeft.V(), pRight.V(), pLeft.Matches, d, true);
      near := true;
      if !bEof && !underNear {
        near := NearTest();
      }
    }

    /** Whether the expression matches row `d`, judged by the phrases that stand on
        it and by their positions there. */
    method TestExpr(d: int) returns (bHit: bool)
      requires Valid() && bStart
      ensures Accurate(V(), Matches, d, bHit)
      ensures bHit && (eType == PHRASE || eType == NEAR) ==> !bEof && iDocid == d
      decreases Repr, 4
    {
      if eType == PHRASE {
        bHit := !bEof && iDocid == d;
      } else {
        pLeft.MatchesIn();
        pRight.MatchesIn();
        hide MatchesOf, Accurate, NearRow, Listed, Linked, Clustered;
        StartedTogether(eType, V(), pLeft.V(), pRight.V());
        var bHit1 := pLeft.TestExpr(d);
        var bHit2, near := false, true;
        ghost var hr := Truly(pRight.V(), pRight.Matches, d);
        if eType == OR || bHit1 {
          bHit2 := pRight.TestExpr(d);
          hr := bHit2;
        }
        if eType == NEAR && bHit1 && bHit2 {
          near := NearHolds(d);
        }
        bHit := Combine(eType, bHit1, bHit2, near);
        ghost var n: int -> bool := nearTest;
        TestCombines(eType, V(), pLeft.V(), pRight.V(), pLeft.Matches, pRight.Matches, n, d, bHit1, hr);
      }
    }
  }

  lemma JoinedLists(b1: seq<array<Varint.Byte>>, b2: seq<array<Varint.Byte>>, c1: seq<seq<Doclist.Column>>, c2: seq<seq<Doclist.Column>>)
    requires QueryNear.Held(b1, c1) && QueryNear.Held(b2, c2) && QueryNear.Distinct(b1) && QueryNear.Distinct(b2)
    requires forall i, j :: 0 <= i < |b1| && 0 <= j < |b2| ==> b1[i] != b2[j]
    ensures QueryNear.Held(b1 + b2, c1 + c2) && QueryNear.Distinct(b1 + b2)
  {
    hide QueryNear.Padded;
  }

  /** What a phrase brings into a NEAR query. */
  lemma PhraseCluster(desc: bool, docs: seq<Doclist.Doc>, order: Doclist.Order, n: nat, nToken: nat, a: seq<Varint.Byte>, d: int, list: array<Varint.Byte>)
    requires DoclistIterate.ValidList(a, docs, order) && 0 < n <= |docs| && nToken > 0
    requires var k := QueryPhrase.Current(desc, docs, order, n); d == docs[k].id && list[..] == Doclist.EncodePoslist(docs[k].columns)
    ensures var q := ClusterAt([Part(docs, nToken)], [], d);
            QueryNear.Sound(q) && q.tokens == [nToken] && QueryNear.Held([list], q.lists) && QueryNear.Distinct([list])
  {
    var k := QueryPhrase.Current(desc, docs, order, n);
    QueryPhrase.ColumnsAre(docs, order, Doclist.Start, k);
    hide DoclistPhrase.ColumnsOf, Doclist.ValidColumns, Doclist.EncodePoslist, QueryPhrase.Current;
    assert list[..] == Doclist.EncodePoslist(docs[k].columns) + QueryNear.Zeros(0);
  }

  /** A test that is always accurate. */
  ghost function Truly(v: View, matches: set<int>, d: int): (hit: bool)
    ensures Accurate(v, matches, d, hit)
  {
    v.bStart && !v.bEof && d == v.iDocid && d in matches
  }

  lemma BothStand(v: View, l: View, r: View, ml: set<int>, d: int, hl: bool)
    requires Linked(NEAR, v, l, r) && v.bStart && hl && Accurate(l, ml, d, hl)
    requires !r.bEof && r.iDocid == d
    ensures !v.bEof && v.iDocid == d
  {
  }

  lemma PhraseSteps(docids: seq<int>, next: nat, v: View, w: View)
    requires Ordered(v.desc, docids) && v.stops == Members(docids) && next <= |docids| && !v.bEof
    requires (v.bStart <==> next > 0) && (v.bStart ==> v.iDocid == docids[next - 1])
    requires w == v.(bStart := true, bEof := next == |docids|, iDocid := w.iDocid)
    requires next < |docids| ==> w.iDocid == docids[next]
    ensures Stepped(v, w)
  {
  }

  lemma NotStarted(k: Kind, v: View, l: View, r: View)
    requires l.Ok() && r.Ok() && !v.bStart && !l.bStart && !r.bStart && !v.bEof && v.iDocid == 0
    requires l.desc == v.desc == r.desc && v.stops == StopsOf(k, l.stops, r.stops)
    ensures Linked(k, v, l, r) && v.Ok()
  {
  }

  lemma MatchesAreStops(k: Kind, l: set<int>, r: set<int>, ml: set<int>, mr: set<int>, near: int -> bool)
    requires ml <= l && mr <= r
    ensures MatchesOf(k, ml, mr, near) <= StopsOf(k, l, r)
  {
  }

  /** The direction does not matter to which docids there are. */
  lemma SameMembers(desc: bool, docs: seq<Doclist.Doc>, order: Doclist.Order)
    requires Doclist.ValidDocs(docs, order, Doclist.Start)
    ensures var s := QueryPhrase.Visits(desc, docs, order); Ordered(desc, s) && Members(s) == Members(QueryPhrase.Docids(docs))
  {
    QueryPhrase.VisitsOrdered(desc, docs, order);
    var s, d := QueryPhrase.Visits(desc, docs, order), QueryPhrase.Docids(docs);
    assert forall i :: 0 <= i < |d| ==> d[i] in s by {
      forall i | 0 <= i < |d| ensures d[i] in s { assert s[i] == d[i] || s[|d| - 1 - i] == d[i]; }
    }
  }

  lemma OperandsAlive(k: Kind, v: View, l: View, r: View)
    requires Linked(k, v, l, r) && !v.bEof
    ensures k == NOT ==> !l.bEof
    ensures k == AND || k == NEAR ==> !l.bEof && !r.bEof
    ensures !v.bStart ==> !l.bEof && !r.bEof && l.iDocid == r.iDocid
    ensures l.bStart == v.bStart == r.bStart && v.stops == StopsOf(k, l.stops, r.stops) && v.desc == l.desc == r.desc
    ensures k == NOT && v.bStart ==> l.iDocid == v.iDocid
    ensures v.Ok() && l.Ok() && r.Ok()
  {
  }

  lemma NotStops(l: set<int>, r: set<int>)
    ensures StopsOf(NOT, l, r) == l
  {
  }

  lemma StartedTogether(k: Kind, v: View, l: View, r: View)
    requires Linked(k, v, l, r)
    ensures l.bStart == v.bStart == r.bStart
  {
  }

  lemma SteppedFacts(v: View, w: View)
    requires Stepped(v, w)
    ensures w.desc == v.desc && w.stops == v.stops && w.Ok() && w.bStart
  {
  }

  // ---- the cursor ----

  class Fts3Cursor {
    const Expr: Fts3Expr?
    var isEof: bool
    var iPrevId: int

    ghost predicate Valid()
      reads this, if Expr == null then {} else Expr.Repr
    {
      Expr != null ==> Expr.Valid() && isEof == Expr.bEof && (Expr.bStart ==> iPrevId == Expr.iDocid)
    }

    ghost function Matches(): set<int> {
      if Expr == null then {} else Expr.Matches
    }

    ghost function Descending(): bool {
      Expr != null && Expr.desc
    }

    /** The matching rows that have not been visited. */
    ghost function Pending(): set<int>
      requires Valid()
      reads this, if Expr == null then {} else Expr.Repr
    {
      if Expr == null || isEof then {}
      else if !Expr.bStart then Expr.Matches
      else Expr.Matches * Expr.V().Todo() - {iPrevId}
    }

    constructor (expr: Fts3Expr?)
      requires expr != null ==> expr.Valid() && !expr.bStart
      ensures Valid() && !isEof && Expr == expr && Pending() == Matches()
    {
      Expr, isEof, iPrevId := expr, false, 0;
    }

    /** Advances to the next matching row: the first of those pending, or the
        end of file when there is none. */
    method EvalNext()
      requires Valid() && !isEof
      modifies this, if Expr == null then {} else Expr.Repr
      ensures Valid()
      ensures isEof <==> old(Pending()) == {}
      ensures !isEof ==> && iPrevId in old(Pending())
                         && (forall d :: d in old(Pending()) ==> !Before(Descending(), d, iPrevId))
      ensures Pending() == if isEof then {} else old(Pending()) - {iPrevId}
    {
      hide Fts3Expr.Valid, From, Stepped, Linked;
      if Expr == null {
        isEof := true;
      } else {
        ghost var pending := Pending();
        NextStop(pending);
        var hit := TestRow();
        while !isEof && !hit
          invariant Valid() && Expr.bStart && isEof == Expr.bEof && Expr.V().Ok()
          invariant pending == Expr.Matches * Expr.V().Todo()
          invariant !isEof ==> (hit <==> iPrevId in Expr.Matches)
          decreases Expr.V().Todo()
        {
          NextStop(pending);
          hit := TestRow();
        }
        if !isEof { AtMatch(Expr.V(), Expr.Matches); }
      }
    }

    method TestRow() returns (hit: bool)
      requires Valid() && Expr != null && Expr.bStart
      ensures !isEof ==> (hit <==> iPrevId in Expr.Matches)
    {
      hide Fts3Expr.Shape, Fts3Expr.State;
      hit := false;
      if !isEof { hit := Expr.TestExpr(iPrevId); }
    }

    /** One turn of the loop: on to the next stop of the expression. */
    method NextStop(ghost pending: set<int>)
      requires Valid() && !isEof && Expr != null
      requires if Expr.bStart then pending == Expr.Matches * Expr.V().Todo() - {iPrevId} else pending == Expr.Matches
      modifies this, Expr.Repr
      ensures Valid() && Expr.bStart && isEof == Expr.bEof && Expr.V().Ok()
      ensures pending == Expr.Matches * Expr.V().Todo()
      ensures old(Expr.bStart) ==> Expr.V().Todo() < old(Expr.V().Todo())
    {
      ghost var v := Expr.V();
      Expr.NextRow();
      isEof := Expr.bEof;
      iPrevId := Expr.iDocid;
      StopTaken(v, Expr.V(), Expr.Matches);
    }

    /** Visits every row. */
    method AllRows() returns (rows: seq<int>)
      requires Valid() && !isEof && Pending() == Matches()
      modifies this, if Expr == null then {} else Expr.Repr
      ensures Ordered(Descending(), rows) && Members(rows) == Matches() && isEof
    {
      rows := [];
      EvalNext();
      while !isEof
        invariant Valid()
        invariant Visited(Descending(), rows, isEof, iPrevId, Pending(), Matches())
        decreases !isEof, Pending()
      {
        ghost var pending, row := Pending(), iPrevId;
        rows := rows + [iPrevId];
        EvalNext();
        VisitedStep(Descending(), rows, row, pending, isEof, iPrevId, Matches());
      }
    }
  }

  /** The rows visited so far, the row under the cursor and the pending rows
      make up the matches, in cursor order. */
  ghost predicate Visited(desc: bool, rows: seq<int>, eof: bool, row: int, pending: set<int>, matches: set<int>) {
    && Ordered(desc, rows)
    && if eof then Members(rows) == matches
       else && Members(rows) + {row} + pending == matches
            && (forall d :: d in rows ==> Before(desc, d, row))
            && (forall d :: d in pending ==> Before(desc, row, d))
  }

  lemma VisitedStep(desc: bool, rows: seq<int>, row: int, pending: set<int>, eof: bool, row': int, matches: set<int>)
    requires rows != [] && row == rows[|rows| - 1]
    requires Visited(desc, rows[..|rows| - 1], false, row, pending, matches)
    requires eof <==> pending == {}
    requires !eof ==> row' in pending && forall d :: d in pending ==> !Before(desc, d, row')
    ensures Visited(desc, rows, eof, row', if eof then {} else pending - {row'}, matches)
  {
    var front := rows[..|rows| - 1];
    assert rows == front + [row];
    assert Members(rows) == Members(front) + {row};
    if !eof { assert Members(rows) + {row'} + (pending - {row'}) == matches; }
  }

  lemma StopTaken(v: View, w: View, matches: set<int>)
    requires v.Ok() && !v.bEof && Stepped(v, w) && matches <= v.stops
    ensures matches * w.Todo() == if v.bStart then matches * v.Todo() - {v.iDocid} else matches
    ensures v.bStart ==> w.Todo() < v.Todo()
  {
    if v.bStart { StepShrinks(v, w); }
  }

  lemma AtMatch(v: View, matches: set<int>)
    requires v.Ok() && v.bStart && !v.bEof
    ensures v.iDocid in v.Todo()
    ensures forall d :: d in matches * v.Todo() ==> !Before(v.desc, d, v.iDocid)
  {
  }

  lemma NoMembers(a: seq<int>, b: seq<int>)
    requires forall d :: d in a <==> d in b
    ensures a == [] <==> b == []
  {
    if a != [] {
      var d := a[0];
      assert d in a;
      assert d in b;
    }
    if b != [] {
      var d := b[0];
      assert d in b;
      assert d in a;
    }
  }

  /** Rows in order are determined by which they are. */
  lemma {:induction false} OrderedUnique(desc: bool, a: seq<int>, b: seq<int>)
    requires Ordered(desc, a) && Ordered(desc, b) && (forall d :: d in a <==> d in b)
    ensures a == b
  {
    if a == [] || b == [] {
      NoMembers(a, b);
    } else {
      assert a[0] in a && b[0] in b;
      assert a[0] == b[0];
      var a', b' := a[1..], b[1..];
      assert a == [a[0]] + a' && b == [b[0]] + b';
      forall d ensures d in a' <==> d in b' {
        if d in a' { assert d in a && d != a[0]; }
        if d in b' { assert d in b && d != b[0]; }
      }
      OrderedUnique(desc, a', b');
    }
  }
}

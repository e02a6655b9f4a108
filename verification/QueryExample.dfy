/** A query of two phrases from its doclist bytes to its rows. */
module QueryExample {
  import opened Varint
  import opened Doclist
  import opened DoclistIterate
  import DoclistPhrase
  import QueryPhrase
  import QueryNear
  import opened QueryEval

  /** The documents of phrase a, and of phrase b, which follows a in document 2. */
  const LEFT: seq<Doc> := [Doc(1, [Column(0, [0])]), Doc(2, [Column(0, [0])])]
  const RIGHT: seq<Doc> := [Doc(2, [Column(0, [1])])]
  const ASCENDING := Order(false, 0)

  lemma OnePosition(p: nat)
    requires p < 126
    ensures EncodePoslist([Column(0, [p])]) == [p + 2, 0] && ValidColumns([Column(0, [p])], -1)
  {
    var ps, cs := [p], [Column(0, [p])];
    assert ps[1..] == [] && cs[1..] == [];
    assert Encode(p + 2) == [p + 2];
    assert EncodePositions(ps, -1) == [p + 2] + EncodePositions([], p);
    assert EncodeColumn(cs[0]) == [p + 2];
    assert EncodeColumns(cs) == [p + 2];
    assert Sorted(ps, -1) && ValidColumn(cs[0]);
    assert ValidColumns(cs[1..], 0);
  }

  /** What the documents look like as bytes. */
  lemma TheLists()
    ensures ValidList([1, 2, 0, 1, 2, 0], LEFT, ASCENDING) && ValidList([2, 3, 0], RIGHT, ASCENDING)
  {
    OnePosition(0);
    OnePosition(1);
    assert LEFT[1..] == [LEFT[1]] && LEFT[1..][1..] == [] && RIGHT[1..] == [];
    hide EncodePoslist, ValidColumns;
    assert Encode(1) == [1] && Encode(2) == [2];
    assert EncodeDocs(LEFT[1..], After(1)) == [1, 2, 0];
    assert EncodeDocs(LEFT, Start) == [1, 2, 0, 1, 2, 0];
    assert EncodeDocs(RIGHT, Start) == [2, 3, 0];
    assert ValidDocs(LEFT[1..], ASCENDING, After(1));
    assert DoclistPhrase.NonEmpty(LEFT[1..]);
  }

  lemma TheDocids()
    ensures forall d :: d in Members(QueryPhrase.Docids(LEFT)) <==> d == 1 || d == 2
    ensures forall d :: d in Members(QueryPhrase.Docids(RIGHT)) <==> d == 2
  {
    assert QueryPhrase.Docids(LEFT) == [1, 2] && QueryPhrase.Docids(RIGHT) == [2];
  }

  lemma TheChain()
    ensures NearRow([Part(LEFT, 1)] + [Part(RIGHT, 1)], [] + [0], 2)
  {
    OnePosition(0);
    OnePosition(1);
    var q := ClusterAt([Part(LEFT, 1)] + [Part(RIGHT, 1)], [] + [0], 2);
    assert LEFT[1..] == [LEFT[1]];
    assert DoclistPhrase.ColumnsOf(LEFT[1..], 2) == [Column(0, [0])];
    assert q.lists == [[Column(0, [0])], [Column(0, [1])]] && q.tokens == [1, 1] && q.nears == [0];
    assert (0, 0) in ColumnHits(q.lists[0]) && (0, 1) in ColumnHits(q.lists[1]);
    var hs: seq<QueryNear.Hit> := [(0, 0), (0, 1)];
    assert QueryNear.Beside(q, 0, hs[0], hs[1]);
    assert QueryNear.Chain(q, hs);
  }

  /** Phrase a in documents 1 and 2, phrase b directly after it in document 2: the
      rows of `a NOT b`, `a OR b`, `a AND b` and `a NEAR/0 b`. */
  method TwoPhraseQuery(eType: Kind, desc: bool) returns (rows: seq<int>)
    requires eType != PHRASE
    ensures eType == NOT ==> rows == [1]
    ensures eType == OR ==> rows == if desc then [2, 1] else [1, 2]
    ensures eType == AND || eType == NEAR ==> rows == [2]
  {
    hide Fts3Expr.Valid, NearRow, MatchesOf, ValidList;
    TheLists();
    var a := new Fts3Expr.Phrase(desc, false, [1, 2, 0, 1, 2, 0], 1, LEFT, ASCENDING);
    var b := new Fts3Expr.Phrase(desc, false, [2, 3, 0], 1, RIGHT, ASCENDING);
    var e := new Fts3Expr.Binary(eType, a, b, 0, false);
    var c := new Fts3Cursor(e);
    rows := c.AllRows();
    TheChain();
    TheDocids();
    assert forall d :: d in rows <==> d in Members(rows);
    OrderedUnique(desc, rows, if eType == NOT then [1] else if eType != OR then [2] else if desc then [2, 1] else [1, 2]);
  }
}

# Verified models of the SQLite core algorithms

This project states and proves what the hard algorithms of this SQLite translation are for. Each part has a simple meaning (a set of hits, a map, a truth table, a tree, a calendar date) and the code that works on bytes, registers, pointers or pages is proved to refine it.

* **Full-text doclists** (`Varint`, `Doclist*`, `SegmentTree`): delta-varint lists, union, phrase and NEAR merges over byte buffers (the phrase merge in place, over its own input), iteration in both directions, merging of prefix terms, and the choice of b-tree leaves.
* **Full-text queries** (`QueryParser`, `QueryTree`, `QueryOld`, `QueryPhrase`, `QueryNear`, `QueryEval`, `QueryExample`, `Snippet`, `HashTable`): the operator-precedence parser, as a function and as the code that relinks nodes, for the syntax with parentheses and the one without, the test of NEAR clusters, the iterator tree of NEAR, AND, OR and NOT over the doclist bytes of phrases, the best-snippet search, and the chained hash table threaded on one linked list.
* **Expressions** (`ExprMachine`, `ExprSpec`, `ExprCases`, `ExprSteps`, `ExprCode`): the compiler from three-valued logic to jumps, with its register pool and column cache, against a small virtual machine. `ExprSpec` is a calculus of what a piece of emitted code does from any state in which the cache is right; `ExprCases` has one lemma per shape of code, `ExprSteps` one per step of the compiler; `ExprCode` is the compiler itself.
* **Counters, copies, samples** (`ForeignKeys`, `BackupPages`, `BackupView`, `Backup`, `BackupRun`, `Stat3`): constraint counters adjusted row by row, the online backup with a writer behind its cursor, and the stat3 sampler. `BackupView` is the backup as a state machine, `Backup` the object that follows it exactly, and `BackupRun` what holds over every run.
* **Values** (`Pattern`, `Date`): LIKE and GLOB matching, and calendar conversion.

Objects that the code updates are classes; loops are loops; each method is proved against a function, or against the property itself. What such a function means is in turn stated without it: in words of the data (`DoclistFormat.HitsMean`, `ForeignKeys.ViolationsMean`, `Snippet.WindowScoreCounts`), by laws (`ExprMachine.ComparisonLaws`, `QueryParser.ParsedBinds`) and at small inputs (`QueryExample.TwoPhraseQuery`, `DoclistFormat.DocumentedExample`). Byte buffers carry ghost values that say which list they encode; `DoclistCodec.DocsUnique` shows that such a value is determined by the bytes.

Some properties one would expect turn out to be false of the code. Each is given with its exact condition:

* The in-place phrase merge can overrun its input when a descending list mixes signs: `DoclistPhrase.InPlaceExactly`, `DoclistPhrase.DescendingOverrun`.
* A refused insert of one row leaves the deferred-constraint counter raised, and the transaction cannot be committed: `ForeignKeys.Engine.Run`, `ForeignKeys.LeakedByNone`, `ForeignKeys.RefusedBlocksCommit`.
* A backup that meets a lock while it copies or commits may lose that page, or later writes to the pages already copied: `BackupRun.StepSound`, `BackupRun.RunSound`, `BackupRun.LostPage`, `BackupRun.LostWrite`, `BackupRun.UnsoundLoses`.
* AND, OR and NOT of a column, register or literal mean one thing as conditions and another as values exactly if its real and its integer reading differ, as they do for numbers strictly between -1 and 1 other than 0: `ExprMachine.LeafAsCondition`, `ExprMachine.ReadingsDiffer`, `ExprMachine.OneHalf`. For whole expressions agreement on these operands suffices: `ExprMachine.AlikeMeans`.
* Empty brackets silently end the level of a full-text query they stand in: `QueryParser.ParserExact`, `QueryParser.EmptyBracketsEnd`, `QueryParser.EmptyBracketsDrop`, `QueryParser.EmptyBracketsNested`.
* The calendar conversion does not give back dates before 1 March -4716, dates in March-based century years before the year 0 that are no leap years (from 1 March -100 to the end of February -99, for example), and 1 March 300, while it gives back 29 February of 300 and of every fourth century year before it down to -4500, which do not exist: `Date.RoundTrip`, `Date.NotGivenBack`. Before the Julian epoch any time of day but midnight moves a date on: `Date.ThereAndBack`.
* LIKE patterns do not mean what the standard says if an escape character stands before nothing, or before anything but a wildcard or an escape character, or if it is a wildcard that occurs in the pattern: `Pattern.LikeIsStandard`, `Pattern.LetterEscaped`, `Pattern.WildcardEscape`, `Pattern.DanglingEscape`.

Where the text of the code and its evident intention differ, the intention is modelled: the loop guard of the backup step is "while the result is OK" and its page count is the parameter (backup.go:287); range loops over the column cache update the cache itself and a cleared line returns its register to the pool (expr.go:1342-1347); the varint code is little-endian although an example in a comment is not (fts3.go:42). The comment on OP_IfNot says that NULL jumps if P3 is zero; the code, and the model, jump if it is not (vdbe.go:1771-1789). The register that remembers whether the right side of an IN holds a NULL is reset on every evaluation (expr.go:993, expr.go:1007), so that its cached value is in fact never reused; the membership test is proved correct with and without the reset. The comment on a halted insert says that no statement transaction is open (fkey.go:290), and accordingly nothing restores the counter (vdbeaux.go:971, vdbeaux.go:1331).

`dafny verify dfyconfig.toml` checks the whole project.

## Model

| member | source | states |
|---|---|---|
| `Varint.PutVarint` | fts3.go:1019-1028 | writes exactly the canonical encoding of an int64 at the cursor and touches no other byte of the buffer |
| `Varint.GetVarint` | fts3.go:1036-1046 | returns the two's complement reading of the decoded value modulo 2^64 and the number of bytes used, at most ten |
| `Varint.SizeBound` | fts3.go:1019-1028 | an encoding has between one and ten bytes |
| `Varint.NegativeIsTenBytes` | fts3.go:1019-1028 | every negative number takes ten bytes |
| `Varint.LengthSubadditive` | fts3.go:1019-1028 | encoding a sum takes no more bytes than encoding the parts, which is why merged deltas never grow |
| `Varint.DecodeEncode` | fts3.go:1019-1046 | decoding what was encoded gives it back, whatever follows |
| `Varint.EncodeInjective` | fts3.go:1019-1046 | no encoding is a prefix of another: two readings of the same bytes agree on the number and on the rest |
| `Varint.ReadBack` | fts3.go:1019-1046 | a number standing in a buffer is readable there and is read as itself |
| `Doclist.EncodeDocsConcat` | fts3.go:47-95 | the format of a list can be cut at any document, the deltas of the second part continuing from the last docid |
| `DoclistCodec.DocsUnique` | fts3.go:47-95 | a buffer encodes at most one valid doclist |
| `DoclistFormat.EncodeDigits` | fts3.go:1019-1028 | byte i holds the i-th group of seven bits, lowest first, and its high bit says whether anything is left |
| `DoclistFormat.EncodeSamples` | fts3.go:1019-1028 | 300 is written as 172, 2, and -1 is the greatest unsigned number |
| `DoclistFormat.HitsMean` | fts3.go:92-96 | a hit of a doclist is a position of a column of one of its documents |
| `DoclistFormat.DocumentedExample` | fts3.go:78-90 | the example list of two documents has exactly the bytes given with the format |
| `DoclistPrefix.AllHitsMean` | fts3.go:3187-3243 | what the slots hold together is what any one of them holds |
| `DoclistScan.PoslistEnd` | fts3.go:2452-2479 | stops exactly behind the terminator of the position list, not at a zero byte inside a number |
| `DoclistScan.ColumnlistEnd` | fts3.go:2498-2516 | stops exactly at the byte that ends the column |
| `DoclistScan.ReadVarint` | fts3.go:1036-1046 | reads the number that stands at the cursor and moves behind it |
| `DoclistUnion.MergePositionsIsUnion` | fts3.go:2581-2646 | the merged positions are sorted, free of duplicates and exactly the union |
| `DoclistUnion.MergeColumnsIsUnion` | fts3.go:2581-2646 | the merge of two position lists holds exactly the (column, position) pairs of either, in order |
| `DoclistUnion.MergeDocsIsUnion` | fts3.go:2933-3011 | the merged doclist is valid in either order and holds exactly the union of docids and of (docid, column, position) hits |
| `DoclistUnion.MergeColumnsSize` | fts3.go:2581-2646 | a merged position list is never longer than its two inputs together |
| `DoclistUnion.MergeDocsSize` | fts3.go:2933-3011 | the union is shorter than n1+n2+FTS3_VARINT_MAX-1 bytes, also with negative first docids |
| `DoclistOrMerge.ReadNextPos` | fts3.go:2542-2552 | moves to the next position of the list or reports its end |
| `DoclistOrMerge.PutColNumber` | fts3.go:2563-2572 | writes the header of a column, nothing for column 0 |
| `DoclistOrMerge.PoslistMerge` | fts3.go:2581-2646 | the bytes written encode the union of the two position lists; both readers end behind theirs |
| `DoclistOrMerge.GetDeltaVarint3` | fts3.go:2853-2870 | the reader stands on the next document or at the end, for ascending and descending lists |
| `DoclistOrMerge.PutDeltaVarint3` | fts3.go:2887-2905 | writes the first docid in full and later ones as distances |
| `DoclistOrMerge.OrMerge` | fts3.go:2933-3011 | for any two valid doclists the output buffer, of n1+n2+VARINT_MAX-1 bytes, starts with the encoding of their union and is never overrun |
| `DoclistNear.KeptMembers` | fts3.go:2698-2766 | the kept positions are sorted and are exactly those close enough to some position of the other list |
| `DoclistNear.ScanStep` | fts3.go:2715-2732 | each step of the two-pointer scan decides a position correctly for good and skips only positions that cannot matter any more |
| `DoclistNear.ColumnScanStep` | fts3.go:2698-2766 | the same for the scan over columns |
| `DoclistNear.SubsetSize` | fts3.go:2715-2732 | dropping positions never makes the encoded column longer |
| `DoclistPhraseMerge.PoslistPhraseMerge` | fts3.go:2671-2778 | writes exactly the kept positions, in all three modes and also over its own second input, and reports whether there are any |
| `DoclistPhraseMerge.NearColumnsMembers` | fts3.go:2795-2827 | the union of the two passes holds a right position p exactly if some left q of its column satisfies q < p <= q+nRight or p < q <= p+nLeft |
| `DoclistPhraseMerge.PoslistNearMerge` | fts3.go:2795-2827 | the bytes written encode exactly those positions, the scratch buffer suffices, and the result tells whether any is left |
| `DoclistPhrase.PhraseDocsValid` | fts3.go:3025-3073 | the result of a phrase merge is again a valid doclist of the same order without empty position lists |
| `DoclistPhrase.PhraseDocsHit` | fts3.go:3025-3073 | a hit survives exactly if it is a right hit lying nDist behind a left hit of the same document and column |
| `DoclistPhrase.PhraseMerge` | fts3.go:3025-3073 | while the write cursor stays behind the read cursor, the buffer of the right input ends up starting with the encoding of the result |
| `DoclistPhrase.FitsHolds` | fts3.go:3025-3073 | a condition on the right list alone keeps the write cursor behind the read cursor whatever the left list is |
| `DoclistPhrase.MisfitBreaks` | fts3.go:3025-3073 | if that condition fails, some left list makes the write cursor pass |
| `DoclistPhrase.InPlaceExactly` | fts3.go:3025-3073 | merging in place is safe for every left list if and only if the right list meets the condition |
| `DoclistPhrase.UnmixedFits` | fts3.go:3025-3073 | ascending lists, and descending ones whose docids are all non-negative or all negative, meet it |
| `DoclistPhrase.DescendingOverrun` | fts3.go:3025-3073 | a concrete descending list of mixed sign that the merge overruns |
| `DoclistPrefix.TermSelect.Merge` | fts3.go:3187-3243 | adding a doclist to the sixteen slots adds exactly its hits and docids to what they hold together |
| `DoclistPrefix.TermSelect.FinishMerge` | fts3.go:3135-3171 | the first slot ends up with one valid doclist holding the hits and docids of all slots |
| `DoclistIterate.DoclistNext` | fts3.go:4587-4617 | moves from one document to the next, giving its docid and where its position list starts, then reports the end |
| `DoclistIterate.GetReverseVarint` | fts3.go:1129-1146 | reads the number that ends before the cursor |
| `DoclistIterate.ReversePoslist` | fts3.go:3845-3856 | from the end of a position list finds its start without decoding it |
| `DoclistIterate.LastDoc` | fts3.go:4547-4566 | the first backward step finds the last document by scanning forward |
| `DoclistIterate.DoclistPrev` | fts3.go:4531-4582 | moves from a document to the one before it, or reports the end |
| `DoclistIterate.TraverseForward` | fts3.go:4587-4617 | visits exactly the documents of the list with their list starts, in order |
| `DoclistIterate.TraverseBackward` | fts3.go:4531-4582 | visits exactly the reverse of that sequence |
| `SegmentTree.Memcmp` | fts3.go:2337-2346 | distinguishes "smaller" from "smaller and not a prefix", the two tests made on node terms |
| `SegmentTree.BeforeMeans` | fts3.go:2337-2346 | terms are ordered by their first difference, and a term comes after its prefixes |
| `SegmentTree.ChildrenMean` | fts3.go:2337-2350 | the first child stands exactly before the first node term that is greater, the last exactly before the first that is greater and does not begin with the term |
| `SegmentTree.TermsSample` | fts3.go:151-178 | two terms sharing a prefix, and their bytes |
| `SegmentTree.ScanInteriorNode` | fts3.go:2260-2357 | decodes the prefix-compressed terms of a node and finds the children where the term, and the last term it begins, would be |
| `SegmentTree.ChildInRange` | fts3.go:2260-2357 | a subtree holding the term or a term it begins is neither before the first child nor behind the last |
| `SegmentTree.SelectedIsLeaf` | fts3.go:2381-2422 | the block chosen is always a leaf of the tree |
| `SegmentTree.RangeOrdered` | fts3.go:2381-2422 | for a segment of any height the first leaf chosen is not behind the last |
| `SegmentTree.RangeCovers` | fts3.go:2381-2422 | every leaf holding the term, or a term it is a prefix of, lies in the range |
| `SegmentTree.SelectLeaf` | fts3.go:2381-2422 | the two descents, shared as long as they agree, reach exactly these leaves |
| `QueryEval.Fts3Expr.NextRow` | fts3.go:5156-5264 | a node moves to the first of its remaining stops, drops it from them, and ends when there are none |
| `QueryEval.Fts3Expr.NextAnd` | fts3.go:5167-5202 | AND and NEAR stop at the common stops of both sides |
| `QueryEval.Fts3Expr.NextOr` | fts3.go:5204-5230 | OR stops at the stops of either side, each once, in order |
| `QueryEval.Fts3Expr.NextNot` | fts3.go:5232-5253 | NOT stops at every left stop, with the right side advanced level with it or past it; exclusion is left to the test of the row |
| `QueryEval.Fts3Expr.TestExpr` | fts3.go:5363-5445 | at a stop the test of the tree is true exactly if the document matches; a NEAR matches if the current position lists hold a chain of its phrases, and only the topmost NEAR of a cluster is tested |
| `QueryEval.OperatorMeans` | fts3.go:5363-5445 | NOT keeps what is in the left operand and not in the right, OR what is in either, AND what is in both, NEAR what is in both and close |
| `QueryEval.OperatorBounds` | fts3.go:5363-5445 | OR is the least set with both operands' matches, AND the greatest within both |
| `QueryEval.Fts3Expr.Binary` | fts3.go:5363-5445 | the matches of a new node in terms of those of its operands, document by document |
| `QueryExample.TwoPhraseQuery` | fts3.go:5501-5521 | two phrases given as doclist bytes: the rows of NOT, OR, AND and NEAR in either direction |
| `QueryEval.Fts3Expr.NearTest` | fts3.go:5281-5349 | the position lists in the doclist bytes of all phrases of a NEAR query decide whether the row holds a chain of them |
| `QueryNear.EvalNearTest` | fts3.go:5281-5349 | cutting the lists from left to right and back succeeds exactly if there is one hit of every phrase in the same column with neighbours close enough; each list is then left with exactly the hits that lie on such a chain |
| `QueryNear.TrimBack` | fts3.go:5334-5345 | the way back never fails |
| `QueryNear.EvalNearTrim` | fts3.go:5082-5115 | cuts a list in place to the hits near the other phrase, and clears the bytes behind it |
| `QueryNear.ThroughIsChain` | fts3.go:5276-5280 | a hit that is reached from both sides lies on a chain of all phrases, and only such a hit is |
| `QueryNear.BesideMeans` | fts3.go:5060-5100 | two hits are close if the phrases do not end together and at most the allowed number of tokens lies between the end of one and the start of the other |
| `QueryEval.Fts3Cursor.EvalNext` | fts3.go:5501-5521 | skips stops that do not match, ends on the next match or at the end, and terminates |
| `QueryEval.Fts3Cursor.AllRows` | fts3.go:5501-5521 | successive calls visit exactly the documents in the meaning of the tree over the documents that the phrases' doclist bytes encode, with NEAR as the existence of a chain of positions, each once, in cursor order |
| `QueryPhrase.PhraseForward` | fts3.go:4652-4686 | reading on from a doclist offset, ascending or descending, gives the next docid, its position list and the offset of the one after it, or the end exactly when all are read |
| `QueryPhrase.PhraseNext` | fts3.go:4628-4690 | the n-th call gives the n-th docid in the cursor's direction and its position list, whichever direction the bytes have, and the call after the last gives the end |
| `QueryPhrase.VisitsOrdered` | fts3.go:4628-4690 | the docids so visited are strictly ordered in the cursor's direction |
| `QueryTree.InsertBinaryOperator` | fts3_expr.go:551-570 | climbing parent pointers and relinking the nodes there puts the operator below every looser one, with the tighter subtree as its left operand; the spine stays linked in both directions and finished operands are not touched |
| `QueryTree.AttachOperand` | fts3_expr.go:667-675 | an operand becomes the root or the right child of the operator inserted last, linked in both directions |
| `QueryTree.InsertOperator` | fts3_expr.go:630-678 | an operator is accepted exactly where one may stand, a NEAR only after a phrase |
| `QueryTree.InsertOperand` | fts3_expr.go:636-675 | an operand after an operand implies an AND, and after a NEAR only a phrase is accepted |
| `QueryTree.Parser.ExprParse` | fts3_expr.go:582-718 | the recursive loop over tokens builds a tree of nodes, each used once and linked to its parent and children, that is exactly the tree, position and bracket count of the specification, and fails exactly where that does |
| `QueryTree.Parser.Parse` | fts3_expr.go:772-781 | a query is an error if its brackets do not balance |
| `QueryParser.InsertOk` | fts3_expr.go:551-570 | the insertion keeps precedence, left association and the operands of NEAR, and adds just the operator to the text of the tree |
| `QueryParser.Sound` | fts3_expr.go:582-718 | every tree built is grouped by precedence from the left with correct NEAR operands; without empty brackets it renders to the tokens read |
| `QueryParser.Complete` | fts3_expr.go:582-718 | the text of any properly grouped tree is read as that tree, from any state that expects an operand |
| `QueryParser.RoundTrip` | fts3_expr.go:582-718 | parsing the text of a properly grouped tree gives the tree back |
| `QueryParser.GroupingUnique` | fts3_expr.go:515-541 | two properly grouped trees with the same text are equal |
| `QueryParser.ParserExact` | fts3_expr.go:582-718 | a query parses to a tree and has no empty brackets if and only if the tree is properly grouped and renders to the query |
| `QueryParser.AcceptedIsRead` | fts3_expr.go:582-718 | an accepted query is read to its end unless it contains empty brackets, and then its tree is not the query |
| `QueryParser.ParsedBinds` | fts3_expr.go:515-541 | in every tree returned, outside brackets, no operand of an AND is an OR, none of a NOT an AND or an OR, none of a NEAR another operator, and no right operand has the operator of its parent; without parentheses no operand of an OR is an AND |
| `QueryParser.ThreePhrases` | fts3_expr.go:515-541 | the trees of three phrases with AND and OR, NOT and AND, NEAR and NOT in both orders, and of two NOTs |
| `QueryParser.NearNeedsPhrase` | fts3_expr.go:648-665 | a bracketed operator on either side of a NEAR is an error |
| `QueryParser.EmptyBracketsEnd` | fts3_expr.go:450-459 | from any state and at any depth, empty brackets end that level as a closing bracket would, without closing its bracket |
| `QueryParser.EmptyBracketsDrop` | fts3_expr.go:450-459 | behind a complete query at the top level, empty brackets drop whatever follows |
| `QueryParser.EmptyBracketsNested` | fts3_expr.go:450-459 | inside brackets they close the group; what follows is read one level up with one bracket more to close |
| `QueryOld.OldExact` | fts3_expr.go:599-718 | without parentheses a query is accepted with a given tree if and only if its wanted part is the text of a properly grouped tree, where OR binds more tightly than the implied AND, and the tree is that one less the excluded phrases in order |
| `QueryOld.OrBeforeAnd` | fts3_expr.go:530-541 | `a b OR c` is a AND (b OR c) |
| `QueryOld.Exclusions` | fts3_expr.go:602-620 | `a -b c -d` is ((a AND c) NOT b) NOT d, and an exclusion alone is an error |
| `QueryOld.ExprParse` | fts3_expr.go:582-718 | the loop builds the wanted tree, linked in both directions, and hangs it under the chain of NOT nodes of the excluded phrases, all nodes being different; it fails exactly where the specification does, in particular for exclusions alone |
| `QueryOld.HangUnder` | fts3_expr.go:695-706 | the wanted tree becomes the left operand of the oldest NOT, and the rest of the chain is untouched |
| `Snippet.SnippetIter.NextCandidate` | fts3_snippet.go:243-283 | moves to the next window that ends on a hit, skipping none |
| `Snippet.SnippetIter.Details` | fts3_snippet.go:289-336 | computes the score of the current window, the phrases in it and the tokens to highlight |
| `Snippet.Advance` | fts3_snippet.go:221-238 | moves an iterator to the first position at or after a token |
| `Snippet.Dominated` | fts3_snippet.go:240-283 | for any window some candidate that starts no later scores at least as much |
| `Snippet.WindowScoreCounts` | fts3_snippet.go:310-321 | the score is the number of positions in the window plus 999 times the number of phrases there that are not covered |
| `Snippet.OneMoreHit` | fts3_snippet.go:314-318 | one more hit adds 1000 if it is the first of a phrase that is not covered, and 1 otherwise |
| `Snippet.DescribesMeans` | fts3_snippet.go:319-323 | the phrases reported are those with a position in the window, the highlighted tokens those of phrases ending there |
| `Snippet.TwoPhrases` | fts3_snippet.go:382-450 | two phrases side by side win over three hits of one |
| `Snippet.BestSnippet` | fts3_snippet.go:384-459 | of all windows starting at 0 or later, tried or not, the result is the earliest with the greatest score |
| `HashTable.InsertRuns` | fts3_hash.go:152-173 | putting an element before the first of its bucket, or at the front, keeps every bucket a contiguous run holding exactly its keys |
| `HashTable.RemoveRuns` | fts3_hash.go:234-266 | so does taking one out |
| `HashTable.Fts3Hash.InsertElement` | fts3_hash.go:152-173 | the doubly linked list gains the element at that place, pointers consistent in both directions |
| `HashTable.Fts3Hash.FindElementByHash` | fts3_hash.go:206-229 | finds the element of a key within its bucket, and only fails if the key is nowhere in the table |
| `HashTable.Fts3Hash.RemoveElement` | fts3_hash.go:234-266 | removes just that key; the table disappears with its last element |
| `HashTable.Fts3Hash.Rehash` | fts3_hash.go:182-200 | redistributing the elements, reusing their links while walking them, keeps the contents |
| `HashTable.Fts3Hash.Find` | fts3_hash.go:289-294 | returns the data stored last under the key, or 0 |
| `HashTable.Fts3Hash.Insert` | fts3_hash.go:311-367 | inserts, replaces or with 0 deletes one key of the map, returns the old data, and changes nothing else, whatever rehashing happens |
| `HashTable.Fts3Hash.Keys` | fts3_hash.go:152-173 | following the list enumerates every live key once |
| `HashTable.Fts3Hash.Apply` | fts3_hash.go:311-367 | any sequence of operations acts as on a map |
| `HashTable.AppliedLast` | fts3_hash.go:311-367 | the last operation on a key decides what the table holds for it, data 0 removing it |
| `HashTable.AppliedNone` | fts3_hash.go:311-367 | a key that no operation names is left alone |
| `HashTable.Fts3Hash.Clear` | fts3_hash.go:58-76 | empties the map |
| `ExprMachine.EvalStable` | vdbe.go:1706-1789 | the value of an expression depends only on the registers it names |
| `ExprMachine.ComparisonLaws` | vdbe.go:1607-1620 | values are totally ordered; > is < with the sides exchanged, <= is < or =, >= is > or = |
| `ExprMachine.LessTransitive` | vdbe.go:1607-1620 | < is transitive |
| `ExprMachine.LessMeans` | vdbe.go:1603-1620 | numbers compare as numbers, after NULL and before texts |
| `ExprMachine.CompareMeans` | vdbe.go:1575-1605 | a comparison with NULL is unknown, any other true or false |
| `ExprMachine.TruthTables` | vdbe.go:1721-1727 | AND, OR and NOT are the tables of the machine |
| `ExprMachine.TruthMeans` | vdbe.go:1706-1789 | truth in both readings, and the values of truths |
| `ExprMachine.MembershipMeans` | expr.go:1204-1208 | IN is true exactly for an equal element, and false exactly in the empty set or without one where no NULL is involved |
| `ExprMachine.RhsMeans` | expr.go:955-1010 | what the right side of an IN holds, by kind |
| `ExprMachine.TestsMean` | expr.go:1667-1745 | IS, IS NOT, ISNULL and NOTNULL are 1 or 0, with NULLs equal |
| `ExprMachine.InstructionSamples` | vdbe.go:1565-1800 | what the instructions do at chosen values |
| `ExprMachine.AlikeMeans` | vdbe.go:1699-1789 | where the real and the integer reading of truth agree on every column, register and literal that AND, OR or NOT is applied to, an expression is true as a condition exactly if it is true as a value, and both are what one three-valued logic says |
| `ExprMachine.LeafAsCondition` | vdbe.go:1706-1789 | for every column, register or literal: NOT of it, AND of it with 1 and OR of it with 0 are each the same as condition and as value if and only if both readings of it agree |
| `ExprMachine.ReadingsDiffer` | vdbemem.go:203-230 | for numbers the readings agree exactly on 0 and outside the open interval from -1 to 1 |
| `ExprMachine.OneHalf` | vdbe.go:1737-1789 | NOT 0.5 is false as a condition and 1 as a value |
| `ExprMachine.RunOn` | expr.go:2363-2376 | code that is extended and whose labels are resolved later behaves as before up to where it used to end |
| `ExprSpec.InSequence` | expr.go:2372-2376 | two conditions jumping to one label decide one after the other, the cache being right where both fall through |
| `ExprSpec.Skipping` | expr.go:2363-2371 | a condition jumping over a second one: on both paths to the join the surviving cache lines are right |
| `ExprSpec.ScopeSteps` | expr.go:1409-1431 | after a cache context is left, only lines from before it remain and only registers allocated in it are freed |
| `ExprSpec.MemberRun` | expr.go:1245-1280 | the membership test leaves through the exit that the truth value asks for, from any state in which the has-NULL register is NULL or right, and leaves it NULL or right |
| `ExprSpec.NullTestRun` | expr.go:1235-1243 | a NULL on the left leads to the false exit if the set is empty and to the unknown exit otherwise |
| `ExprCases.JumpOpRight` | expr.go:2381-2407 | the comparison emitted, or its negation, jumps exactly if the comparison is true, respectively false, or NULL on demand |
| `ExprCases.InTurnDecides` | expr.go:2372-2376 | OR for truth and AND for falsehood may be decided by their operands in turn, with the same treatment of NULL |
| `ExprCases.SkipDecides` | expr.go:2363-2371 | AND for truth and OR for falsehood may skip the second operand when the first is tested the other way with NULL reversed |
| `ExprCases.BetweenJump` | expr.go:2303-2335 | the conjunction with the left side held in a register decides as the BETWEEN does |
| `ExprCases.InDoes` | expr.go:1209-1284 | the code of an IN falls through, or takes the false or the unknown exit, by the three-valued membership |
| `ExprCases.InValue` | expr.go:1864-1874 | the code of an IN as a value yields 1, 0 or NULL |
| `ExprCode.Parse.GetTempReg` | expr.go:2815-2824 | the register handed out was available, is in use now, and no cache line vouches for it |
| `ExprCode.Parse.ReleaseTempReg` | expr.go:2828-2838 | the register returns to the pool at once or, if cached, with its cache line; no register is ever free twice or free and cached |
| `ExprCode.Parse.CacheStore` | expr.go:1354-1395 | the column takes an empty line or the least recently used one, and the registers of the cache stay distinct |
| `ExprCode.Parse.CachePop` | expr.go:1415-1425 | drops exactly the lines added since the matching push |
| `ExprCode.Parse.GetColumn` | expr.go:1459-1476 | the register returned holds the column, whether it came from the cache or was read |
| `ExprCode.Parse.CodeTarget` | expr.go:1531-2072 | from any state in which the cache is right, the code leaves the value of the expression, over NULL, real numbers and texts, in the register returned, disturbs no other register in use, and leaves the cache right |
| `ExprCode.Parse.CodeTemp` | expr.go:2083-2093 | the same into a temporary, naming the register to release |
| `ExprCode.Parse.Code` | expr.go:2100-2114 | the same into the given register |
| `ExprCode.Parse.CodeIn` | expr.go:1209-1284 | as `ExprCases.InDoes`, and no cache line survives from inside |
| `ExprCode.Parse.CodeInValue` | expr.go:1864-1874 | IN as a value |
| `ExprCode.Parse.CodeBetween` | expr.go:2303-2335 | BETWEEN as a condition, its left side computed once |
| `ExprCode.Parse.CodeBetweenValue` | expr.go:1888-1908 | BETWEEN as a value, its temporaries never colliding |
| `ExprCode.Parse.IfTrue` | expr.go:2351-2436 | for every expression over NULL, real numbers and texts with any numeric readings, the code jumps to the label exactly if the condition is true, or NULL with jumpIfNull; where it falls through every cache line names a register that holds its column, on every path |
| `ExprCode.Parse.IfFalse` | expr.go:2447-2557 | the same for false |
| `ExprCode.Compile` | expr.go:2351-2557 | compiled code, run over any rows and any register contents, jumps exactly as the three-valued logic of conditions says; where both readings of truth agree that is the truth of the value |
| `ExprCode.ComparisonsAgree` | expr.go:2381-2397 | code for a > b jumps exactly if code for b < a does, code for a <= b exactly if that for a < b or for a = b does, and never together with that for a > b |
| `ExprCode.NumbersCompared` | expr.go:2351-2436 | compiled for numbers, x > y, x BETWEEN y AND z and x > y AND NOT x = z jump exactly if so |
| `ForeignKeys.DeleteViolations` | fkey.go:44-53 | removing a row removes its own violation and turns exactly its children into violations |
| `ForeignKeys.InsertViolations` | fkey.go:33-42 | adding a row repairs exactly its children and may add one violation, unless it is its own parent |
| `ForeignKeys.ViolationsMean` | fkey.go:220-301 | a child row is in violation exactly if no key column is NULL and no parent row agrees in all of them |
| `ForeignKeys.CountMeans` | fkey.go:33-59 | the count adds up the violations of the constraints of one kind |
| `ForeignKeys.Engine.LookupParent` | fkey.go:220-301 | the counter changes by one exactly if the row's key has no NULL and no parent; the skip-if-zero shortcut never skips a needed change |
| `ForeignKeys.Engine.ScanChildren` | fkey.go:314-389 | the counter changes by the number of child rows that refer to the row |
| `ForeignKeys.Engine.FkCheck` | fkey.go:476-583 | after a change both counters have changed with the global counts; a single-row insert is halted exactly if it violates an immediate constraint, and the deferred counter has then grown by the number of deferred constraints it violates that are checked before that one |
| `ForeignKeys.Engine.InsertRow` | fkey.go:289-298 | an insert is refused exactly if it is alone in its statement and violates an immediate constraint; the deferred counter stays in step if and only if it is accepted or violates no deferred constraint checked before the first violated immediate one |
| `ForeignKeys.Engine.DeleteRow` | fkey.go:476-583 | so does a delete, with constraints within one table |
| `ForeignKeys.Engine.UpdateRow` | fkey.go:609-655 | so does an update, done as delete and insert or, if no key column changes, without any foreign-key processing |
| `ForeignKeys.UntouchedCount` | fkey.go:609-655 | an update that touches no key column of any constraint changes no count |
| `ForeignKeys.SingleInsert` | fkey.go:289-298 | where no immediate constraint is violated, inserting one row violates one exactly if the row itself lacks a parent, so its children need no scan |
| `ForeignKeys.Engine.Run` | fkey.go:33-59 | over every run of inserts, deletes and updates the immediate counter equals the number of child rows with non-NULL keys and no parent, the deferred one exceeds it by what refused inserts left behind, and both are right if and only if every refused insert violated no deferred constraint checked before the first violated immediate one |
| `ForeignKeys.LeakedNone` | fkey.go:289-298 | a refused insert leaves nothing behind if and only if no deferred constraint it violates is checked before every immediate one it violates |
| `ForeignKeys.LeakedByNone` | vdbeaux.go:1325-1369 | the same over a run of changes |
| `ForeignKeys.RefusedBlocksCommit` | vdbe.go:2380-2398 | with a deferred key checked before an immediate one, a refused insert into an empty database makes its commit fail |
| `ForeignKeys.ParentComesLater` | fkey.go:16-42 | a child before its parent under a deferred constraint: no commit until the parent is there |
| `ForeignKeys.Engine.Commit` | fkey.go:16-21 | a commit is allowed exactly if no constraint is violated and no refused insert has left the counter raised |
| `Backup.BackupState.OnePage` | backup.go:143-208 | copies a source page byte for byte to the same file offsets, over or within destination pages of any other size, except in the pending-byte page, exactly up to the first page that cannot be written, whose error it reports |
| `Backup.BackupState.CopyNext` | backup.go:287-296 | the page at the cursor is copied as far as reading and writing allow, no other byte changes, and the cursor moves on in any case |
| `Backup.BackupState.CopyPages` | backup.go:287-296 | all pages up to the limit are copied, or all up to the first that fails, which is passed |
| `Backup.BackupState.WriteExtra` | backup.go:349-358 | source pages sharing the destination's pending-byte page are written separately |
| `BackupPages.TruncatedSize` | backup.go:321-344 | the size the destination is cut to covers the source, except when the source ends inside the pending-byte page, as the code asserts |
| `BackupPages.TruncatedCovers` | backup.go:321-332 | no content byte is cut off |
| `Backup.BackupState.Finish` | backup.go:307-378 | whatever the commit reports, every content byte below the end of the source is left alone; ending Done, the shared pages are there, the length is that of the source and the header carries the new schema cookie |
| `Backup.BackupState.Step` | backup.go:240-400 | a step is exactly a transition of the state machine: its result, the cursor, the locks, the attachment and every copied byte are determined by the state before it and by what each read, write and commit stage reports |
| `Backup.BackupState.WriteSource` | backup.go:473-492 | a page written behind the cursor of an attached backup is copied again, up to the first failure, which is recorded |
| `Backup.BackupState.Restart` | backup.go:505-510 | after a change by another connection an attached copy starts over |
| `Backup.BackupState.Run` | backup.go:143-510 | every interleaving of steps, writes, truncations and restarts is a run of the state machine |
| `BackupRun.StoppedCopy` | backup.go:287-296 | for a step that fails at some page: everything below the cursor still agrees with the source if and only if what was not copied of that page was there already |
| `BackupRun.UnstoppedCopy` | backup.go:287-378 | any other step keeps everything below the cursor in agreement, also if a stage of the commit meets a lock |
| `BackupRun.StepSound` | backup.go:240-400 | from a sound state (the copied part agrees, and the backup hears of writes to it) a step ends sound if and only if it does not meet a lock, or meets one at a page whose remaining bytes agree already while attached, or in the commit while attached |
| `BackupRun.StepDone` | backup.go:298-378 | a step that ends Done leaves a full copy of the right length if and only if the copied part agreed before it |
| `BackupRun.WriteSound` | backup.go:473-492 | a source write keeps soundness if and only if copying the page again meets no lock, or the bytes not copied agree already |
| `BackupRun.RunSound` | backup.go:143-510 | over every run, every state is sound if and only if no event of the run is one of the harmful ones above |
| `BackupRun.RunCopies` | backup.go:143-510 | a run that ends Done after no harmful event holds the source as it was at the finishing step |
| `BackupRun.SmoothDone` | backup.go:240-400 | without errors a step ends Done if and only if it is for all the pages that are left |
| `BackupRun.StepBound` | backup.go:287-296 | a step never passes more pages than it is for, nor more than there are |
| `BackupRun.StepCopies` | backup.go:287-305 | without errors a step for some of the pages left reports OK, moves the cursor by exactly so many pages, copies their bytes and changes no others |
| `BackupRun.FirstStep` | backup.go:287-305 | after a first step for some pages, the cursor and the counts of all and of remaining pages |
| `BackupRun.FullCopyMeans` | backup.go:143-208 | in a full copy every byte of every source page stands at its offset, but for the pending-byte page and the header fields 40 to 43 and, with WAL, 18 and 19 |
| `BackupRun.FinalSizeMeans` | backup.go:321-362 | the copy has the length of the source, but for a source ending in its own pending-byte page under larger pages |
| `BackupRun.OpenIsFirst` | backup.go:252-285 | the first lock that fails, in order, is reported |
| `BackupRun.CommitIsFirst` | backup.go:307-378 | the first stage of the commit that fails, in order, is reported, and Done if none does |
| `BackupRun.CookieMeans` | backup.go:307-309 | the schema cookie is written and read with its highest byte first |
| `BackupRun.LostPage` | backup.go:287-296 | whichever page meets a lock, reading or writing: a following step that ends the backup leaves a full copy if and only if the rest of that page was there already |
| `BackupRun.LostWrite` | backup.go:298-305 | a page written behind the cursor of a backup that is not attached is lost, unless the write changes nothing, and the backup still ends Done |
| `BackupRun.UnsoundLoses` | backup.go:143-510 | from every state that is not sound there is a run of at most two events after which the backup is Done without a full copy, so soundness is the weakest condition that protects the copy |
| `BackupRun.BusyLosesPage` | backup.go:287-296 | for every source and destination and any page whose read meets a lock: the backup still ends Done, with a full copy if and only if that page was there already |
| `BackupRun.BusyLosesWrite` | backup.go:298-378 | for every source and destination: if the commit meets a lock after all pages were copied in one step, a page written before the next step is lost unless it is unchanged |
| `Stat3.PeriodicBound` | analyze.go:194-219 | with the chosen period at most a third of the samples can be periodic |
| `Stat3.PeriodMeans` | analyze.go:194-219 | the period is the least that allows no more than a third |
| `Stat3.StraddlesMeans` | analyze.go:262-264 | a key is periodic exactly if a multiple of the period falls among its rows |
| `Stat3.RandomStarts` | analyze.go:261 | the first numbers of the generator |
| `Stat3.FullHasPlain` | analyze.go:286-294 | when the sampler is full the search for the minimum finds a sample that is not periodic |
| `Stat3.ReplacedFair` | analyze.go:262-284 | evicting the minimum never drops a key above one that is kept |
| `Stat3.Stat3Accum.Push` | analyze.go:243-310 | offering a key keeps all of this true; the sample array is changed in place |
| `Stat3.Stat3Accum.FindMin` | analyze.go:286-309 | finds the least sample, by count and hash, among those that are not periodic |
| `Stat3.Retention` | analyze.go:243-310 | after any run at most mxSample/3 samples are periodic, no periodic key was dropped, the samples are in key order, every dropped key has fewer rows than every kept one that is not periodic, or as many and no greater hash, and nothing is dropped before the sampler is full |
| `Stat3.Sampled` | analyze.go:194-310 | of the samples that all keys of an index of at most nRow rows amount to, those returned are a sub-multiset in key order: every periodic key, nothing left out above a kept one that is not periodic, at most a third periodic, and everything if there is room |
| `Stat3.OfferedMeans` | analyze.go:243-266 | what a key becomes when it is offered: its counts, the rows before it, its random number, and whether it is periodic |
| `Stat3.MostFrequent` | analyze.go:243-310 | with room for one sample the most frequent of three keys is kept |
| `Pattern.PatternCompare` | func.go:492-598 | true exactly if the string is in the language of the pattern, for LIKE and GLOB and any escape character; the backtracking is complete and terminates |
| `Pattern.MatchesPieces` | func.go:492-598 | a string matches exactly if it can be cut into pieces, one for each element: any text, one character, one of a set |
| `Pattern.SameMeans` | func.go:531-592 | ignoring case joins exactly the two cases of an ASCII letter |
| `Pattern.MatchAll` | func.go:508-546 | behind a wildcard the rest is found exactly if it matches at some position |
| `Pattern.CompareSet` | func.go:551-582 | a bracketed set accepts exactly the characters in its ranges, or not in them, and nothing if it is not closed |
| `Pattern.SetMeans` | func.go:551-582 | a set written with characters and ranges accepts exactly those, and with a caret exactly the others |
| `Pattern.GlobSample` | func.go:492-598 | `x[b-d]*` accepts `xcz` and not `xez` |
| `Pattern.AnyOne` | func.go:509-514 | single-character wildcards behind a wildcard may be matched first |
| `Pattern.LikeIsStandard` | func.go:492-598 | a pattern is read as in section 8.5 of ISO/IEC 9075:1992 if and only if every escape stands before a wildcard or an escape and the escape is no wildcard that occurs in it; the standard rejects it if and only if the first condition fails |
| `Pattern.LetterEscaped` | func.go:584-592 | `!b` with escape `!` is an error in the standard and the letter b here |
| `Pattern.WildcardEscape` | func.go:508-594 | `%%` with `%` as its escape: a percent sign in the standard, any string here |
| `Pattern.EscapeShadowed` | func.go:508-594 | an escape character equal to a wildcard has no effect |
| `Pattern.DanglingElements` | func.go:517-522 | a dangling escape adds nothing to what the pattern before it denotes, or an element that never matches if that ends in a wildcard |
| `Pattern.DanglingEscape` | func.go:517-522 | for every pattern with a dangling escape: a string matches if and only if it matches the pattern before the escape and that does not end in a wildcard |
| `Date.DateTime.ComputeJD` | date.go:201-233 | the decimal arithmetic yields noon of the day number plus the time of day, less the UTC offset |
| `Date.DateTime.ComputeYMD` | date.go:333-354 | the decimal arithmetic yields the date decoded from the day number in whole numbers |
| `Date.CenturyFound` | date.go:341-343 | for every day accepted: how far the count of days used for decoding is off because divisions truncate, exactly from 1 March -4716 on, and by how much at least before |
| `Date.FromDaysFinds` | date.go:344-351 | from the right count of days year, month and day are found if and only if the day exists when every fourth year is a leap year |
| `Date.DecodedOnce` | date.go:201-354 | no later day number is decoded to a date, and its own if and only if the date survives |
| `Date.RoundTrip` | date.go:201-354 | for every year and every month and day accepted: the date survives the conversion there and back if and only if it is from 1 March -4716 on, exists, is not in a March-based century year before the year 0 that is no leap year, and is not 1 March 300; or is 29 February of 300 or of every fourth century year before it |
| `Date.NotGivenBack` | date.go:201-354 | one day of each kind that is not given back |
| `Date.ThereAndBack` | date.go:201-354 | for the object's fields with any time accepted: the date survives if and only if it does so as above, the hour is not 24, and the day number is not negative or the time is midnight |
| `Date.NextDayNumber` | date.go:201-233 | from 1 March -4716 on the day numbers of successive dates differ by one, but where a March-based century year before the year 0 that is no leap year begins or ends |
| `Date.KnownDays` | date.go:201-233 | the Julian days of four epochs |
| `Date.LocalTime` | date.go:222-232 | the Julian day of a time with an offset is that of the same time in UTC less the offset |

## Left out

- Memory allocation failures, corrupt buffers, mutexes, error texts and authorizer callbacks.
- Doclists: docids lie in a window whose differences fit an int64, and positions fit a signed 64-bit number; the zero padding that trimming leaves behind a list is not modelled.
- `QueryEval`: deferred tokens and incremental loading. The test of a NEAR cuts copies of the position lists, where the code cuts the lists in the doclists themselves; the pointer to the node above is known only as far as it is a NEAR.
- `QueryParser`: the tokenizer and keyword recognition (the input is a sequence of tokens, in the syntax without parentheses with a mark for excluded phrases). An OR carries the precedence of its syntax.
- `SegmentTree`: corrupt nodes; reading blocks is a lookup in a map. Numbers in nodes are read as 64-bit varints, where the code reads them into 32 bits.
- `Snippet`: bit masks are sets, so at most 64 phrases and window sizes of at most 64 are not enforced; position lists are sequences rather than bytes.
- `HashTable`: the two hash functions (the table works for any), and copying of keys.
- `ExprCode`: affinity and collation (a text on the left of an IN over rowids is not converted to a number); numbers are exact reals, without the limits of int64 and float64; arithmetic, functions, CASE, subqueries and aggregates; the code that builds the right-hand side of an IN, which is a set given by the state; temporary register ranges. Jump patching is label resolution.
- `ForeignKeys`: cascading actions, missing parent tables, OR REPLACE; scanning children visits rows in any order; uniqueness of parent keys is assumed as the UNIQUE index provides it.
- `Backup`: codecs and reserved bytes; several backups of one source; the order in which pages reach the disk.
- `Stat3`: the pseudo-random seed is a parameter.
- `Pattern`: strings are sequences of code points.
- `Date`: parsing, modifiers, local time and the time-of-day decoding. The doubles of date.go are read as exact reals. The round trip is stated without a UTC offset, which moves the day number as `Date.LocalTime` says.
- The b-tree, pager, virtual-table, attach, alter, build and authorization layers, and the tokenizers.

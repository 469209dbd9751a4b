# TinySQL storage core in Dafny

TinySQL is a small SQL server. Its storage manager (`Store`, a singleton) keeps
one directory per database, one `.table` text file per table and three
catalog ledgers (`SystemDatabases.table`, `SystemTables.table`,
`SystemIndices.table`). A table file starts with schema lines `Name,Type`;
data lines follow, written `(v1,,v2,,…)` by UPDATE and `v1,v2,…` by INSERT.
Indexes live in memory (`tableIndices`: table → column → index) as a binary
search tree keyed by the value text (`BSTIndex`) or a B-tree of minimum degree
2 keyed by the value's hash code (`BTreeIndex`); UPDATE and DELETE also read
and write `{table}_{column}_index.idx` files of `key:pos,pos,…` lines.

This project models, in Dafny:

- `Bst` — the binary search tree as a datatype: insertion, exact search, the
  four range walks and the two LIKE walks, each proved exact against a
  reference definition on the tree, plus the class `BSTIndex` around it.
- `BTreeModel` / `BTree` — the B-tree twice: a pure datatype model
  (`SplitChildSpec`, `InsertNonFullSpec`, `InsertSpec`, `SearchSpec`, the
  walks) with its properties, and the imperative classes `Node` (arrays
  `keys`, `values`, `children`) and `BTreeIndex` whose methods are proved to
  compute exactly that model.
- `Indexes` — the abstract `Index` of the store: either kind, with its
  invariant, insertion, search, range and LIKE dispatch.
- `Like` — the two LIKE matchers (`%`, `_`, case-insensitive): the indexes'
  and the WHERE clause's, which reads a backslash before a wildcard as a
  literal dot, each proved equal to the language the pattern denotes.
- `Where` — `EvaluateWhereClause`, with one lemma per operator of its switch.
- `Rows` — the line formats, `ProcessDataLine`, the schema loops and the scan
  of SELECT.
- `OrderBy` — `ApplyOrderBy`: clause parsing, the comparator, and the sort
  (a permutation; ordered and stable when the sort values are of one kind).
- `Tables` — the UPDATE and DELETE loops over the table's lines, and the
  index files written by `UpdateIndex` and read by `LoadIndex`.
- `StoreDataManager` — the class `Store` with `currentDatabase` and
  `tableIndices`, and the disk as fields (database directories, the three
  ledgers, table files and index files as maps); its methods `SetDatabase`,
  `CreateDatabase`, `CreateTable`, `CreateIndex`, `InsertIntoTable`,
  `DropTable`, `Select`, `UpdateTable` and `Delete` each state their status
  and the whole new state.
- `Text` — the .NET string operations the code relies on (Split, Join, Trim,
  IndexOf, ordinal comparison, number parsing).

A .NET exception that escapes a public operation is the status `Thrown`;
inside helpers the throwing case is `None`. `string.GetHashCode` is the
`hash` field of the store and of a B-tree index: any function, since .NET
randomizes it per process.

## Model

| member | source | states |
|---|---|---|
| Bst.InsertRec | StoreDataManager/BSTIndex.cs:31-45 | the tree's key set after insertion is the old key set plus the key |
| Bst.InsertOrdered | StoreDataManager/BSTIndex.cs:31-45 | insertion keeps the search-tree order (smaller keys left, larger right) |
| Bst.InsertPresent | StoreDataManager/BSTIndex.cs:31-45 | inserting a key already present leaves the tree unchanged: the first position stays |
| Bst.InsertMap | StoreDataManager/BSTIndex.cs:31-45 | as a key→position map, the tree gains key→value exactly when the key was absent |
| Bst.InOrderAscending | StoreDataManager/BSTIndex.cs:31-45 | an ordered tree lists its keys strictly ascending in order |
| Bst.SearchFinds | StoreDataManager/BSTIndex.cs:52-61 | search answers the position stored for the key, or -1 when the key is not in the tree |
| Bst.LessThanExact | StoreDataManager/BSTIndex.cs:70-83 | the walk appends exactly the positions of keys comparing below the bound, in key order |
| Bst.GreaterThanExact | StoreDataManager/BSTIndex.cs:92-105 | the walk appends exactly the positions of keys comparing above the bound, in key order |
| Bst.LessThanOrEqualExact | StoreDataManager/BSTIndex.cs:114-127 | the walk appends exactly the positions of keys at or below the bound, in key order |
| Bst.GreaterThanOrEqualExact | StoreDataManager/BSTIndex.cs:136-149 | the walk appends exactly the positions of keys at or above the bound, in key order |
| Bst.LessThanPartition | StoreDataManager/BSTIndex.cs:63-149 | "below k" followed by "at or above k" is every position of the tree, in key order |
| Bst.LessThanOrEqualPartition | StoreDataManager/BSTIndex.cs:107-127 | "at or below k" followed by "above k" is every position of the tree, in key order |
| Bst.LikeExact | StoreDataManager/BSTIndex.cs:158-171 | the walk appends, in pre-order, exactly the positions whose keys match the pattern |
| Bst.NotLikeExact | StoreDataManager/BSTIndex.cs:180-193 | the walk appends, in pre-order, exactly the positions whose keys do not match the pattern |
| Bst.LikePartition | StoreDataManager/BSTIndex.cs:151-193 | LIKE and NOT LIKE split the tree's positions: together they are all of them, each once |
| Bst.BSTIndex.constructor | StoreDataManager/BSTIndex.cs:9 | a new index is the empty tree |
| Bst.BSTIndex.Insert | StoreDataManager/BSTIndex.cs:26-29 | the root becomes the insertion of the pair; the map gains it only for a new key |
| Bst.BSTIndex.Search | StoreDataManager/BSTIndex.cs:47-50 | the stored position of the key, or -1 |
| Bst.BSTIndex.SearchLessThan | StoreDataManager/BSTIndex.cs:63-68 | the positions of the keys below the bound, in key order |
| Bst.BSTIndex.SearchGreaterThan | StoreDataManager/BSTIndex.cs:85-90 | the positions of the keys above the bound, in key order |
| Bst.BSTIndex.SearchLessThanOrEqual | StoreDataManager/BSTIndex.cs:107-112 | the positions of the keys at or below the bound, in key order |
| Bst.BSTIndex.SearchGreaterThanOrEqual | StoreDataManager/BSTIndex.cs:129-134 | the positions of the keys at or above the bound, in key order |
| Bst.BSTIndex.SearchLike | StoreDataManager/BSTIndex.cs:151-156 | the positions of the keys matching the pattern, in pre-order |
| Bst.BSTIndex.SearchNotLike | StoreDataManager/BSTIndex.cs:173-178 | the positions of the keys not matching the pattern, in pre-order |
| BTree.Node.constructor | StoreDataManager/BTreeIndex.cs:21-29 | a fresh node holds no key and no child, with freshly allocated arrays |
| BTree.BTreeIndex.constructor | StoreDataManager/BTreeIndex.cs:31-34 | a new index is one empty leaf at height 0 |
| BTree.BTreeIndex.Insert | StoreDataManager/BTreeIndex.cs:36-52 | the tree stays a valid B-tree, its root becomes the model insertion, it grows in height exactly when the root was full, and it holds exactly one more (hash, position) pair |
| BTree.BTreeIndex.InsertNonFull | StoreDataManager/BTreeIndex.cs:54-82 | the node becomes the model insertion into a non-full node |
| BTree.BTreeIndex.InsertLeaf | StoreDataManager/BTreeIndex.cs:56-67 | a leaf gains the pair at its sorted slot, later pairs shifted right |
| BTree.BTreeIndex.SplitChild | StoreDataManager/BTreeIndex.cs:84-110 | the full child's lower half stays, its upper half moves to a new sibling and its median moves up into slot i |
| BTree.BTreeIndex.Search | StoreDataManager/BTreeIndex.cs:112-115 | a position stored under the key's hash when there is one, -1 otherwise |
| BTree.BTreeIndex.SearchNode | StoreDataManager/BTreeIndex.cs:117-127 | the descent computes the model search of the subtree |
| BTree.BTreeIndex.SearchGreaterThan | StoreDataManager/BTreeIndex.cs:150-173 | exactly the stored pairs whose hash is above the key's, in walk order |
| BTree.BTreeIndex.SearchGreaterThanOrEqual | StoreDataManager/BTreeIndex.cs:196-219 | exactly the stored pairs whose hash is at or above the key's, in walk order |
| BTree.BTreeIndex.SearchLike | StoreDataManager/BTreeIndex.cs:221-245 | exactly the stored pairs whose hash, as decimal text, matches the pattern |
| BTree.BTreeIndex.SearchNotLike | StoreDataManager/BTreeIndex.cs:247-271 | exactly the stored pairs whose hash text does not match; with LIKE they cover every pair once |
| BTree.BTreeIndex.SearchLessThan | StoreDataManager/BTreeIndex.cs:129-148 | the pruned walk as written: every pair it yields is stored and below the bound (not every such pair is yielded) |
| BTree.BTreeIndex.SearchLessThanOrEqual | StoreDataManager/BTreeIndex.cs:175-194 | the pruned walk as written: every pair it yields is stored and at or below the bound |
| BTree.BTreeIndex.SearchLessThanComplete | StoreDataManager/BTreeIndex.cs:129-148 | the intended walk: exactly the stored pairs below the bound |
| BTree.BTreeIndex.SearchLessThanOrEqualComplete | StoreDataManager/BTreeIndex.cs:175-194 | the intended walk: exactly the stored pairs at or below the bound |
| BTree.BTreeIndex.WalkRec | StoreDataManager/BTreeIndex.cs:155-173 | the recursive walk visits key i before child i and yields the selected pairs' positions |
| BTree.BTreeIndex.PrunedRec | StoreDataManager/BTreeIndex.cs:134-148 | the recursive less-than walk computes the model's pruned walk |
| BTreeModel.SplitChildSpec | StoreDataManager/BTreeIndex.cs:84-110 | a split adds one key and one child to the parent |
| BTreeModel.SplitElems | StoreDataManager/BTreeIndex.cs:84-110 | a split keeps the in-order sequence of pairs unchanged |
| BTreeModel.InsertNonFullSpec | StoreDataManager/BTreeIndex.cs:54-82 | inserting into a non-full node keeps every node within bounds and all leaves at the same depth |
| BTreeModel.InsertSpec | StoreDataManager/BTreeIndex.cs:36-52 | insertion at the root keeps the tree shaped and balanced at the new height |
| BTreeModel.Grown | StoreDataManager/BTreeIndex.cs:39-48 | the height grows by at most one |
| BTreeModel.InsertElems | StoreDataManager/BTreeIndex.cs:36-82 | the new pair is placed at its sorted position among the old pairs |
| BTreeModel.InsertKeepsTree | StoreDataManager/BTreeIndex.cs:36-110 | a well-formed B-tree stays well-formed and gains exactly the inserted pair |
| BTreeModel.ScanForward | StoreDataManager/BTreeIndex.cs:119-121 | the scan stops at the first key not below the searched hash |
| BTreeModel.SearchSound | StoreDataManager/BTreeIndex.cs:117-127 | search answers -1 or a position stored under the hash |
| BTreeModel.SearchComplete | StoreDataManager/BTreeIndex.cs:117-127 | in a sorted tree, a stored hash is always found |
| BTreeModel.SearchFinds | StoreDataManager/BTreeIndex.cs:117-127 | search finds a pair for the hash exactly when one is stored, and -1 otherwise |
| BTreeModel.FullWalkExact | StoreDataManager/BTreeIndex.cs:155-173 | the full walk is the visit order filtered by the selector: exactly the selected stored pairs |
| BTreeModel.RangeExact | StoreDataManager/BTreeIndex.cs:201-219 | the full range walk yields a pair exactly when it is stored and its hash stands in the relation to the bound |
| BTreeModel.LikePartition | StoreDataManager/BTreeIndex.cs:221-271 | LIKE and NOT LIKE together yield every stored pair once |
| BTreeModel.PrunedWalkSound | StoreDataManager/BTreeIndex.cs:134-148 | the pruned walk yields only stored pairs that stand in the relation to the bound |
| BTreeModel.PrunedWalkMisses | StoreDataManager/BTreeIndex.cs:134-148 | a valid tree (root 5, leaves 3 and 7,9) where both pruned walks "below 4" yield nothing although 3 is stored |
| Indexes.NewIndex | StoreDataManager/Store.cs:1089-1097 | a new index of the requested kind stores no key |
| Indexes.Insert | StoreDataManager/Index.cs:5 | insertion keeps the index invariant and the index kind |
| Indexes.InsertStores | StoreDataManager/Index.cs:5 | after insertion the key is stored, with this position unless a tree already held it |
| Indexes.InsertKeeps | StoreDataManager/Index.cs:5 | insertion never loses a stored key or its position |
| Indexes.SearchHits | StoreDataManager/Index.cs:6 | search is -1 exactly when the key is not stored, and otherwise a position stored for it |
| Indexes.InsertThenSearch | StoreDataManager/Index.cs:5-6 | a key just inserted is found |
| Indexes.InsertAll | StoreDataManager/Store.cs:1105-1108 | inserting a list keeps the invariant and the kind |
| Indexes.BuildIndex | StoreDataManager/Store.cs:1105-1108 | the loop inserts the i-th value with position i |
| Indexes.BuildIndexMaps | StoreDataManager/Store.cs:1105-1108 | for distinct values, the built index maps the i-th value to i |
| Indexes.BuildIndexKeys | StoreDataManager/Store.cs:1105-1108 | a tree built from a list stores no key outside it |
| Indexes.RangeReference | StoreDataManager/Index.cs:7-10 | each range query of either index equals its reference walk |
| Indexes.LikeReference | StoreDataManager/Index.cs:11-12 | each LIKE query of either index equals its reference walk |
| Like.MatchIffInLanguage | StoreDataManager/BTreeIndex.cs:273-276 | the index matcher accepts a value exactly when it is in the pattern's language: % any run, _ one character, every other character (backslash included) equal ignoring case |
| Like.MatchSound | StoreDataManager/BTreeIndex.cs:273-276 | whatever the index matcher accepts is in the pattern's language |
| Like.MatchComplete | StoreDataManager/BTreeIndex.cs:273-276 | everything in the pattern's language is accepted by the index matcher |
| Like.PercentMatchesAll | StoreDataManager/BTreeIndex.cs:275 | "%" matches every value |
| Like.LiteralPattern | StoreDataManager/BTreeIndex.cs:275-276 | a pattern without wildcards matches exactly the values equal to it ignoring case |
| Like.PrefixPattern | StoreDataManager/BTreeIndex.cs:275-276 | for the indexes, "p%" matches only values starting with p ignoring case |
| Like.WhereMatchIffInLanguage | StoreDataManager/Store.cs:465-470 | the WHERE matcher accepts a value exactly when it is in the WHERE language: a backslash right before % stands for any run of literal dots, one right before _ for a single dot, otherwise as the index language |
| Like.WhereMatchSound | StoreDataManager/Store.cs:465-470 | whatever the WHERE matcher accepts is in the WHERE language |
| Like.WhereMatchComplete | StoreDataManager/Store.cs:465-470 | everything in the WHERE language is accepted by the WHERE matcher |
| Like.WhereAgreesWithoutEscapes | StoreDataManager/Store.cs:468 | when no backslash stands right before a wildcard, the WHERE clause and the indexes give the same verdict |
| Like.EscapedPercentDiffers | StoreDataManager/Store.cs:468 | on the pattern a, backslash, %: the WHERE clause accepts "a.." and rejects "a\xyz", the indexes the reverse |
| Like.WherePrefixPattern | StoreDataManager/Store.cs:468-470 | in a WHERE clause, "p%" with p free of wildcards and not ending in a backslash matches only values starting with p ignoring case |
| Where.FirstNonBlank | StoreDataManager/Store.cs:412 | the first non-blank piece, or "" when every piece is blank |
| Where.Judge | StoreDataManager/Store.cs:388-405 | fewer than three tokens or an unknown column gives false; it throws exactly when the column lies past the row |
| Where.EvaluateWhereClause | StoreDataManager/Store.cs:377-382 | an empty clause holds for every row |
| Where.ClauseEvaluates | StoreDataManager/Store.cs:384-396 | a clause "column op rest" is judged on the tokens column, op and the words of rest |
| Where.JudgeTokens | StoreDataManager/Store.cs:394-418 | the verdict is false without a value or a known column, throws past the row, and otherwise is the operator applied to the cleaned cell |
| Where.EqualsClause | StoreDataManager/Store.cs:420-421 | "=" compares the cell and the literal ignoring case |
| Where.NotEqualsNegates | StoreDataManager/Store.cs:420-423 | "<>" is the negation of "=" whenever a verdict is reached, and both are false together otherwise |
| Where.OperatorCase | StoreDataManager/Store.cs:395 | the operator is read in any case |
| Where.OrderingClause | StoreDataManager/Store.cs:424-449 | ordering operators compare numerically when both sides parse as numbers, else by ordinal text ignoring case |
| Where.FractionCompared | StoreDataManager/Store.cs:428-438 | fractions compare as numbers: 2.5 is below 10 |
| Where.LikeClause | StoreDataManager/Store.cs:450-451 | LIKE applies the WHERE matcher to the cleaned cell |
| Where.NotLikeClause | StoreDataManager/Store.cs:452-458 | NOT LIKE takes the first word after LIKE as the pattern and negates the WHERE matcher; false without one |
| Where.NotLikeNegatesLike | StoreDataManager/Store.cs:450-458 | for a one-word pattern, NOT LIKE is the negation of LIKE |
| Where.UnsupportedClause | StoreDataManager/Store.cs:459-461 | an unknown operator is false |
| Rows.EncodeDecode | StoreDataManager/Store.cs:801-810 | a row written "(" + values joined by ",," + ")" reads back as the same values |
| Rows.DecodeEncoded | StoreDataManager/Store.cs:365-368 | such a line, trimmed of parentheses and split on ",,", gives back the values |
| Rows.Project | StoreDataManager/Store.cs:372 | one value per selected column: the trimmed value, or "NULL" past the row |
| Rows.ProcessDataLine | StoreDataManager/Store.cs:362-375 | the row is appended, projected, exactly when the clause holds; it throws exactly when the clause throws |
| Rows.FirstData | StoreDataManager/Store.cs:749-762 | the first line that is not a two-part schema line |
| Rows.Heads | StoreDataManager/Store.cs:258-264 | the first comma part of each header line |
| Rows.ParseColumns | StoreDataManager/Store.cs:749-762 | the column names of the schema lines, and the data start (0 when every line is a schema line) |
| Rows.HeaderEnd | StoreDataManager/Store.cs:259 | the header loop stops at the first line starting with "(" |
| Rows.ReadHeaders | StoreDataManager/Store.cs:258-264 | the header names, or a throw exactly when a header line has no second part |
| Rows.ScanTable | StoreDataManager/Store.cs:335-341 | the scan processes every data line of the rest of the file in order |
| Rows.SelectedFails | StoreDataManager/Store.cs:335-341 | once a line throws, the whole scan throws |
| Rows.EmptyClauseKeepsAll | StoreDataManager/Store.cs:335-341 | with no WHERE clause the scan keeps every data line, projected |
| Rows.SelectedSound | StoreDataManager/Store.cs:335-341 | every row the scan yields is the projection of a data line the clause holds for |
| Rows.SelectedComplete | StoreDataManager/Store.cs:335-341 | when the scan succeeds, every data line the clause holds for is answered, projected |
| OrderBy.ParseOrderBy | StoreDataManager/Store.cs:474-497 | a blank or one-part clause, a direction other than ASC/DESC or an unknown column means no sorting |
| OrderBy.Reproject | StoreDataManager/Store.cs:505 | each selected column read at its position in the full header list |
| OrderBy.Items | StoreDataManager/Store.cs:500-506 | one entry per row: its index, its sort value and its selected values |
| OrderBy.KeyCompareAntisymmetric | StoreDataManager/Store.cs:510-522 | swapping the two sort values negates the comparison |
| OrderBy.KeyCompareTransitive | StoreDataManager/Store.cs:510-522 | among values all numeric or all non-numeric the comparison is transitive |
| OrderBy.CmpTransitive | StoreDataManager/Store.cs:508-531 | the comparator with its index tie-break is a strict order on values of one kind |
| OrderBy.ComparisonCycle | StoreDataManager/Store.cs:508-531 | "2" < "10" < "1a" < "2": mixed kinds make the comparator cyclic |
| OrderBy.FractionOrder | StoreDataManager/Store.cs:515-518 | 2.5 sorts before 10 |
| OrderBy.KeyOrder | StoreDataManager/Store.cs:510-522 | the corrected comparison: as written within one kind, every number before every non-number |
| OrderBy.KeyOrderAntisymmetric | StoreDataManager/Store.cs:510-522 | the corrected comparison is antisymmetric |
| OrderBy.KeyOrderTransitive | StoreDataManager/Store.cs:510-522 | the corrected comparison is transitive on all values |
| OrderBy.KeyOrderBreaksCycle | StoreDataManager/Store.cs:508-531 | on the cycle's values the corrected comparison is consistent: "2" before "10" before "1a" |
| OrderBy.InsertItem | StoreDataManager/Store.cs:508 | inserting an entry adds exactly that entry |
| OrderBy.Sort | StoreDataManager/Store.cs:508-531 | the sort is a permutation of the entries |
| OrderBy.SortOrder | StoreDataManager/Store.cs:508-531 | on values of one kind the sort is ordered by the direction and keeps equal values in their original order |
| OrderBy.ApplyOrderBy | StoreDataManager/Store.cs:472-536 | an unusable clause leaves the rows as they are; it throws exactly when a row lacks the sort or a selected column; the row count is kept |
| OrderBy.OrderByPermutes | StoreDataManager/Store.cs:533-535 | the result is a permutation of the rows re-read on the selected columns |
| OrderBy.SelectAllPermutes | StoreDataManager/Store.cs:499-535 | sorting full rows on all columns succeeds and permutes the rows |
| OrderBy.OrderByStable | StoreDataManager/Store.cs:508-535 | on values of one kind the result is sorted by the direction and stable |
| Tables.ParseEquality | StoreDataManager/Store.cs:765-767 | the condition splits at "=" into a trimmed column and value; it throws without an "=" |
| Tables.EqualityParts | StoreDataManager/Store.cs:765-767 | "c = v" reads as the trimmed pair (c, v) |
| Tables.Assign | StoreDataManager/Store.cs:846-853 | the row keeps its length; it throws exactly when a SET column lies past the row |
| Tables.AssignFields | StoreDataManager/Store.cs:846-853 | each SET column takes its value and every other field is kept |
| Tables.AssignRow | StoreDataManager/Store.cs:846-853 | the SET loop computes the assignment |
| Tables.UpdatedLineEffect | StoreDataManager/Store.cs:840-856 | a non-matching line is unchanged; a matching line is rewritten with the assignment applied; a short line throws |
| Tables.UpdateLine | StoreDataManager/Store.cs:840-856 | one step of the UPDATE scan |
| Tables.ScanUpdated | StoreDataManager/Store.cs:838-858 | the line count and the lines before the data are kept; each data line is its updated self |
| Tables.UpdateScan | StoreDataManager/Store.cs:833-871 | the scan updates every data line and reports whether some line matched |
| Tables.AtPositions | StoreDataManager/Store.cs:794-813 | lines outside the listed data positions are unchanged |
| Tables.AtDistinctPositions | StoreDataManager/Store.cs:794-813 | each listed in-range position holds its reassigned line; it throws exactly when one cannot be reassigned |
| Tables.UpdateAtPositions | StoreDataManager/Store.cs:794-813 | the index-path UPDATE loop computes that |
| Tables.Kept | StoreDataManager/Store.cs:983-995 | at most the old lines are kept; it throws exactly when a data line is too short |
| Tables.KeptMembers | StoreDataManager/Store.cs:983-995 | the kept lines are exactly the lines that do not match |
| Tables.Doomed | StoreDataManager/Store.cs:985-990 | a line is removed exactly when it matches; a short line throws |
| Tables.DeleteScan | StoreDataManager/Store.cs:983-995 | the lines before the data, then the non-matching data lines in order |
| Tables.SortDescending | StoreDataManager/Store.cs:970 | a descending permutation of the positions |
| Tables.RemoveListed | StoreDataManager/Store.cs:971-977 | the lines before the data start are kept |
| Tables.DeleteAtPositions | StoreDataManager/Store.cs:969-977 | the index-path DELETE loop removes the positions in descending order |
| Tables.DeleteExactly | StoreDataManager/Store.cs:969-977 | for distinct positions, exactly the lines at the in-range data positions are removed; others are ignored |
| Tables.Grouped | StoreDataManager/Store.cs:894-907 | keys and map agree; it throws exactly when a data line lacks the column |
| Tables.GroupedDistinct | StoreDataManager/Store.cs:894-907 | each key is listed once |
| Tables.GroupedSound | StoreDataManager/Store.cs:894-907 | every listed position is a data line holding the key at the column |
| Tables.GroupedIncreasing | StoreDataManager/Store.cs:894-907 | each key's positions are increasing |
| Tables.GroupedComplete | StoreDataManager/Store.cs:894-907 | every data line is listed under its key |
| Tables.GroupLines | StoreDataManager/Store.cs:894-907 | the loop computes the grouping |
| Tables.IndexFileLines | StoreDataManager/Store.cs:912-915 | one line per key |
| Tables.UpdateIndex | StoreDataManager/Store.cs:890-917 | the index file lists, per key of field dataStartIndex, its data positions |
| Tables.ParseAll | StoreDataManager/Store.cs:883 | every part parses as an integer, or the parse throws |
| Tables.LoadIndex | StoreDataManager/Store.cs:873-888 | the loop computes the key → positions map of the file |
| Tables.EntryRoundTrip | StoreDataManager/Store.cs:879-883 | a written entry line reads back as its key and positions |
| Tables.LoadWritten | StoreDataManager/Store.cs:873-916 | reading back written lines gives the map that was written |
| Tables.IndexFileRoundTrip | StoreDataManager/Store.cs:873-917 | the file UpdateIndex writes reads back, by LoadIndex, as the grouping it came from |
| StoreDataManager.SchemaLines | StoreDataManager/Store.cs:151-157 | one "Name,Type" line per column |
| StoreDataManager.Remaining | StoreDataManager/Store.cs:622-632 | the ledger lines kept are exactly those not dropped |
| StoreDataManager.RewriteLedger | StoreDataManager/Store.cs:622-632 | the rewrite loop keeps exactly the lines not dropped |
| StoreDataManager.Backfilled | StoreDataManager/Store.cs:187-201 | the back-fill keeps the index invariant and kind |
| StoreDataManager.BackfillStores | StoreDataManager/Store.cs:187-201 | after back-fill every line's column value is stored and nothing stored is lost |
| StoreDataManager.BackfillIndex | StoreDataManager/Store.cs:185-201 | the back-fill loop computes that |
| StoreDataManager.Refilled | StoreDataManager/Store.cs:168-206 | the table keeps its indexed columns and their invariants |
| StoreDataManager.RefilledOne | StoreDataManager/Store.cs:176-204 | one column's back-fill keeps the invariant |
| StoreDataManager.RefillAll | StoreDataManager/Store.cs:168-206 | the loop over indexed columns computes the back-fill |
| StoreDataManager.RefillColumn | StoreDataManager/Store.cs:176-204 | one column's back-fill as the loop body computes it |
| StoreDataManager.FindDuplicate | StoreDataManager/Store.cs:1173-1198 | a duplicate is found exactly when some indexed column's value is already stored |
| StoreDataManager.Appended | StoreDataManager/Store.cs:1208-1230 | the table keeps its indexed columns and their invariants |
| StoreDataManager.AppendedOne | StoreDataManager/Store.cs:1211-1229 | one column's update keeps the invariant |
| StoreDataManager.AppendAll | StoreDataManager/Store.cs:1208-1230 | the loop over indexed columns computes the update |
| StoreDataManager.InsertColumn | StoreDataManager/Store.cs:1213-1228 | one column's update as the loop body computes it |
| StoreDataManager.InsertTwiceRejected | StoreDataManager/Store.cs:1173-1230 | after a row is inserted, the same values are a duplicate |
| StoreDataManager.HeaderHit | StoreDataManager/Store.cs:1052-1060 | the header section ends at the first line whose first part is the column |
| StoreDataManager.FirstValues | StoreDataManager/Store.cs:1064-1077 | at most one value per line |
| StoreDataManager.NamingLine | StoreDataManager/Store.cs:1054-1059 | a line names the column exactly when its first comma part is the column, and the position then taken for the column is always 0 |
| StoreDataManager.NoRepeatsPairwise | StoreDataManager/Store.cs:1070-1075 | the list kept free of values already present holds pairwise distinct values |
| StoreDataManager.TakeValue | StoreDataManager/Store.cs:1064-1077 | a repeated value rejects; otherwise a data line adds its value and the list stays repeat-free |
| StoreDataManager.RepeatRejected | StoreDataManager/Store.cs:1070-1074 | a value met twice rejects the column |
| StoreDataManager.ReadColumn | StoreDataManager/Store.cs:1044-1086 | the reading loop computes the column's values, or rejects |
| StoreDataManager.SecondColumnReadsFirst | StoreDataManager/Store.cs:1055-1057 | as written, an index on the second column reads the first column's values |
| StoreDataManager.FirstValuesAtZero | StoreDataManager/Store.cs:1057-1069 | the values read are field 0 of each data line |
| StoreDataManager.SecondColumnReadsItsOwn | StoreDataManager/Store.cs:1055-1069 | the corrected read takes field k for the k-th column |
| StoreDataManager.SpaceAt | StoreDataManager/Store.cs:237 | the first space, or the end |
| StoreDataManager.SplitThree | StoreDataManager/Store.cs:237 | at most three parts |
| StoreDataManager.SplitThreeJoin | StoreDataManager/Store.cs:237 | the parts joined by spaces give back the clause |
| StoreDataManager.SplitThreeSpaces | StoreDataManager/Store.cs:237 | only the last of three parts may hold a space |
| StoreDataManager.WherePartsOf | StoreDataManager/Store.cs:237-243 | "c op rest" reads as (c, op upper-cased, rest) |
| StoreDataManager.NotLikeUnreachable | StoreDataManager/Store.cs:237-243 | the operator read is never "NOT LIKE" |
| StoreDataManager.NotLikeReadsNot | StoreDataManager/Store.cs:237-243 | "c NOT LIKE p" reads as operator "NOT" with value "LIKE p" |
| StoreDataManager.WherePartsRead | StoreDataManager/Store.cs:237-243 | the corrected parse agrees with the source on every clause whose operator is not NOT |
| StoreDataManager.NotLikeRead | StoreDataManager/Store.cs:311-312 | the corrected parse reads "c NOT LIKE p" as operator "NOT LIKE" with pattern p |
| StoreDataManager.SeekLine | StoreDataManager/Store.cs:321-325 | after a seek to position p the line held is line p, none past the end, the old line for p < 0 |
| StoreDataManager.FetchRows | StoreDataManager/Store.cs:319-330 | the index loop yields the projections of the data lines read at the positions |
| StoreDataManager.FetchedSound | StoreDataManager/Store.cs:319-330 | every row the index loop yields is the projection of some data line |
| StoreDataManager.Positions | StoreDataManager/Store.cs:272-285 | an error exactly when a requested column is unknown; otherwise each column's header position |
| StoreDataManager.FindColumns | StoreDataManager/Store.cs:272-285 | the loop computes the positions |
| StoreDataManager.SelectionIndexPath | StoreDataManager/Store.cs:287-330 | on the index path SELECT answers exactly the lines read at the index's positions; the clause is never evaluated |
| StoreDataManager.EqualsMissPrintsFirstRow | StoreDataManager/Store.cs:293-329 | "=" on a value the index lacks answers the first data row |
| StoreDataManager.IndexOrderDisagrees | StoreDataManager/Store.cs:296-298 | a tree index orders "10" below "9", which the scan's comparison rejects |
| StoreDataManager.CheckedSound | StoreDataManager/Store.cs:326-328 | the corrected index loop yields only rows of data lines at the positions for which the clause holds |
| StoreDataManager.CheckedMiss | StoreDataManager/Store.cs:293-294 | the corrected loop yields nothing for a value the index lacks |
| StoreDataManager.DataStart | StoreDataManager/Store.cs:749-762 | within the table's lines |
| StoreDataManager.RegroupedFailsOnFullRow | StoreDataManager/Store.cs:899-900 | as written, a data line with exactly dataStartIndex fields makes the index rebuild throw |
| StoreDataManager.RegroupedAtIndexesColumn | StoreDataManager/Store.cs:894-907 | the corrected rebuild keyed on the indexed column reads back as exactly its key → positions map |
| StoreDataManager.Updated | StoreDataManager/Store.cs:734-786 | success writes the table; an index file is written only on success for an equality condition |
| StoreDataManager.ScanDeleted | StoreDataManager/Store.cs:983-995 | the schema lines are kept and lines are only removed |
| StoreDataManager.IndexDeleted | StoreDataManager/Store.cs:966-977 | the schema lines are kept and lines are only removed |
| StoreDataManager.Rebuilt | StoreDataManager/Store.cs:998-1015 | the new lines are written; index files are rewritten only when the table has some |
| StoreDataManager.Deleted | StoreDataManager/Store.cs:919-1005 | success writes the table; index files are rewritten only when the table has some |
| StoreDataManager.DeleteScanExact | StoreDataManager/Store.cs:983-995 | the kept data lines are exactly the lines that do not match |
| StoreDataManager.DeleteIndexedExact | StoreDataManager/Store.cs:966-977 | the index path removes exactly the lines at the key's in-range data positions |
| StoreDataManager.IndexFilesOf | StoreDataManager/Store.cs:962 | the table's index files by column |
| StoreDataManager.Refreshed | StoreDataManager/Store.cs:1007-1015 | the same set of index files, rewritten |
| StoreDataManager.WithoutTable | StoreDataManager/Store.cs:641-645 | exactly the other tables' index files remain |
| StoreDataManager.IndexLineSurvivesDrop | StoreDataManager/Store.cs:648-658 | as written, an index-ledger line of the dropped table stays |
| StoreDataManager.IndexLineDropped | StoreDataManager/Store.cs:648-658 | the corrected filter drops the table's index lines and keeps another table's |
| StoreDataManager.CreatedTableListed | StoreDataManager/Store.cs:143-163 | after CREATE TABLE the ledger lists the table for any case of its name |
| StoreDataManager.SecondInsertRejected | StoreDataManager/Store.cs:1173-1230 | inserting the same indexed values twice is rejected the second time |
| StoreDataManager.ColumnIndexed | StoreDataManager/Store.cs:1105-1108 | the new index maps the i-th value read to position i |
| StoreDataManager.IndicesAfterInsert | StoreDataManager/Store.cs:1207-1230 | only the inserted table's indexes change, each by the new row at its line number |
| StoreDataManager.InsertedLineUnseen | StoreDataManager/Store.cs:1204 | as written, the appended line is invisible to the SELECT scan |
| StoreDataManager.InsertedRowSeen | StoreDataManager/Store.cs:1204 | the corrected line "(" + values joined by ",," + ")" is seen by the scan exactly as the clause decides |
| StoreDataManager.Insertion | StoreDataManager/Store.cs:1162-1240 | INSERT fails on a missing table or a duplicate indexed value; otherwise it appends the line and updates the indexes |
| StoreDataManager.WhereColumn | StoreDataManager/Store.cs:765-766 | the column of an equality condition |
| StoreDataManager.Store.IndicesOf | StoreDataManager/Store.cs:34 | a table's indexes, each satisfying the invariant |
| StoreDataManager.Store.constructor | StoreDataManager/Store.cs:36-40 | a new store has no database selected and no index loaded |
| StoreDataManager.Store.SetDatabase | StoreDataManager/Store.cs:62-77 | a blank or unknown name is an error and leaves the selection; otherwise it is selected |
| StoreDataManager.Store.CreateDatabase | StoreDataManager/Store.cs:79-114 | the name is read without trailing ';'; an error for a blank, existing or ledger-listed name, with nothing changed; otherwise the directory and ledger line are added |
| StoreDataManager.Store.CreateTable | StoreDataManager/Store.cs:125-215 | an error without a name, columns or database, or for an existing or listed table, with nothing changed; otherwise the schema file, the ledger line and, for indexes kept under the table's name, the back-fill |
| StoreDataManager.Store.CreateIndex | StoreDataManager/Store.cs:1018-1132 | never throws; success exactly when no name is blank, a database is selected, the table exists, the column is not yet indexed, its values are read without a repeat and the type is BTREE or BST in any case; then the new index holds the i-th value at i and the ledger gains its line, and otherwise nothing changes |
| StoreDataManager.Store.InsertIntoTable | StoreDataManager/Store.cs:1162-1240 | an error without a database or table or on a duplicate indexed value, with nothing changed; otherwise the line is appended and only that table's indexes gain the row |
| StoreDataManager.Store.DropTable | StoreDataManager/Store.cs:593-662 | an error without a database or table, with nothing changed; otherwise the table file, its ledger lines, its indexes and its index files go, and the index ledger is filtered as written |
| StoreDataManager.Store.Select | StoreDataManager/Store.cs:217-360 | throws without a database, an error without the table, otherwise the answer of the selection |
| StoreDataManager.Store.UpdateTable | StoreDataManager/Store.cs:734-871 | throws without a database, an error without the table, both with nothing changed; otherwise the status, the table file and the condition column's index file as the UPDATE outcome gives them, every other file unchanged |
| StoreDataManager.Store.Delete | StoreDataManager/Store.cs:919-1015 | throws without a database, an error without the table, both with nothing changed; otherwise the status, the table file and the table's index files as the DELETE outcome gives them, every other file unchanged |

## Left out

- Console output, the file system, the `Singleton` instance and its lock: the disk is the store's fields; nothing is printed.
- ShowDatabases, ShowTables, DropDatabase and DescribeTable: outside the modelled core.
- `string.GetHashCode` is the `hash` parameter, any function: the B-tree's behaviour is proved for every hash.
- LoadIndices (Store.cs:1135-1160) is not a separate member: it runs while `currentDatabase` is still "", so each CreateIndex it makes throws inside and reports an error; `StoreDataManager.Store.constructor` states the resulting empty `tableIndices`. No corrected reload is evident, since the index ledger names no database.
- Text.ParseDouble: reads an optional sign, digits and at most one decimal point as an exact rational; exponents, group separators, surrounding white space, culture formats, NaN, Infinity and double rounding are not modelled.
- Text.UpperChar: case folding is ASCII only, whereas OrdinalIgnoreCase, `ToUpper` and `RegexOptions.IgnoreCase` fold every letter ("é" and "É" are unequal here). This affects Where.Decide, Text.CompareIgnoreCase, Like.IsLikeMatch, Like.IsWhereLikeMatch, StoreDataManager.NameInUse, StoreDataManager.TableListed, StoreDataManager.TableEntry, StoreDataManager.IndexEntry and CreateIndex's type check.
- Where.Decide: the comparisons of "=", "<>" and the ordering operators fold ASCII case only, as Text.UpperChar above.
- Text.CompareIgnoreCase: an ordinal comparison of ASCII-upper-cased text; OrdinalIgnoreCase folds every letter.
- StoreDataManager.NameInUse: the database ledger check folds ASCII case only.
- StoreDataManager.TableListed: the table ledger check folds ASCII case only.
- StoreDataManager.TableEntry: DropTable's table ledger match folds ASCII case only.
- StoreDataManager.IndexEntry: DropTable's index ledger prefix test folds ASCII case only.
- Like.IsLikeMatch: ASCII case folding only; the regex `.` (from `_` and `%`) here also matches a line feed, which .NET's does not; and .NET's `$` also matches before a final line feed, so a value ending in one can match where the model says no.
- Like.IsWhereLikeMatch: the same three differences as Like.IsLikeMatch.
- Bst.SearchFinds: `string.Compare` is modelled as an ordinal comparison that is zero only on equal strings, so the mix of `==` and `Compare` at BSTIndex.cs:54-57 cannot disagree here; under culture rules two different keys comparing equal would be dropped on insertion and missed on search.
- Indexes.InsertThenSearch: holds for tree indexes because the ordinal comparison is zero only on equal keys, as for Bst.SearchFinds above.
- StoreDataManager.SeekLine: the seek is taken to restart reading at the file's start; Store.cs:321-325 seeks the base stream without discarding the reader's buffer, so the real reader may continue from buffered text.
- OrderBy.Sort: an insertion sort stands for `List.Sort`. With the cyclic comparator (OrderBy.ComparisonCycle) the .NET order is unspecified and may throw; OrderBy.OrderByStable and OrderBy.SortOrder therefore require sort values of one kind.
- OrderBy.ApplyOrderBy: the order and stability are stated only for sort values of one kind, for the reason above.
- Where.EvaluateWhereClause: ASCII case folding and the number parse of Text.ParseDouble, as above.
- StoreDataManager.Store.CreateDatabase: the ledger comparison folds ASCII case only.
- StoreDataManager.Store.CreateTable: the ledger comparison folds ASCII case only.
- StoreDataManager.Store.CreateIndex: the index type check upper-cases ASCII only.
- StoreDataManager.Store.DropTable: index files are keyed by (database, table, column) instead of the file name `{table}_{column}_index.idx`, so the glob `{table}_*_index.idx` (Store.cs:641), which also deletes the files of a table named `{table}_x`, is not reproduced; ledger matching folds ASCII case only.
- StoreDataManager.Store.Delete: UpdateAllIndices (Store.cs:1007-1015) rebuilds `{table}_{Split('_')[1]}`, a different file when a name contains '_'; the model rewrites the table's own index files.
- StoreDataManager.Selection: a function with no contract of its own; what it answers is stated by StoreDataManager.SelectionIndexPath, StoreDataManager.EqualsMissPrintsFirstRow and StoreDataManager.Store.Select.
- Bst.SearchRec: no contract of its own; Bst.SearchFinds states its result.

## Findings

| source | as written | input that shows it | evidently intended | confidence | as-written member | corrected member |
|---|---|---|---|---|---|---|
| StoreDataManager/BTreeIndex.cs:134-148 | the less-than walks stop at the first key not below the bound and skip the child left of it | root [5], leaves [3] and [7,9]; query "< 4" or "<= 4" | every stored pair below the bound | not executed | BTreeModel.PrunedWalkMisses | BTree.BTreeIndex.SearchLessThanComplete |
| StoreDataManager/Store.cs:237-243 | Split(' ', 3) gives a one-word operator, so the "NOT LIKE" case of the index switch (Store.cs:311) is never taken | "name NOT LIKE a%" on an indexed column gives operator "NOT", an error | "NOT LIKE" read as one operator | not executed | StoreDataManager.NotLikeUnreachable | StoreDataManager.NotLikeRead |
| StoreDataManager/Store.cs:508-531 | numbers compare as numbers, other values as text, so the comparator is cyclic | "2" < "10", "10" < "1a", "1a" < "2" | a total order, e.g. numbers before words | not executed | OrderBy.ComparisonCycle | OrderBy.KeyOrderTransitive |
| StoreDataManager/Store.cs:293-329 | "=" on a value the index lacks gives position -1; nothing is read and the held first data row is printed | an indexed column, "x = missing" | no row | not executed | StoreDataManager.EqualsMissPrintsFirstRow | StoreDataManager.CheckedMiss |
| StoreDataManager/Store.cs:326-328 | rows from the index are processed with an empty clause, never re-checked | a tree index, "x < 9": the key "10" sorts below "9" as text | only rows the clause holds for | not executed | StoreDataManager.SelectionIndexPath | StoreDataManager.CheckedSound |
| StoreDataManager/Store.cs:653 | the index ledger is filtered by the prefix "db,table," but its lines are "table,column,name,type" | database "d", table "tt", ledger line "tt,c,i,BST" stays | remove the table's index lines | not executed | StoreDataManager.IndexLineSurvivesDrop | StoreDataManager.IndexLineDropped |
| StoreDataManager/Store.cs:1055-1057 | the column index is `Array.IndexOf(parts, columnName)` on the column's own schema line, always 0 | schema a,INT / b,INT; an index on b reads the values of a | the column's position among the schema lines | not executed | StoreDataManager.SecondColumnReadsFirst | StoreDataManager.SecondColumnReadsItsOwn |
| StoreDataManager/Store.cs:899-900 | UpdateIndex keys on `values[dataStartIndex]`, not on the indexed column | two schema lines and a data line of two fields: index out of range | key on the indexed column | not executed | StoreDataManager.RegroupedFailsOnFullRow | StoreDataManager.RegroupedAtIndexesColumn |
| StoreDataManager/Store.cs:1204 | INSERT appends `values` joined by "," without parentheses; SELECT's scan reads only lines starting with "(" | INSERT (1, 'a') then SELECT * | the row written "(1,,'a')" and seen by the scan | not executed | StoreDataManager.InsertedLineUnseen | StoreDataManager.InsertedRowSeen |

# Transaction ancestry of a Bitcoin block

`TransactionAncestry` (in `transaction_ancestry.py`) builds an in-memory graph with one node per transaction of a block.
- Each node holds a `count`, a set of `parents` and a `visited` flag.
- An input of a transaction becomes a parent edge only when the spent transaction belongs to the same block.
- A depth-first pass then gives every node a count. A node's count is the sum, over its parents, of 1 plus the parent's count.
- The nodes are ranked by count, largest first, and the first `limit` of them are reported.

This project models that core in Dafny:

| file | module | models |
|---|---|---|
| `types.dfy` | `Types` | transaction ids, the edge map, a transaction `(txid, vin)`, `Option` |
| `seeding.dfy` | `Seeding` | the insertion order of the node dict (`Dedup`) |
| `edge_filtering.dfy` | `EdgeFiltering` | recording edges for one transaction, for a list and for pages (`AddEdges`, `ApplyTransactions`, `ApplyPages`) |
| `pagination.dfy` | `Pagination` | the page offsets 0, 25, 50, … that are requested |
| `ancestor_weight.dfy` | `AncestorWeight` | the value the counting pass computes (`Weight`), and the set of distinct ancestors for comparison |
| `ranking.dfy` | `Ranking` | Python's stable `sorted(..., reverse=True)` by count, as a stable insertion sort |
| `ancestry.dfy` | `Ancestry` | the class itself, with its methods |

## How the model is built

- The Python dict of node dicts becomes four fields of the class `TransactionAncestry`:
  - `order`: the dict's insertion order, which the counting pass iterates in and the ranking uses to break ties;
  - `count`, `parents` and `visited`: one map per node field.
- Every method that changes the graph has `modifies this` and states the new field values.
  - Recording edges is specified against the pure functions in `EdgeFiltering`.
  - Counting is specified against the ghost function `Weight`.
  - Ranking is specified against `SortByCountDesc`.
- The counting recursion terminates only on an acyclic graph. The methods take a ghost `rank` (`Ranked`): every parent ranks strictly below its child.
  - The rank is also the recursion's termination measure.
  - The source has no cycle check. On a cycle it recurses until Python's recursion limit stops it. The model therefore requires acyclicity.
- The HTTP requests are not modelled.
  - The block's transaction ids are the constructor's argument.
  - The paged transaction request is a function parameter `fetch(start)`. It returns `None` for a failed request, where the source raises.
- `processTransaction` raises a `KeyError` in one case: the transaction's own id is not a node, but one of its inputs is. The model returns `false` (or `None`) in that case, and processing stops there, as the exception would stop it.

Two points about what the count is and when it is defined:
- The count is called the size of an ancestry set, but it is a sum over paths. The code adds `1 + count(parent)` for every parent, so an ancestor reached along two paths is counted twice.
  - `Weight` models the code.
  - `AncestorsBoundedByWeight` proves that `Weight` is never below the number of distinct ancestors.
  - `Diamond` exhibits a node with 2 distinct ancestors and count 3.
- The code has no cycle guard. Here, acyclicity is a precondition.
- A negative `limit` never equals the loop index, so every node is reported. The model does the same.

The counting pass keeps an invariant that the code relies on without stating it. A visited node's count is final, and so are those of its parents (`Memoised`, `ParentsFinished`). After one call of `processTransactionInGraph(t)`, every ancestor of `t` is therefore visited, and the count of `t` equals the sum of `1 + count[p]` over its parents, read from the fields.

## Model

| member | source | states |
|---|---|---|
| Seeding.Dedup | transaction_ancestry.py:26-27 | the dict's key order after inserting the ids in turn: never longer than the ids, starting with the first id and containing the latest |
| Ancestry.SeedNodes | transaction_ancestry.py:24-27 | the seeding loop builds well-formed fields whose node order is `Dedup` of the ids, whose nodes are exactly the ids, each with count 0, no parents and not visited |
| Ancestry.SeededStep | transaction_ancestry.py:26-27 | seeding one more id keeps the fields seeded: an id already present is reset in place, a new one is appended to the order |
| Ancestry.TransactionAncestry.constructor | transaction_ancestry.py:24-27 | the nodes are exactly the given ids, in order of first occurrence; a repeated id collapses into one node; every node starts with count 0, no parents and not visited; the fields are well formed |
| Seeding.DedupKeepsEachIdOnce | transaction_ancestry.py:26-27 | the node order lists every given id exactly once and nothing else |
| Seeding.DedupOfDistinct | transaction_ancestry.py:26-27 | for ids without repeats, the node order is the given list itself |
| Seeding.DedupSnoc | transaction_ancestry.py:26-27 | seeding one more id appends it if it is new, and otherwise leaves the order unchanged |
| EdgeFiltering.AddEdges | transaction_ancestry.py:78-83 | fails exactly when `txid` is not a node and some input is; otherwise no node is added or removed, no other node changes, and the new parents of `txid` are its old parents plus the inputs that are nodes; parents stay nodes |
| EdgeFiltering.AddEdgesIdempotent | transaction_ancestry.py:78-83 | processing the same transaction twice gives the same graph as once |
| EdgeFiltering.AddEdgesNothingNew | transaction_ancestry.py:81-83 | inputs that are already parents, or are not nodes, leave the graph unchanged |
| EdgeFiltering.AddEdgesOne | transaction_ancestry.py:80-83 | one input: ignored if it is not a node, a lookup failure if `txid` is not a node, otherwise added to `txid`'s parents |
| EdgeFiltering.AddEdgesSnoc | transaction_ancestry.py:79-83 | the inputs are processed one after another: `vin + [x]` behaves as `vin` followed by `x` |
| EdgeFiltering.ApplyTransactions | transaction_ancestry.py:74-76 | the transactions are processed in turn; no node is ever added or removed |
| EdgeFiltering.ApplyTransactionsSucceeds | transaction_ancestry.py:74-83 | processing a list succeeds exactly when every transaction's id is a node or none of its inputs is |
| EdgeFiltering.ApplyTransactionsGrowsEdges | transaction_ancestry.py:74-76 | processing a list of transactions never adds or removes a node, only adds parents, and keeps every parent a node |
| EdgeFiltering.ApplyPages | transaction_ancestry.py:56-72 | the pages are requested in turn and their transactions processed; success implies that every page request returned a page, and failure implies that at least one page was requested |
| EdgeFiltering.ApplyPagesSucceeds | transaction_ancestry.py:56-83 | the pages succeed exactly when every request returns a page and every transaction on it can be processed |
| EdgeFiltering.ApplyPagesGrowsEdges | transaction_ancestry.py:56-61 | the same for all requested pages |
| EdgeFiltering.ApplyPagesAppend | transaction_ancestry.py:59-61 | requesting pages `a` then `b` runs `a`, then `b` on the resulting graph if all of `a` succeeded, and otherwise stops |
| EdgeFiltering.PagesStep | transaction_ancestry.py:59-61 | one more page after successful pages extends the run by that page; a failure there makes it the last page requested, and no later page changes anything |
| Ancestry.TransactionAncestry.ProcessTransaction | transaction_ancestry.py:78-83 | updates `parents` in place, input by input, to exactly `AddEdges`; returns false, with nothing changed, where the lookup of `txid` fails; the other fields are untouched |
| Ancestry.TransactionAncestry.ProcessTransactions | transaction_ancestry.py:74-76 | the edges and success flag are those of `ApplyTransactions`: each transaction in turn, stopping at the first failure with the earlier edges kept |
| Pagination.PageStartsFrom | transaction_ancestry.py:58-61 | from `start`, the i-th request is at `start + 25·i` and below the count, and the next offset is not |
| Pagination.PageStarts | transaction_ancestry.py:58-61 | the i-th request is at `25·i` and below the count, and `25·(number of requests)` reaches the count |
| Pagination.PageStartsStep | transaction_ancestry.py:59-61 | the pages already requested followed by those still to come are all pages; once the offset reaches the count, the requested pages are all pages |
| Pagination.PageStartsFromShape | transaction_ancestry.py:58-61 | from offset 25·j, the loop requests pages 25·j, 25·(j+1), … below the count, ceil((txCount − 25·j)/25) of them |
| Pagination.PageStartsCover | transaction_ancestry.py:58-61 | ceil(txCount/25) requests at 0, 25, 50, …, each below txCount; the pages do not overlap and together cover every index in [0, txCount) |
| Ancestry.TransactionAncestry.ProcessPage | transaction_ancestry.py:63-72 | one page request: the edges and success flag are those of `ApplyPages` on that single page; a failed request changes nothing; the other fields are untouched |
| Ancestry.TransactionAncestry.GetAllBlockTransactions | transaction_ancestry.py:56-61 | the requested offsets are a prefix of `PageStarts(txCount)` and are all of it on success; on failure every page before the last succeeded and the last one failed (`StoppedAtLast`); the edges and flag are those of `ApplyPages` over the requested pages and also over all pages, so the earlier edges are kept; the other fields are untouched |
| AncestorWeight.Weight | transaction_ancestry.py:89-96 | the count the pass computes: the sum (`SumWeights`) over the parents of 1 plus the parent's count; 0 exactly when the node has no parents |
| AncestorWeight.SumWeightsSplit | transaction_ancestry.py:91-95 | the sum over parents does not depend on the order the parent set is iterated in |
| AncestorWeight.WeightAtLeastParents | transaction_ancestry.py:91-96 | a node's count is at least its number of parents |
| AncestorWeight.WeightRankIndependent | transaction_ancestry.py:89-96 | the count does not depend on which acyclicity witness is used |
| AncestorWeight.AncestorsBoundedByWeight | transaction_ancestry.py:89-96 | the count is at least the number of distinct ancestors (it counts paths, not ancestors) |
| AncestorWeight.AncestorsViaAnyOrder | transaction_ancestry.py:91-95 | the distinct-ancestor set does not depend on the order parents are taken in |
| AncestorWeight.Diamond | transaction_ancestry.py:89-96 | A, B → A, C → {A, B} gives counts 0, 1 and 3, while C has the two distinct ancestors A and B |
| AncestorWeight.ChainWeight | transaction_ancestry.py:89-96 | along a chain of single parents the counts are 0, 1, 2, … |
| Ancestry.FinishNode | transaction_ancestry.py:89-96 | a finished node is left unchanged; otherwise the node ends finished with count `Weight`; finished nodes keep their counts, and the parents of a finished node are finished; the only nodes that change are the node and its unfinished ancestors, and each of them ends finished |
| Ancestry.CountInput | transaction_ancestry.py:92-95 | one loop step adds 1 plus the parent's `Weight` to the child, leaves the parent finished with count `Weight` and leaves the child unfinished; apart from the child, only the parent and its unfinished ancestors change |
| Ancestry.InputsFinishedStep | transaction_ancestry.py:92-95 | after a loop step, the parents already iterated over, now including this one, are finished |
| Ancestry.ParentsFinishedFinish | transaction_ancestry.py:96 | marking a node visited once all its parents are finished keeps every visited node's parents finished |
| Ancestry.FieldRecurrence | transaction_ancestry.py:92-95 | for a visited node, every parent is visited with its `Weight`, and the node's count equals the sum over its parents of 1 plus the parent's count, read from the fields |
| AncestorWeight.CountSumOfWeights | transaction_ancestry.py:92-95 | when the parents' fields hold their `Weight`, summing `1 + count[p]` over them gives the same as `SumWeights` |
| AncestorWeight.AncestorsRankedBelow | transaction_ancestry.py:92-94 | every ancestor is a node ranked strictly below the node, so the recursion into a parent never reaches the node itself |
| AncestorWeight.ParentAncestors | transaction_ancestry.py:92-94 | a parent and all of its ancestors are ancestors of the child, so what recursing into a parent touches lies within the child's ancestors |
| Ancestry.ProcessedTouchesOnlyAncestors | transaction_ancestry.py:89-96 | after counting `t`, every node that is neither `t` nor an ancestor of `t` has its old count and flag |
| Ancestry.AncestorsFinished | transaction_ancestry.py:89-96 | every ancestor of a visited node is visited |
| Ancestry.CountNode | transaction_ancestry.py:89-96 | the traversal on the map values ends with `txid` settled (`Processed`): visited with count `Weight`, its parents visited with theirs, its count the field sum over its parents, every ancestor visited; a call on a visited node changes nothing; apart from `txid`, only its unfinished ancestors change, each ending finished |
| Ancestry.TransactionAncestry.ProcessTransactionInGraph | transaction_ancestry.py:89-96 | on the fields, keeping them well formed: `txid` ends visited with count `Weight`; each of its parents is visited with its `Weight`; `count[txid]` equals the sum of `1 + count[p]` over its parents; every ancestor is visited; a call on a visited node changes nothing; no node other than `txid` and its ancestors changes; parents and order are untouched; every visited node holds its `Weight` and has visited parents |
| Ancestry.FinishAll | transaction_ancestry.py:85-87 | finishing the ids in turn leaves each of them finished, keeps every finished node's count and keeps unfinished nodes at 0 |
| Ancestry.TransactionAncestry.ProcessTransactionsInGraph | transaction_ancestry.py:85-87 | after the pass every node is visited and its count is `Weight`, and equals the sum of `1 + count[p]` over its parents read from the fields; parents and order are unchanged; nodes already visited keep their counts, so a second pass changes nothing |
| Ranking.Insert | transaction_ancestry.py:33 | inserting an entry adds exactly that entry (multiset) |
| Ranking.InsertKeepsOrder | transaction_ancestry.py:33 | inserting into a list sorted by count, largest first, keeps it sorted |
| Ranking.InsertStable | transaction_ancestry.py:33 | among equal counts the inserted entry goes in front, and other counts are untouched |
| Ranking.SortByCountDesc | transaction_ancestry.py:33 | the result is sorted by count, largest first, and is a permutation of the input; for each count, the entries with that count keep their input order (stability) |
| Ranking.PrefixDominates | transaction_ancestry.py:33-35 | every entry is either among the first n ranked or has a count no larger than each of them |
| Ranking.RankingCarriesCounts | transaction_ancestry.py:33-36 | each ranked entry is a node paired with its count |
| Ranking.RankingPrefixDominates | transaction_ancestry.py:33-36 | no node outside the first n ranked has a larger count than any node inside |
| Ranking.RankingPrefix | transaction_ancestry.py:33-36 | the first n ranked entries are sorted, carry their counts, and dominate every node left out |
| Ancestry.TransactionAncestry.LargestAncestrySets | transaction_ancestry.py:33-36 | reports min(limit, n) entries, or all n when limit is negative; they are the prefix of the stable ranking, largest first, each with its node's count, and no node left out has a larger count |
| Ancestry.TransactionAncestry.GetLargestAncestryTransactionSets | transaction_ancestry.py:29-36 | on a fresh graph: the edges and the success flag are those of `ApplyPages` over all pages, so it fails exactly when a page request or lookup fails and keeps the edges recorded before the failure; on failure the counts and flags are untouched and nothing is reported; otherwise every node is visited with count `Weight`, and the report is the ranking prefix of the right length |

## Left out

- HTTP and JSON: `_callApi`, `getAllTransactionIds`, `getBlockData`, `_getBlockHashByHeight` and the request half of `getBlockTransactions` are not modelled, and neither are the URL table and base URL. `ProcessPage` models the rest of `getBlockTransactions`.
  - The ids are the constructor's argument.
  - `tx_count` and the page request are the parameters `txCount` and `fetch`.
  - A non-200 response is `fetch` returning `None`.
- `block_height` and `block_hash` are not modelled, because only the HTTP calls use them.
- The `print` calls of `getLargestAncestryTransactionSets` are not modelled. The model returns the reported `(txid, count)` entries instead.
- Cycles and Python's recursion limit are not modelled. An acyclicity witness is a precondition of the counting methods. Because the recursion is real recursion, a deep chain can exceed Python's recursion depth; the model does not capture that.
- Ancestry.TransactionAncestry.ProcessTransactionInGraph: it does not recurse through the object. The depth-first traversal runs in `FinishNode` / `CountInput` on the values of the `count` and `visited` maps, and the results are written back into the fields. Nothing else reads or changes the graph during the pass, so the final state is the same. The step-by-step updates of the fields themselves are not modelled.
- Ancestry.TransactionAncestry.ProcessTransactionsInGraph: the loop runs in `FinishAll` on the map values and writes the result back, for the same reason.
- Ancestry.TransactionAncestry.constructor: the seeding loop runs in `SeedNodes` on local values that are assigned to the fields at the end, rather than updating the fields one id at a time.
- The order in which a Python set yields a node's parents is not modelled. The model picks parents in an unspecified order, and `SumWeightsSplit` shows that the result does not depend on it.
- `test.py` is not modelled.

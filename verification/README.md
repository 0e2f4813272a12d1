# go-acd node tree, modelled in Dafny

go-acd is a Go client for Amazon Cloud Drive. It keeps an in-memory mirror of the remote
file tree and uses it for path lookups, listings and uploads. This project models that
mirror. It covers three generations of the code:

- the `node` package (`node/`);
- the older `client/node` and `client/nodetree` packages;
- the two command-level packages, `acd` and `acd/client`, which build on them.

A tree is a record store keyed by node ID, the index (the keys of Go's `nodeMap`), the ID
of the root and the sync checkpoint. Pointer identity in Go is ID identity here. The remote
service is an oracle: a function from a call number and a request to an exchange (a send
failure, or a status, an optional decoded body and an optional error from the body
producer). Each remote operation takes the next call number and returns the next one.
Pages of the full listing, the lines of the change feed, the local cache and the results of
the local directory walk are likewise parameters.

Modules, one per file:

- `Errors` (errors.dfy): the sentinel errors of `internal/constants/errors.go`, plus
  `Result`, `Outcome` and `Option`.
- `Response` (response.dfy): the status check shared by every call.
- `Util` (util.dfy): `diffSliceStr`, the parent-list difference.
- `Paths` (paths.dfy): the parts of `strings` and `path` the lookups use, written out.
  These are `Split`, `Join`, `TrimPrefix`, `ToLower` (ASCII), `Index`, `SplitAfter`, the
  `/[/]*` rewrite, `Clean`, `Dir` and `Base`.
- `Nodes` (nodes.dfy): the node record, its predicates, `AddChild`, `RemoveChild` and the
  JSON merge `update`.
- `Trees` (trees.dfy):
  - the two lookups, case-folding and exact, and `FindByID`;
  - reachability and `buildNodeMap`;
  - relinking a node under a list of parents;
  - `RemoveChild` of `client/nodetree/node.go` as written.
- `Mutations` (mutations.dfy): `CreateFolder`, `Upload`, `Overwrite`, the trash call and
  `RemoveNode`.
- `Sync` (sync.dfy): the change-feed pass of `node/sync.go`.
- `CoarseSync` (coarse_sync.dfy): the older passes of `client/node/sync.go` and of
  `refresh` in `client/nodetree/nodetree.go`.
- `Fetch` (fetch.dfy): `fetchFresh`, `loadOrFetch` and `loadOrRefresh`.
- `Mkdir` (mkdir.dfy): `MkdirAll` and `CreatePath`.
- `Client` (client.dfy): `List`, `Upload` and `UploadFolder` of both command-level
  packages, with the upload decision table.
- `Mock` (mock.dfy): the four-node `Mocked` fixture and the lookups its tests expect.

## Model

| member | source | states |
|---|---|---|
| Response.CheckResponse | response_checker.go:14-43 | A 2xx status passes. Every other status fails. The error names the status when the switch lists it, and is ResponseUnknown otherwise. |
| Response.NonSuccessIsUnknownUnlessNamed | client/response_checker.go:12-41 | The client package's checker classifies every status the same way: unlisted error statuses give ResponseUnknown. |
| Response.ThreeHundredIsAnError | response_checker.go:15-17 | A redirect status is not a success. It is refused as ResponseUnknown. |
| Util.Diff | node/util.go:4-23 | The difference keeps exactly the elements of the first list that the second lacks, with their multiplicities, in order. |
| Util.DiffSliceStr | node/util.go:4-23 | The two nested loops compute the same list as the reference difference. |
| Util.Occurs | node/util.go:10-15 | The inner loop answers whether the element occurs in the second list. |
| Util.DiffAppend | node/util.go:4-23 | The difference distributes over concatenation of the first list. |
| Util.DiffSingleton | node/util.go:4-23 | One element gives itself or nothing, by membership. |
| Util.DiffExtend | node/util.go:4-23 | Adding an element to the second list removes all its occurrences from the difference and keeps the rest in order. |
| Util.DiffSubset | node/util.go:4-23 | When every element of the first list is in the second, the difference is empty. |
| Util.DiffSelf | node/util.go:4-23 | A list minus itself is empty. |
| Util.DiffExamples | node/util_test.go:8-28 | The three test cases give ["c"], [] and []. |
| Paths.Split | node/find.go:29 | The pieces are never empty as a list, hold no separator, and join back to the input. |
| Paths.SplitJoin | node/find.go:29 | Splitting a join of separator-free pieces gives the pieces back. |
| Paths.SplitConcat | node/find.go:29 | Splitting at a separator splits the two sides independently. |
| Paths.TrimSlash | node/find.go:19 | One leading separator is dropped, and nothing else. |
| Paths.Collapse | node/find.go:16-17 | The rewrite leaves no two adjacent separators, never lengthens, and keeps the first character. |
| Paths.CollapseIdentity | node/find.go:16-17 | A path with no doubled separators is unchanged by the rewrite. |
| Paths.CollapseIdempotent | node/find.go:16-17 | Rewriting twice is rewriting once. |
| Paths.CollapseDoubleSlash | node/find.go:16-17 | Doubling any one separator does not change the rewritten path. |
| Paths.Lower | node/find.go:34 | Lower-casing is applied character by character and keeps the length. |
| Paths.LowerIdempotent | node/find.go:34 | Lower-casing twice is lower-casing once. |
| Paths.LowerCollapse | node/find.go:16-34 | Lower-casing commutes with the separator rewrite. |
| Paths.LowerSplit | node/find.go:29-34 | Lower-casing commutes with splitting into segments. |
| Paths.SplitAfter | upload.go:68-69 | The pieces of strings.SplitAfter concatenate back to the input. |
| Paths.DirBaseOfPlainPath | upload.go:35-41 | For "/e1/.../en" of plain elements, path.Dir is "/e1/.../e(n-1)" (the root when n = 1) and path.Base is en. |
| Nodes.AddChild | client/nodetree/node.go:94-98 | The child is appended at the end of the list, and no other field changes. |
| Nodes.RemoveChild | client/nodetree/node.go:101-116 | As intended, exactly the first occurrence of the child leaves the list: the list is the part before it followed by the part after it. A missing child leaves the node as it is. No other field changes. |
| Nodes.RemoveAddChild | client/nodetree/node.go:94-116 | Removing a child that was just added restores the node. |
| Nodes.Update | client/nodetree/node.go:118-133 | The merge replaces the time values and keeps the root flag once set. Every other field the payload leaves empty or zero (omitted in JSON) keeps its stored value, the child list included. |
| Nodes.UpdateComplete | client/nodetree/node.go:118-133 | A payload with every field set replaces the node, except that a root stays a root. |
| Nodes.UpdateIdempotent | client/nodetree/node.go:118-133 | Applying the same payload twice equals applying it once. |
| Nodes.UpdateSelf | client/nodetree/node.go:118-133 | A node merged with itself is unchanged. |
| Nodes.UpdateEmpty | client/nodetree/node.go:118-133 | The zero payload resets only the three time values, which are always encoded. |
| Nodes.UpdateOverrides | client/nodetree/node.go:118-133 | Each field the payload sets, the content properties and the child list included, wins over any stored value. |
| Trees.FirstMatch | node/find.go:30-40 | The first child in list order whose name matches. None exactly when no child with a record matches. |
| Trees.Walk | node/find.go:30-45 | Each segment moves to a matching child. The result is a node whose name matches the last segment, or NodeNotFound. No segments give the start node. |
| Trees.WalkStep | node/find.go:30-45 | One step: when no child of the current node matches the first segment the walk fails. Otherwise it continues from the first matching child, in child-list order, with the remaining segments. |
| Trees.WalkAppend | node/find.go:30-45 | Walking a concatenation is walking the first half, then the second from where it ended. |
| Trees.FindNode | node/find.go:14-48 | The folding lookup returns a stored node or NodeNotFound. A path that is empty after the rewrite and trim resolves to the root. |
| Trees.FindNodeExact | client/node/find.go:14-48 | The exact lookup returns a stored node or NodeNotFound. A path that is empty after the trim resolves to the root. |
| Trees.FindByID | node/find.go:51-58 | A node is found exactly when its ID is indexed, and the result is its record. |
| Trees.FindNodeDoubleSlash | node/find.go:16-17 | In the folding lookup a doubled separator resolves like a single one. |
| Trees.FindNodeRoot | node/find.go:16-23 | The empty path and every run of separators resolve to the root. |
| Trees.FindNodeIgnoresCase | node/find.go:34 | The folding lookup gives the same answer for a path and its lower-case form. |
| Trees.FindNodeExactEmptySegment | client/nodetree/nodetree.go:229-263 | In the exact lookup, "/a" with no child named a is not found. |
| Trees.Successors | node/tree.go:146-154 | One step of the traversal: exactly the children with records of the given nodes. |
| Trees.ClosureSound | node/tree.go:146-154 | Everything the traversal collects is reachable from the root. |
| Trees.ClosureClosed | node/tree.go:146-154 | The traversal's result is closed under children. |
| Trees.ClosedHoldsPath | node/tree.go:146-154 | A set closed under children that holds the root holds the end of every root path. |
| Trees.BuildNodeMap | node/tree.go:146-154 | The rebuilt index holds exactly the nodes reachable from the root. Records, root and checkpoint are unchanged. |
| Trees.WalkReachable | node/find.go:30-45 | A walk from a reachable node ends at a reachable node. |
| Trees.FindNodeIndexed | client/nodetree/nodetree.go:218-263 | Whatever either lookup finds is in the rebuilt index. |
| Trees.UnlinkAll | node/sync.go:134-143 | Each indexed parent loses as many occurrences of the node as it appears in the parent list. Nothing else changes. |
| Trees.LinkAll | node/sync.go:144-153 | Each indexed parent gains the node once per appearance in the parent list. Nothing else changes. |
| Trees.UnlinkAfterLink | node/sync.go:134-153 | Unlinking after linking under parents that did not hold the node restores the tree. |
| Trees.RemoveNCounts | node/sync.go:134-143 | Removing k occurrences lowers that element's count by k, down to zero. Other counts stay. |
| Trees.RemoveChildAsWritten | client/nodetree/node.go:101-116 | As written, the parent's list is never edited. On a match, the child's own list loses an element, or the call panics when that list is empty. |
| Trees.RemoveChildAsWrittenPanics | client/nodetree/node.go:104-110 | Removing a leaf from its folder panics as written. The intended edit empties the list. |
| Trees.RemoveChildAsWrittenKeepsChild | client/nodetree/node.go:104-110 | Removing a child that has a child of its own drops the grandchild as written and keeps the child. |
| Mutations.MetadataReply | client/nodetree/node_upload.go:22-49 | A send failure, then the status, then the body decide. The result is Ok exactly for a success status with a decodable body. |
| Mutations.UploadReply | client/nodetree/node_upload.go:118-150 | Like the metadata reply, but once the status passes, an error the producer already reported wins over the body. |
| Mutations.Attach | client/nodetree/node_upload.go:50-52 | The new node is recorded and appended as the parent's last child. The index and all other records are unchanged. |
| Mutations.FolderRequest | client/nodetree/node_upload.go:17-21 | The request asks for a FOLDER with the given name under the given parent. |
| Mutations.FileRequest | client/nodetree/node_upload.go:56-70 | The request asks for a FILE with the given name under the given parent. |
| Mutations.CreateFolder | client/nodetree/node_upload.go:16-53 | Exactly one call. On failure the tree is unchanged and the error is the reply's. On success the decoded node is stored and is the parent's new last child. |
| Mutations.Upload | client/nodetree/node_upload.go:56-76 | Exactly one call. On failure the tree is unchanged. On success the uploaded node is stored and the parent's record gains it as its last child. The index, the root, the checkpoint and every other record stay as they were. |
| Mutations.Overwrite | client/nodetree/node_upload.go:79-87 | Exactly one call. The reply is merged into the node with update, and no child or record is added. On failure nothing changes. |
| Mutations.TrashOutcome | client/nodetree/node_remove.go:13-32 | The trash call passes exactly on a success status. Otherwise it fails with the send or status error. |
| Mutations.RemoveNode | node/tree.go:37-52 | Trash first. On failure nothing changes locally. On success each indexed parent drops the node once per listing, and nothing else changes, the index included. |
| Mutations.CreateFolderThenRemove | node/tree.go:37-52 | A folder created under an indexed parent, which the service reports under that parent alone, and then removed gives back the parent's record and every other record. Only the new record stays, unindexed. |
| Mutations.CreateFolderUndone | client/nodetree/node_upload.go:50-52 | Removing a freshly created folder from its parent restores the parent's record. |
| Sync.Ids | node/sync.go:93-103 | The IDs of a batch: exactly those carried by some payload. |
| Sync.FirstWithId | node/sync.go:93-103 | The first payload of the batch with the given ID. |
| Sync.Seed | node/sync.go:93-103 | Each new ID is indexed with its first payload and no parents. Indexed records are left alone. |
| Sync.Reconcile | node/sync.go:106-156 | An unindexed ID panics and changes nothing. A deletion drops the ID from the index. An available change stores the merged record, and each parent is relinked by the list difference. |
| Sync.ReconcileAsWritten | node/sync.go:106-156 | As written, the stored record keeps its old parent list after a change. |
| Sync.ReconcileAll | node/sync.go:106-158 | Payloads in order. The only failure is the panic. Root and checkpoint are kept. |
| Sync.UpdateNodes | node/sync.go:91-160 | Seeding, then reconciliation. The only failure is the panic, and the root is kept. |
| Sync.ApplyLine | node/sync.go:66-86 | For one line: an undecodable line fails with JSONDecodingResponseBody, reset fails with MustFetchFresh (tested before end), end passes, and a non-empty checkpoint is stored. |
| Sync.ApplyLines | node/sync.go:66-86 | The pass reads lines until one stops it. Having read them all, it passes. |
| Sync.ApplyLinesCheckpoint | node/sync.go:72-75 | After a pass the tree holds the last non-empty checkpoint of the lines read. |
| Sync.ApplyLinesPrefix | node/sync.go:66-86 | Every line before the one that stopped the pass is an ordinary change record. |
| Sync.ApplyLinesStop | node/sync.go:66-86 | The outcome names the line that stopped the pass: malformed, reset, end, or a failing batch. |
| Sync.ApplyLinesAppend | node/sync.go:66-86 | Reading more lines does not change a stopped pass. An unstopped pass continues from where it was. |
| Sync.LinesAfterStopIgnored | node/sync.go:66-86 | Lines after the stopping line are never read. |
| Sync.ResetWinsOverEnd | node/sync.go:72-82 | A record with both reset and end asks for a fresh fetch, after its checkpoint is stored. |
| Sync.SyncFeed | node/sync.go:31-89 | A send failure, an error status or an unreadable body fails without touching the tree. Otherwise the pieces of the body split at every newline are applied. |
| Sync.Pieces | node/sync.go:66 | There is always at least one piece. An empty body, or one ending in a newline, adds an empty piece after the lines, and that piece does not decode. |
| Sync.ReconcileConsistent | node/sync.go:106-156 | Reconciling a plain payload keeps every child list agreeing with the parent lists over the index. |
| Sync.SeedConsistent | node/sync.go:93-103 | Seeding keeps that agreement when no indexed node already names a new ID as a parent. |
| Sync.ReconcileAllConsistent | node/sync.go:106-158 | A batch of plain payloads keeps the agreement. |
| Sync.UpdateNodesConsistent | node/sync.go:91-160 | updateNodes keeps the graph in agreement with the parent lists. |
| Sync.CommitThroughPayloadDuplicatesChild | node/sync.go:156 | As written, a new node that arrives in two batches is linked under its folder twice and keeps its old name. |
| Sync.CommitOntoRecordLinksOnce | node/sync.go:156 | With the merge committed onto the stored record, the same two batches link the node once, renamed. |
| CoarseSync.RefreshRequest | client/nodetree/nodetree.go:317-324 | With no checkpoint, one node in one chunk is asked for. Otherwise only the checkpoint is sent. |
| CoarseSync.SyncRequest | client/node/sync.go:17-20 | The sync request sends the checkpoint alone. |
| CoarseSync.CoarseSeed | client/node/sync.go:73-77 | New IDs are indexed with the payload itself, parents included, and are linked under no parent. |
| CoarseSync.CoarseDelete | client/node/sync.go:89-101 | Corrected to unlink the stored node: it leaves the child lists of its parents. client/node drops it from the index. nodetree keeps it indexed with its stored parents. |
| CoarseSync.CoarseDeleteAsWritten | client/node/sync.go:89-101 | As written, the payload is handed to RemoveChild and no child list changes. client/node drops the node from the index. nodetree changes nothing. |
| CoarseSync.CoarseReconcile | client/node/sync.go:80-115 | Corrected version: an unindexed ID panics. A merge that is not available deletes the stored node. For an available merge, stored parents that differ from the merged ones ask for a fresh fetch and change nothing; otherwise the merged record replaces the stored one. |
| CoarseSync.CoarseReconcileAsWritten | client/node/sync.go:80-115 | As written, an unindexed ID panics. A fresh fetch is asked for exactly when the payload's parents differ from the merged ones. No record and no child list ever changes. Only client/node's deletion shrinks the index. |
| CoarseSync.CoarseReconcileAll | client/node/sync.go:80-117 | Payloads in order. A failure is a panic or a request for a fresh fetch. nodetree keeps the index, and with every ID of the batch indexed it never panics. |
| CoarseSync.CoarseUpdateNodes | client/node/sync.go:71-118 | Seeding, then reconciliation, with the same two failures. nodetree's never panics. An empty batch changes nothing. |
| CoarseSync.CoarseApplyLine | client/node/sync.go:49-66 | The record's checkpoint is stored even when empty. client/node tests reset before end, and nodetree tests end before reset. Only a client/node record with nodes, neither ending nor resetting, can panic. |
| CoarseSync.CoarseApplyLines | client/nodetree/nodetree.go:353-370 | Lines are read until one stops the pass. A failure is one of the refresh errors, and never a panic in nodetree. |
| CoarseSync.CoarseCheckpoint | client/node/sync.go:49-66 | After a pass the tree holds the checkpoint of the last decoded line read, empty or not. |
| CoarseSync.EmptyCheckpointErases | client/node/sync.go:55 | An empty checkpoint erases the stored one here and keeps it in node/sync.go. |
| CoarseSync.CoarseSyncFeed | client/nodetree/nodetree.go:315-373 | A send failure or an error status fails without touching the tree. Otherwise the scanner's lines are applied, and a failed read goes unnoticed. Once the index exists, nodetree's refresh never panics. |
| CoarseSync.ReadFailureSilent | client/node/sync.go:16-69 | A failed body read is an error in node/sync.go and is invisible in the older passes. |
| CoarseSync.TrailingNewline | node/sync.go:66-71 | A final newline after records that did not stop the pass, or an empty body, fails node/sync.go with JSONDecodingResponseBody. The scanner of the older passes ignores the final newline, and an empty body passes there unchanged. |
| CoarseSync.NewNodeNotLinked | client/node/sync.go:73-77 | A new node is indexed with its own record, and no parent gains it as a child. |
| CoarseSync.ClientNodeDeletionAsFine | node/sync.go:114-128 | With the stored node unlinked, a deletion in client/node has exactly the effect of the node/sync.go deletion. |
| CoarseSync.NodeTreeDeletionKeepsRecord | client/nodetree/nodetree.go:393-407 | After a deletion in nodetree, FindByID still returns the old record. As written, the tree does not change at all. |
| CoarseSync.CoarseAvailableConsistent | client/node/sync.go:104-114 | An available change that keeps the parents keeps the graph in agreement with the parent lists. |
| CoarseSync.ClientNodeReconcileConsistent | client/node/sync.go:80-115 | In client/node, with the stored node unlinked on deletion, any payload without a child list keeps that agreement. |
| CoarseSync.MoveUnnoticedAsWritten | client/node/sync.go:106-108 | A node moved from A to B goes unnoticed as written: the pass succeeds and no record changes, so in the model the record keeps parent A (the shared array of Go is left out). The corrected comparison asks for a fresh fetch. |
| CoarseSync.BarePayloadResetsAsWritten | client/node/sync.go:106-108 | A payload without parents forces a fresh fetch as written. The corrected comparison passes it. |
| CoarseSync.RenameLostAsWritten | client/node/sync.go:113-114 | As written, a rename leaves the tree as it was. Committed onto the stored record, the new name is stored. |
| CoarseSync.DanglingChildAsWritten | client/node/sync.go:89-101 | Folder A lists N and N is trashed. As written, A still lists N in both passes, and client/node has dropped N from the index. Unlinking the stored node empties A's list. |
| CoarseSync.DeletionBreaksConsistencyAsWritten | client/node/sync.go:89-101 | As written, deleting a node that an indexed parent lists always breaks the agreement of the graph with the parent lists. The corrected deletion keeps it. |
| Fetch.Collect | node/tree.go:184-226 | Pages are read until one has no next token, and their nodes are concatenated. The first failing page ends the listing with its error. |
| Fetch.IndexAvailable | node/tree.go:228-235 | The index holds every AVAILABLE node by ID and nothing else. |
| Fetch.IndexAvailableLast | node/tree.go:228-235 | Of two available nodes with one ID, the later one is kept. |
| Fetch.LastCandidate | node/tree.go:237-248 | The root is the last unnamed, parentless folder in visit order. None exactly when there is no such folder. |
| Fetch.Flagged | node/tree.go:240-243 | Every candidate is flagged as root, whichever one becomes the root. |
| Fetch.LinkEachCounts | node/tree.go:244-247 | Each node is appended under an indexed parent once per listing of that parent. |
| Fetch.Graph | node/tree.go:237-248 | The built tree's index is the listed index, and the checkpoint is kept. |
| Fetch.FetchFresh | node/tree.go:180-252 | A failed page fails the fetch with its error. Otherwise the tree is the graph of the available nodes, with the checkpoint kept. |
| Fetch.FetchFreshRecords | node/tree.go:228-248 | In any visit order, each indexed node keeps its listed record. Only the children differ. |
| Fetch.FetchFreshCounts | node/tree.go:237-248 | In any visit order, a node holds each indexed child once per listing of itself among that child's parents, on top of its decoded list. |
| Fetch.FetchFreshRoot | node/tree.go:237-248 | The root is a flagged candidate when there is one. Otherwise it is the old root. |
| Fetch.FetchFreshRootUnique | node/tree.go:237-248 | With a single candidate, every visit order gives that candidate as root. |
| Fetch.FetchFreshConsistent | node/tree.go:180-252 | A listing of plain nodes gives a graph that agrees with the parent lists, in every visit order. |
| Fetch.FetchThenBuild | client/nodetree/nodetree.go:144-226 | After a fetch and an index rebuild, the index is the set of nodes reachable from the root. |
| Fetch.LoadOrFetch | node/tree.go:156-178 | A cache miss with a failed listing returns that error on the old tree. An endless listing never returns. The root ends up set when it was set before, when the cache was hit, or when the first listing named a candidate. It is set only if one of these holds or the second listing named one; otherwise start-up ends with nt.Node nil. |
| Fetch.RootlessStartUp | node/tree.go:156-178 | NewTree on a cache miss whose listing names no root ends with the sync's outcome and no root. |
| Fetch.LoadOrFetchNoRetry | node/tree.go:165-175 | A first sync that does not ask for a fresh fetch ends start-up with its own outcome. |
| Fetch.LoadOrFetchRetriesOnce | node/tree.go:165-171 | A first sync asking for a fresh fetch is followed by exactly one fetch and sync, whose result is final. |
| Fetch.Load | client/nodetree/nodetree.go:79-90 | A cache hit gives the snapshot. On a miss, a refresh error other than must-refresh is returned. A panic is possible only on a miss before any index exists. |
| Fetch.ColdApplyLines | client/nodetree/nodetree.go:377-381 | With no index yet, the pass panics at a line that carries nodes, and at no earlier such line. When it does not panic, it is the ordinary nodetree pass. |
| Fetch.ColdPanicsAtFirstNodes | client/nodetree/nodetree.go:353-381 | A line carrying nodes, after records that neither end, reset nor carry nodes, makes the pass panic there. |
| Fetch.ColdRefresh | client/nodetree/nodetree.go:315-373 | With no index yet, refresh panics exactly when the status passes and the line loop panics. Otherwise it is the ordinary refresh. |
| Fetch.FirstRefresh | client/nodetree/nodetree.go:82 | The first refresh of a pass never panics once the index exists. |
| Fetch.LoadOrRefreshOsError | client/nodetree/nodetree.go:77-106 | An OS error ends start-up only through a failed cache removal that the stop test accepts. |
| Fetch.LoadOrRefreshFirstPass | client/nodetree/nodetree.go:77-106 | A load error is returned as it is. With no root set after loading, buildNodeMap(nil) panics. Otherwise a second refresh that passes succeeds, and its other errors come back wrapped. |
| Fetch.LoadOrRefreshRetries | client/nodetree/nodetree.go:92-98 | A must-refresh whose cache removal does not stop start-up leads to the next pass, on the refreshed tree. |
| Fetch.LoadOrRefresh | client/nodetree/nodetree.go:77-117 | Start-up from New with the index made first. A missing cache file never ends it. It panics only on a cache miss whose listing names no root, and it succeeds only with a root set. |
| Fetch.LoadOrRefreshLater | client/nodetree/nodetree.go:92-98 | As intended, on a pass with index and root: a missing cache file never ends start-up, and nothing panics. |
| Fetch.RootlessListingPanics | client/nodetree/nodetree.go:201-226 | A cache miss whose listing names no root leaves nt.Node nil, and the buildNodeMap(nil) of line 90 panics, as written and with the index made first. |
| Fetch.LoadOrRefreshAsWritten | client/nodetree/nodetree.go:95 | As written, only a removal that failed on a missing file ends start-up. |
| Fetch.New | client/nodetree/nodetree.go:113-126 | Start-up as written, with neither index nor root. Only a removal that failed on a missing file ends it with an OS error. A panic comes only from a cache miss on the first pass, and success needs a root. |
| Fetch.ColdStartPanicsAsWritten | client/nodetree/nodetree.go:113-117 | On a cache miss whose first refresh answers with a record carrying nodes, New panics. loadOrRefresh with the index made first does not. |
| Fetch.MissingCacheEndsStartUpAsWritten | client/nodetree/nodetree.go:95 | A missing cache file ends start-up as written. Intended, the pass repeats. Another removal error is the reverse. |
| Mkdir.Find | node/find.go:14-48 | The lookup of each package gives a stored node or NodeNotFound. |
| Mkdir.MkdirFrom | node/tree.go:112-134 | At most one call per segment left. Ok is a folder. A prefix that is a file is refused with CannotCreateANodeUnderAFile, with no call. |
| Mkdir.MkdirAll | node/tree.go:79-137 | An existing folder comes back with no call. An existing file is refused with FileExistsAndIsNotFolder. Otherwise the result is a folder, after at most one call per segment. |
| Mkdir.FindPlain | node/find.go:14-48 | A plain path resolves by walking its segments from the root, in either lookup. |
| Mkdir.FindRooted | client/nodetree/nodetree.go:229-263 | So does the same path with a leading separator. |
| Mkdir.WalkAttach | client/nodetree/node_upload.go:50-52 | Attaching a node under an unused ID keeps every lookup that succeeded. |
| Mkdir.CreatedStep | node/tree.go:115-126 | Creating a missing segment through an honest service makes that prefix resolve to the new folder. |
| Mkdir.MkdirFromFinds | node/tree.go:112-134 | After a successful run the whole path resolves to the folder returned. |
| Mkdir.MkdirAllIdempotent | client/nodetree/nodetree.go:266-313 | Creating a plain path a second time returns the same folder, with no call and no change. |
| Client.List | list.go:14-25 | A lookup error is passed on. A file gives PathIsNotFolder. A folder gives its children in stored order. |
| Client.ListThenFind | client/list.go:10-21 | A listed child resolves again under the folder's path, unless an earlier sibling's name matches. |
| Client.Done | upload.go:39-43 | An upload's result with the new node dropped: same error, tree and call count. |
| Client.Upload | upload.go:19-44 | An existing name is refused with FileExists, with no call. Otherwise the folder is created, then the file is uploaded there under its base name. |
| Client.ClientUploadAsWritten | client/upload.go:18-34 | As written, an existing name returns success with no call and no change. |
| Client.ExistingNameSucceedsSilentlyAsWritten | client/upload.go:19-21 | An existing name succeeds silently as written. Intended, it is refused with FileExists. |
| Client.UploadIntoFolder | upload.go:35-41 | A missing name whose folder exists is uploaded directly into that folder. |
| Client.UploadResolves | upload.go:19-44 | After an honest upload into an existing folder, the file's path resolves. |
| Client.TrimPrefix | upload.go:68-69 | The prefix is removed when present. Otherwise the string is unchanged. |
| Client.RemoteName | upload.go:68-69 | As intended, the remote name is the remote base plus the path relative to the local folder. |
| Client.RemoteNameAsWritten | client/upload.go:53-54 | As written, the name is None (a panic) exactly when strings.SplitAfter gives no pieces. |
| Client.RemoteNameAgreesOnce | upload.go:68-69 | When the local folder's name occurs only at the start, the written and intended names agree. |
| Client.RepeatedFolderNameDoublesSeparator | upload.go:68-69 | For folder "d" and file "d/d/a", the written name is "/r/d//a", which splits with an empty segment, and the intended name is "/r/d/a". |
| Client.Decide | upload.go:96-128 | A missing name is created. A folder is refused. A file with the same MD5 is skipped. A different file is replaced only with overwrite, and refused otherwise. |
| Client.OverwriteOnlyForDifferentFile | client/upload.go:83-104 | The overwrite flag changes the decision exactly for an existing file with different contents. |
| Client.UploadEntry | upload.go:59-132 | Folders are skipped, and so are files in subfolders of a non-recursive walk, with no call. Records are only added. |
| Client.SameContentNoCall | upload.go:96-113 | A file already present with the same MD5 is skipped with no call and no change. |
| Client.DifferentContent | upload.go:114-122 | A different file is refused without overwrite. With overwrite it is overwritten in place, with one call and no new node. |
| Client.UploadFolder | upload.go:50-57 | Entries in turn. A walk of folders only changes nothing. |
| Client.UploadFolderStops | client/upload.go:41-49 | The first failing entry ends the walk. Later entries are never visited. |
| Mock.MockedRoot | client/nodetree/mock.go:6-15 | The fixture's root is ID "/": unnamed, a folder, parentless and flagged root. No other node is flagged. |
| Mock.MockedParents | client/nodetree/mock.go:16-69 | Each node is stored under its ID, and each child names its holder as its only parent. |
| Mock.MockedIndexReachable | client/nodetree/mock.go:79-87 | The hand-written index is what buildNodeMap computes. |
| Mock.MockedFindByID | client/nodetree/find_test.go:24-41 | Each of the four IDs is found and carries that ID. |
| Mock.MockedFindExact | client/nodetree/find_test.go:5-22 | The exact lookup resolves each ID, read as a path, to that node. |
| Mock.MockedFindFolding | node/find_test.go:5-27 | The folding lookup resolves all eight test paths, mixed case and doubled separators included, to the expected IDs. |
| Mock.MockedList | client/list_test.go:10-33 | Listing "/" gives README.md then pictures. Listing "/pictures" gives logo.png. |

## Left out

- Logging, HTTP request construction and URL parsing are not modelled. The errors that
  request construction can raise are kept as send failures of the oracle.
- JSON encoding and decoding are not modelled. A body is either a decoded node or none.
  The encoding error `update` could raise (a time value out of range) is not modelled, so
  `Nodes.Update` is total.
- json.Unmarshal decodes into the array shared with the copied Parents slice
  (node/sync.go:109-110, client/node/sync.go:82-84, client/nodetree/nodetree.go:386-388),
  and sort.Strings then sorts the shared array in place. That aliasing is not modelled:
  the copy and the stored record are independent values. The lines below name what
  this costs.
- Sync.Reconcile: the relinking it proves, with `Sync.AvailableShape`, is the evidently
  intended one. As written, for a node the fetch built, the decode overwrites the first
  elements of the stored parent list with the payload's before the diffs at node/sync.go:134
  and :144. A node fetched under [A] and reported under [B] then reads [B] on both sides,
  both diffs are empty, and no parent is relinked, even with the commit at line 156 fixed.
  The deletion branch (node/sync.go:114-128) has the same cost. A node fetched under [A],
  moved to C and then trashed arrives with parents [C]. The stored list then reads [C], the
  loop over both lists visits C twice and never A, and A keeps listing the node after it has
  left the index. The model unlinks A, so `Sync.ReconcileConsistent` and
  `Sync.UpdateNodesConsistent` hold of the evidently intended code, not of the code as
  written.
- Sync.ReconcileAsWritten: models only the assignment through the payload at node/sync.go:156.
  Its promise that the stored record keeps its old parent list holds for nodes the feed
  seeded, whose list is a fresh empty one. It does not hold for nodes the fetch built,
  whose list the decode overwrites in place.
- CoarseSync.CoarseReconcile: the same overwrite happens before the comparison at
  client/node/sync.go:106-108. So even the intended comparison of the stored parents
  with the merged ones would miss a move of a node the fetch built. The corrected
  deletion (`CoarseSync.CoarseDelete`) unlinks the old parents too, which the loop at
  client/node/sync.go:91 would not reach through the overwritten list.
- CoarseSync.MoveUnnoticedAsWritten: its clause that the record keeps parent A is true of
  the model, where the copy and the record are separate. In Go, json.Unmarshal at
  client/node/sync.go:83 decodes the payload's [B] into the array the copy shares with the
  stored record, so for a node the fetch built the record reads [B]. The unnoticed move,
  and so the stale child lists of A and B, is the same either way.
- CoarseSync.CoarseReconcileAsWritten: its promise that no record changes leaves out
  the stored parent list. Through the shared array, that list can take the payload's
  first elements and be sorted in place.
- Go's `strings.ToLower` is Unicode-aware; the model lowers ASCII letters only.
- The bufio.Scanner line-size limit is not modelled. The change feed arrives as decoded
  lines, and a scanner error ends the older passes like the end of the body.
- Upload streaming through an io.Pipe and its goroutines are not modelled. The producer's
  outcome is an optional error in the exchange.
- client/node/upload.go races the producer against the response. The model uses the fixed
  order of client/nodetree/node_upload.go, where the status wins, then the producer, then
  the body. Apart from that, client/node/upload.go is modelled by the same functions.
- Concurrency and locking are not modelled.
- The local cache file is a snapshot or a miss. Reading and writing it (cache.go) and
  `saveCache` on close are not modelled.
- The times that mock.go fills with time.Now() are 0 in the fixture.
- The log-level setup of the fixture is not modelled.
- Remote IDs are opaque strings. A dishonest service that reuses IDs can break the
  lookup-after-create lemmas, so those lemmas assume an honest service.
- Cycles in the child graph are not ruled out. Reachability is defined by paths.
  Trees.BuildNodeMap: the recursive buildNodeMap of node/tree.go:146-154 and
  client/nodetree/nodetree.go:218-226 recurses without end, until the stack runs out, when a
  cycle is reachable from the root. The model computes the reachable set, which exists
  either way, so it says nothing about that non-termination.
- nil and empty lists are both the empty sequence.
- The sort.Strings calls on parent lists (node/sync.go:132-133, client/node/sync.go:106-107)
  do not reorder the lists in the model. The relinking counts and the multiset comparison of
  parent lists do not depend on order, but a stored parent list keeps the order it was sent in.
- CoarseSync.ClientNodeReconcileConsistent: holds for the corrected deletion only. As
  written, client/node/sync.go:96 unlinks nothing, and the agreement breaks
  (`CoarseSync.DeletionBreaksConsistencyAsWritten`, see Findings).
- Go's map iteration order in fetchFresh is a parameter (`order`). Every Fetch lemma holds
  for all orders.
- The status of the fetchFresh page responses is not checked by the source, so the model
  does not check it either.
- The requests of a refresh pass are not fed through the oracle. The feed is a parameter
  per pass, and `CoarseSync.RefreshRequest` states what the request carries.
- `refresh` in client/nodetree/nodetree.go uses ErrMustRefresh, which
  internal/constants/errors.go does not define. It is modelled as MustFetchFresh.
- The `CannotCreateRootNode` branch and the `len(parts) == 0` branch of MkdirAll cannot be
  reached, because strings.Split never returns an empty list. The model has no such branch.
- The walk of UploadFolder is a parameter: the sequence of entries filepath.Walk would
  visit, with their open results. Walk errors and walk order are not modelled.
- A zero-byte upload is an ordinary upload.
- Client.UploadEntry: uses the intended remote name `Client.RemoteName` rather than the
  name as written; the written one is `Client.RemoteNameAsWritten` (see Findings).
- Client.UploadResolves: stated only for an upload into a folder that already exists. A
  run that also creates folders is covered by `Mkdir.MkdirFromFinds`.
- Client.UploadEntry: `path.Dir(".")` edge cases of relative local paths are modelled
  through the written-out `Paths.Dir`, without a lemma of their own.
- IsFolder in client/nodetree/nodetree.go is modelled by `Nodes.IsDir`; the kinds
  agree.
- node/node.go (the node package's Node with AddChild, RemoveChild and update),
  node/upload.go, node/remove.go, node/cache.go and client/node/node.go are not part of this
  model. Their roles are filled by the intended AddChild, RemoveChild and update of
  client/nodetree/node.go (`Nodes.AddChild`, `Nodes.RemoveChild`, `Nodes.Update`): AddChild
  appends without removing duplicates, and RemoveChild drops the first occurrence. This
  stands behind Sync.Reconcile and its relinking, Mutations.RemoveNode and the MkdirAll of
  node/tree.go, and the node-package CreateFolder, Upload and Overwrite that Client.Upload
  and Client.UploadEntry call. The Findings row for node/sync.go:156 rests on the same
  appending AddChild. Fetch.LoadOrFetch takes a cache hit to bring a usable index. That is
  up to node/cache.go, since buildNodeMap (node/tree.go:146-154) has no caller in
  node/tree.go.
- Mutations.RemoveNode: models node/tree.go:37-52, with the RemoveChild of the line above,
  which is not the as-written one of client/nodetree/node.go. The RemoveNode of
  client/nodetree/nodetree.go:57-75 calls the RemoveChild of client/nodetree/node.go:101-116
  as written, whose effect per parent is `Trees.RemoveChildAsWritten`. There, removing a leaf
  that an indexed folder lists panics after the trash call has succeeded (see Findings).
- Fetch.LoadOrRefresh: the corrected start-up fixes the nil index map only. nt.Node is nil
  after New (client/nodetree/nodetree.go:113-117). A cache miss whose listing has no unnamed,
  parentless folder never sets it (lines 201-205), so buildNodeMap(nil) panics at line 221.
  The model keeps that panic, so "never panics" holds only when the listing names a root,
  or on a later pass (`Fetch.LoadOrRefreshLater`).
- Fetch.New: a cache snapshot is taken to hold a root. A cache file saved with a nil root is
  not modelled.
- Fetch.LoadOrFetch: node/tree.go's start-up can end with nt.Node nil, which `rooted` records.
  The lookups and MkdirAll then read nt.Node (node/find.go:22, 26; node/tree.go:82) and
  return nil or dereference it. The Trees, Mkdir and Client modules always start from a root
  and do not model that.
- Download, the command-line tools, the token source and account endpoints are not part
  of this model.

## Findings

| source | as written | input that shows it | evidently intended | confidence | as-written member | corrected member |
|---|---|---|---|---|---|---|
| client/nodetree/node.go:104 | the loop variable `n` shadows the receiver, so lines 106-110 edit the child's own list | folder p with children [c], c a leaf: removing c panics | the first occurrence of the child leaves the parent's list | not executed | Trees.RemoveChildAsWrittenPanics | Nodes.RemoveChild |
| node/sync.go:156 | the merged node is assigned through the payload, which the tree does not hold | new node N under P arrives, then arrives renamed: P lists N twice and N keeps the old name | the merge is committed onto the stored record | not executed | Sync.CommitThroughPayloadDuplicatesChild | Sync.CommitOntoRecordLinksOnce |
| client/node/sync.go:96, client/nodetree/nodetree.go:404 | RemoveChild is handed the payload, which no child list holds, so a deleted node stays in its parents' lists | folder A lists N, N is trashed: A still lists N, and client/node has dropped N from the index | the stored node leaves its parents' lists | not executed | CoarseSync.DanglingChildAsWritten | CoarseSync.CoarseDelete |
| client/node/sync.go:114, client/nodetree/nodetree.go:419 | the merged node is assigned through the payload, which the tree does not hold | N named a, a payload renames it to b: the record keeps a | the merge is committed onto the stored record | not executed | CoarseSync.RenameLostAsWritten | CoarseSync.CoarseReconcile |
| client/node/sync.go:106-108 | the payload's parents are compared with the merged parents | N stored under A, reported under B: no fresh fetch is asked for | the stored parents are compared with the merged ones | not executed | CoarseSync.MoveUnnoticedAsWritten | CoarseSync.CoarseReconcile |
| client/nodetree/nodetree.go:113-117, 379 | New never makes nodeMap, so on a cache miss the first refresh stores into a nil map | a cache miss whose first refresh answers with one node, as the request asks: New panics | the index exists before the first refresh, which then applies the nodes | not executed | Fetch.ColdStartPanicsAsWritten | Fetch.LoadOrRefresh |
| client/nodetree/nodetree.go:95 | start-up stops when the cache removal failed because the file is missing | a cache miss whose second refresh asks for a fresh start | a missing cache file is ignored, and other removal errors stop start-up | not executed | Fetch.MissingCacheEndsStartUpAsWritten | Fetch.LoadOrRefreshLater |
| client/upload.go:19-21 | the nil error of a lookup that succeeded is returned | uploading to a name that already exists | refuse with FileExists, as upload.go:26-34 does | not executed | Client.ExistingNameSucceedsSilentlyAsWritten | Client.Upload |
| upload.go:68-69 | the remote name joins the pieces after cutting at every occurrence of the local folder | local folder "d", file "d/d/a", remote base "/r" gives "/r/d//a" | remote base plus the path relative to the local folder, "/r/d/a" | not executed | Client.RepeatedFolderNameDoublesSeparator | Client.RemoteName |

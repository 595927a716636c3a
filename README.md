# ZooFile: files and directories on top of ZooKeeper

zookeeper-fuse shows a ZooKeeper tree as a filesystem. ZooKeeper does not tell
files from directories: every znode has a payload and may have children. The
`ZooFile` class (src/ZooFile.cpp) makes that distinction. It does so with three
parts:

- a process-wide classification cache. It holds the paths known to be files
  (`for_sure_files`), the paths known to be directories
  (`for_sure_directories`), and a one-way hybrid-mode flag.
- the `isDir` decision, which combines the flag, the cache, the node's children
  and the payload length.
- the `getContent` protocol. It reads into a 262144-byte buffer first. If the
  reported length is larger, it reads again into a buffer of that size, and it
  starts over if the length changed between the two reads.

The model has four modules:

- `ZooStore` (zoo_store.dfy) models the ZooKeeper session as a value. A `Store`
  is a map from path to `ZNode(content, children)` plus a link state. Each C
  client call (`zoo_exists`, `zoo_get_children`, `zoo_get`, `zoo_set`,
  `zoo_create`, `zoo_delete`) is a function that returns the client's result
  code. Results of the file layer are `Outcome`s: `Done(value)`, `StoreError(rc)`
  (the source throws `ZooFileException`), or `Incomplete` (see below).
- `Classification` (classification.dfy) has the cache. The `Cache` value and the
  functions `MarkFile`, `MarkDirectory`, `Evict` and `EnableHybrid` say what each
  operation does. `Replay` applies any sequence of them, and the lemmas about
  such sequences are here. The class `ProcessCache` holds the three globals and
  updates them in place through `MarkAsFile`, `MarkAsDirectory`,
  `EnableHybridMode` and `Remove`.
- `ContentRead` (content_read.dfy) has `getContent`, `getLength` and
  `getContentAndSetWatch`. An operation that makes several store calls gets
  `views: seq<Store>`, which is the store as each successive call finds it.
  Other writers act between calls. `ReadContent` is the protocol as a function.
  `GetContent` is the imperative version, with the retry written as a loop.
- `ZooFile` (zoo_file.dfy) has `exists`, `getChildren` (a copying loop),
  `hasChildren`, `isDir`, `setContent` and `create`, and the lemmas about
  classification.

## Model

| member | source | states |
|---|---|---|
| Classification.MarkFile | src/ZooFile.cpp:67-73 | markAsFile keeps the sets disjoint, leaves the path classified, changes nothing if the path is already a directory, and touches no other path and not the directory set |
| Classification.MarkDirectory | src/ZooFile.cpp:60-66 | markAsDirectory keeps the sets disjoint, leaves the path classified, changes nothing if the path is already a file, and touches no other path and not the file set |
| Classification.Evict | src/ZooFile.cpp:202-203 | the cache update of a successful remove: the path is in neither set afterwards, other paths and the flag are unchanged, and disjointness is kept |
| Classification.EnableHybrid | src/ZooFile.cpp:206-208 | enableHybridMode sets the flag and leaves both sets unchanged |
| Classification.ReplayKeepsDisjoint | src/ZooFile.cpp:60-73 | after any sequence of marks and successful removes, no path is both a file and a directory |
| Classification.ReplayIsLocal | src/ZooFile.cpp:60-208 | markAsDirectory and markAsFile (lines 60-73), a successful remove (lines 197-204) and enableHybridMode (lines 206-208) touch only their own path: a path that no mark or remove in the sequence names keeps its membership in both sets |
| Classification.FirstClassificationSticks | src/ZooFile.cpp:60-73 | once a path is classified, no sequence of marks changes its classification until it is removed |
| Classification.HybridStaysEnabled | src/ZooFile.cpp:206-208 | hybrid mode, once on, stays on after any sequence of operations |
| Classification.FirstMarkWins | src/ZooFile.cpp:60-73 | for any cache, markAsFile then markAsDirectory leaves the cache as markAsFile left it, and the reverse; for an unclassified path the first mark decides its kind |
| Classification.MarkIsIdempotent | src/ZooFile.cpp:60-73 | repeating a mark changes nothing |
| Classification.ProcessCache.constructor | src/ZooFile.cpp:29-32 | the globals start with both sets empty and hybrid mode off |
| Classification.ProcessCache.MarkAsDirectory | src/ZooFile.cpp:60-66 | updates the globals in place as MarkDirectory says, keeping them disjoint |
| Classification.ProcessCache.MarkAsFile | src/ZooFile.cpp:67-73 | updates the globals in place as MarkFile says, keeping them disjoint |
| Classification.ProcessCache.EnableHybridMode | src/ZooFile.cpp:206-208 | sets the global flag in place |
| Classification.ProcessCache.Remove | src/ZooFile.cpp:197-204 | succeeds exactly when the delete returns ZOK, that is, when the node exists without children on a live session. On success the node is gone and the path is evicted from both sets. On failure the delete's code is reported and the cache is unchanged |
| ContentRead.ReadContent | src/ZooFile.cpp:140-177 | the read protocol over the store states its successive calls see. Any error it returns is a non-ZOK code, and a payload is returned only after a successful first call. Its results are characterised by the lemmas below |
| ContentRead.GetContent | src/ZooFile.cpp:140-177 | the buffer-filling read with its retry returns what the ReadContent protocol gives for the same store states |
| ContentRead.FirstReadFits | src/ZooFile.cpp:143-175 | when the first read reports at most MAX_FILE_SIZE bytes, getContent returns exactly the node's payload, or the empty string when the payload is empty |
| ContentRead.SecondReadAgrees | src/ZooFile.cpp:155-168 | an oversized first read is followed by a full read, and if that read reports the same length, its bytes are the result |
| ContentRead.LengthChangeRestarts | src/ZooFile.cpp:163-166 | if the second read reports another length, getContent starts over from the first read |
| ContentRead.ReadErrorsAreFinal | src/ZooFile.cpp:148-162 | a non-ZOK result at the first or the second read ends getContent with that code |
| ContentRead.ReadIsSnapshot | src/ZooFile.cpp:140-177 | no torn reads: any payload getContent returns was the node's whole payload when one of its calls ran |
| ContentRead.ReadErrorIsObserved | src/ZooFile.cpp:148-162 | any error getContent returns is a non-ZOK code that one of its calls returned |
| ContentRead.SteadyRead | src/ZooFile.cpp:140-177 | on a store nobody writes to, getContent gives the node's payload if the node exists, and otherwise the failing call's code |
| ContentRead.SteadyStoreReadsPayload | src/ZooFile.cpp:140-177 | with two store states that are the same, getContent gives SteadyRead, for small and oversized payloads alike |
| ContentRead.ReadSettles | src/ZooFile.cpp:155-168 | when every store state holds the node on a live session, and the writers stop so that three unchanged store states follow, the retry ends with a payload |
| ContentRead.GrowingThenStable | src/ZooFile.cpp:155-168 | a writer who keeps changing the length of a payload larger than MAX_FILE_SIZE and then stops gets that final payload back from getContent: each length change restarts the read, and the read after the writer stops returns the stable payload |
| ContentRead.GetLength | src/ZooFile.cpp:193-195 | getLength succeeds exactly when getContent does and is then its length. Its errors are getContent's |
| ContentRead.GetContentAndSetWatchAsWritten | src/ZooFile.cpp:35-58 | where the copy fits the buffer, the single watched read succeeds exactly when the node exists and returns its whole payload, of the reported length. A failed call gives that call's error code |
| ContentRead.WatchReadOverruns | src/ZooFile.cpp:49-54 | a 262145-byte payload makes the watched read copy past its 262144-byte buffer |
| ContentRead.GetContentAndSetWatch | src/ZooFile.cpp:35-58 | the single bounded read succeeds exactly when the node exists. It returns a prefix of the payload, of length min(payload length, 262144), and has no second read. Otherwise it returns the call's error code |
| ContentRead.WatchReadMatchesGetContent | src/ZooFile.cpp:35-58 | for a payload that fits the buffer, the watched read and getContent return the same thing |
| ZooFile.Exists | src/ZooFile.cpp:85-94 | true exactly when the node exists, false exactly when it is missing, and an error carrying the session's code otherwise |
| ZooFile.Listing | src/ZooFile.cpp:119-133 | the children are the node's children in the server's order, and any failure is the call's error code |
| ZooFile.GetChildren | src/ZooFile.cpp:119-133 | the loop that copies the children returns exactly the listing |
| ZooFile.HasChildren | src/ZooFile.cpp:135-138 | true exactly when the node exists and has a child, false exactly when it exists with none, and an error otherwise |
| ZooFile.IsDir | src/ZooFile.cpp:96-117 | isDir reads the cache and never writes it. With hybrid mode on, "/" and cached paths are answered without the store. Any error it returns is a non-ZOK code from the listing or from getLength |
| ZooFile.IsDirPropagatesErrors | src/ZooFile.cpp:107-109 | when the listing fails, isDir fails with the listing's code in either mode. In hybrid mode, when an unclassified childless node's getLength fails, isDir fails with that code |
| ZooFile.SimpleModeIsHasChildren | src/ZooFile.cpp:97-99 | with hybrid mode off, isDir equals hasChildren whatever the cache holds |
| ZooFile.RootIsDirectory | src/ZooFile.cpp:101-103 | with hybrid mode on, "/" is a directory with no store call |
| ZooFile.CachedClassificationDecides | src/ZooFile.cpp:104-116 | with hybrid mode on and a path other than "/", a path in the file set gives false. Otherwise a path in the directory set gives true. Neither case makes a store call |
| ZooFile.UnclassifiedFallsBackToStore | src/ZooFile.cpp:104-113 | with hybrid mode on and an unclassified path, isDir is true when the path has children and otherwise true exactly when getLength is 0 |
| ZooFile.IsDirOnSteadyStore | src/ZooFile.cpp:96-117 | on a store nobody writes to, in which the node exists and the session is live, isDir gives the intended classification, in both modes. Without hybrid mode a node is a directory when it has children. With it, "/" is a directory, a cached kind decides (files first), and otherwise a node is a directory when it has children or an empty payload |
| ZooFile.SetContent | src/ZooFile.cpp:179-184 | setContent succeeds exactly when the node exists. It replaces the payload whatever its version, keeps the children and leaves every other node as it was. Otherwise it returns the code and leaves the store unchanged |
| ZooFile.Create | src/ZooFile.cpp:186-191 | create succeeds exactly when the node is missing, and adds it with no payload and no children. Otherwise it fails with the call's code: ZNODEEXISTS for an existing node, the session's code on a lost link. The store is unchanged on failure, and on success every other node is left as it was |
| ZooFile.SetThenGetContent | src/ZooFile.cpp:179-184 | what setContent writes, getContent reads back, including empty and oversized payloads |
| ZooFile.RemovedNodeDoesNotExist | src/ZooFile.cpp:197-198 | after a successful delete, exists is false |
| ZooFile.EmptyLeafBecomesFile | src/ZooFile.cpp:104-113 | in hybrid mode an empty, childless, unclassified node is a directory, and it becomes a file once it has a payload, since isDir cached nothing |
| ZooFile.MarkedDirectoryIgnoresPayload | src/ZooFile.cpp:104-115 | a path marked as a directory stays a directory in hybrid mode after a payload is written to it |

## Left out

- The ZooKeeper C client is modelled by the functions in `ZooStore`. These are an abstract store with result codes, not the library. A lost link stands for every non-ZOK failure other than a missing node, an existing node or a non-empty node.
- `zoo_get` is modelled as copying as much of the payload as fits the buffer and reporting the payload's whole length. `getContent`'s second read depends on this. The client library's actual `buffer_len` behaviour is not part of this model, and neither is the length -1 it reports for a node without data.
- Lengths are natural numbers. The `unsigned int`/`int` conversions of `contentLength` and `previousLength` (src/ZooFile.cpp:143, 156) do not matter for payloads under 2^31 bytes, and they are not modelled.
- ContentRead.ReadContent: the retry at src/ZooFile.cpp:165 has no bound. The model bounds it by the number of store states given, and when they run out the result is `Incomplete`. Termination is not proved and cannot be in general, since other writers decide it. ContentRead.ReadSettles covers the case where the writers stop.
- Watches (the `1` passed at src/ZooFile.cpp:44), ACLs (src/ZooFile.cpp:187), stack and heap buffers, `memset`, `delete`, and `deallocate_String_vector` are not modelled.
- The text of exception messages is not modelled. An error is the result code it carries.
- The model's `ZooCreate` does not check that the parent exists (ZooKeeper answers ZNONODE then), and the model's `ZooCreate`/`ZooDelete` do not update the parent's list of children. The store's tree structure belongs to ZooKeeper, not to this layer.
- Unsynchronised access to the global cache from several threads is not modelled. Each cache operation is one atomic step.
- The `ZooFile` constructor and destructor (src/ZooFile.cpp:75-83) only store the session handle and the path. A handle is modelled as the path argument plus the store states passed to each operation.

## Findings

| source | as written | input that shows it | evidently intended | confidence | as-written member | corrected member |
|---|---|---|---|---|---|---|
| src/ZooFile.cpp:50-51 | `getContentAndSetWatch` builds `string(content, contentLength)` from a 262144-byte stack buffer without checking `contentLength` against the buffer size | a node whose payload is 262145 bytes, with `zoo_get` reporting the whole length | copy at most what the buffer holds, as getContent's bounded branch does | medium, not executed. It holds if the client reports the whole length, which getContent's second read at lines 155-168 relies on | ContentRead.GetContentAndSetWatchAsWritten, ContentRead.WatchReadOverruns | ContentRead.GetContentAndSetWatch |

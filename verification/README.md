# ChronoOS: a verified model

ChronoOS is a set of small programs around integrity: bundles bound by a Merkle root, hash-chained
logs, an offline event queue with a receiver, signed updates, authenticated alerts, a service
supervisor, a hash function and an evolution simulation. This project models what those programs
compute and proves what they are for.

`dafny verify dfyconfig.toml` checks everything.

| file | models |
|---|---|
| `Hashing.dfy` | hash functions, collisions, hexadecimal |
| `CText.dfy`, `BarFields.dfy` | C strings as the programs read them: `fgets`, `strstr`, `strcspn`, `%d`, `atoi`, `strsep` |
| `Merkle.dfy` | Pin Forge and Pin Verify |
| `Ledger.dfy` | the hash-chained ledger |
| `Continuum.dfy` | the continuum log with its state file |
| `OfflineQueue.dfy` | the agent's queue and the receiver, as one protocol |
| `Orders.dfy` | the dictionary order of paths and versions |
| `Powers.dfy`, `BitWords.dfy`, `Recurrence.dfy`, `Padding.dfy`, `BlockFold.dfy`, `MayaHash.dfy` | MAYA-HASH 0.2, bit operations up |
| `CommunityAlert.dfy` | authenticated alert packets and the nonce log |
| `Evolution.dfy` | the evolution simulation |
| `Supervisor.dfy` | the service supervisor as init drives it |
| `Update.dfy` | signed updates and rollback |

How things are stated:

- A hash function is a parameter. An integrity theorem says: the data are equal, or two of the
  strings that were hashed in the case at hand are different and have one hash. Collisions are
  counted among those strings only, since among all strings there always are some.
- Signatures, message authentication codes and what `sscanf("%2x")` makes of two characters are
  parameters too. The protocols state what they trust of them as named predicates
  (`OfflineQueue.Unforged`, `CommunityAlert.Authentic`, `CommunityAlert.ScansHex`).
- Code that changes things in place is a class or works on arrays. Each method is proved equal to a
  function of the old state, and the theorems are about runs of those functions. What the functions
  compute is also written out in the source's own branches, bounds and constants, in the contracts of
  the methods or in lemmas with names like `AppendExactly` and `StepExactly`.
- Clocks, random numbers and the answers of `fork` and `waitpid` are parameters or arbitrary values.

Where the code does something other than it seems to promise, the model follows the code:

- Pin Forge does not tell leaves from inner nodes, so a path of 32 bytes can stand for a node
  (`Merkle.NodeSizedPathSplices`), and files past the 8192nd are not bound
  (`Merkle.FilesPastLimitUnbound`).
- Ledger verification escapes what is already escaped, so a ledger with a quote or a backslash in it
  is refused (`Ledger.RunAccepted`), and a field ending in a backslash is misread
  (`Ledger.FieldsReadBack`).
- Continuum verification does not look at what follows a seventh bar, a carriage return or a NUL on a
  line, nor for the last newline (`Continuum.TrailingTokensUnseen`, `Continuum.TextAfterStopUnseen`).
  It binds exactly the seven fields of every line (`Continuum.LogBindingExact`,
  `Continuum.UnseenExactly`), and the very bytes once every line is seven fields and a newline
  (`Continuum.WholeLogBinding`).  An event can be logged whose line is too long to verify
  (`Continuum.RunVerifies`).
- The agent's table has no AUTOINCREMENT, so maintenance can make an id be given again, and the event
  it is given to is lost (`OfflineQueue.FreshExactly`, `OfflineQueue.ReusedIdLosesEvent`,
  `OfflineQueue.ReuseIsReachable`), unless maintenance leaves the newest row
  (`OfflineQueue.GuardedUpload`, `OfflineQueue.GuardIsExact`).
- The alert channel looks at the first 4096 nonces only, where a replay gets through exactly when as
  many were recorded before the alert (`CommunityAlert.ReplayExactly`), and a packet
  with an empty field, or one over the receiver's limits, can be built but is never delivered
  (`CommunityAlert.RoundTrip`, `CommunityAlert.OversizeIsBuilt`).
- A full batch whose body is over the receiver's limit is sent again and again, and nothing behind it
  is ever uploaded (`OfflineQueue.OversizeBatchBlocks`).
- init leaves services running when a later one cannot be started (`Supervisor.Init`).
- An update whose manifest holds its version as a JSON number is applied and then blocks every other
  update, because the version read back is not text (`Update.NumberIsApplied`,
  `Update.NumberBlocksUpdates`).  Updates are applied as they should be exactly while the current
  release gives its version as text, which a publisher can see to (`Update.AppliesExactly`,
  `Update.QuotedRunsApply`).

## Model

| member | source | states |
|---|---|---|
| `Merkle.RootBinding` | core/chrono_pin_verify.c:1-7 | changed, added or removed files change the root: equal roots over directories of any two sizes mean the same paths and file hashes, or two hashed inputs collide (or one hashes to the all-zero root of the empty directory), when no path is 32 bytes long |
| `Merkle.NonEmptyBinding` | core/chrono_pin_forge.c:87-128 | with no condition on the paths: equal roots mean equal files, a collision, or a leaf input that is also an inner-node input |
| `Merkle.NodeBinding` | core/chrono_pin_forge.c:109-125 | two trees of any heights with one hash are the same tree, unless inputs collide or a leaf is taken for a node |
| `Merkle.NodeSizedPathSplices` | core/chrono_pin_forge.c:87-96 | why the condition is needed: under every hash, every directory of two or more files has the root of a directory of one other file, whose path is 32 bytes long, with nothing new hashed; that file is real exactly when its path bytes make a file name, with no NUL and no slash, and its content is then a string that was hashed |
| `Merkle.OrderIndependent` | core/chrono_pin_forge.c:83-85 | the root does not depend on the order in which the directory walk met the files |
| `Merkle.AscendingUnique` | core/chrono_pin_forge.c:83-85 | a list of distinct paths has one ascending order |
| `Orders.PrecedesPointwise` | chronoos-1.3/chronoos/identity.py:75 | the dictionary order over any strict total order of entries, pointwise: a common beginning, and then the end of the first or a smaller entry |
| `Merkle.SortedAscending` | core/chrono_pin_forge.c:103 | the sorted leaves ascend by path |
| `Merkle.PathLessPointwise` | core/chrono_pin_forge.c:83-85 | the order of the sort in plain terms: at some place the first path ends or has the smaller byte, both being alike before it |
| `Merkle.PairRoot` | core/chrono_pin_forge.c:98-128 | the root of two files is H(H(path f + hash f) + H(path g + hash g)) with f the file whose path comes first in that sense, in whatever order they were found |
| `Merkle.RootOverOrdered` | core/chrono_pin_forge.c:98-128 | the root of any files is the level root over H(path + hash) of the very files put in ascending byte order |
| `Merkle.RootOverPairs` | core/chrono_pin_forge.c:109-125 | the halving written out: node i of a level is H(node 2i + node 2i+1), the last node of an odd level being paired with itself |
| `Merkle.SmallRoots` | core/chrono_pin_forge.c:98-128 | the root of no file is 32 zero bytes, and that of one file the hash of its path and its hash |
| `Merkle.RootIsTree` | core/chrono_pin_forge.c:98-128 | the root is the root of the tree of height ceil(log2 n) over the sorted leaves, a part with no nodes standing for its neighbour |
| `Merkle.LevelRootIsTree` | core/chrono_pin_forge.c:109-126 | the halving loop, which duplicates the last node of an odd level, computes the recursive tree of height ceil(log2 n) |
| `Merkle.RoundsIsCeilLog2` | core/chrono_pin_forge.c:109-125 | the number of rounds is exactly ceil(log2 n) |
| `Merkle.FilesPastLimitUnbound` | core/chrono_pin_forge.c:71 | every file past the 8192nd is left out of the root, and up to there none is |
| `Merkle.PinVerifyExact` | core/chrono_pin_verify.c:151-180 | a bundle forged from files `a` is accepted over files `b` exactly when they are the same files and the signature is valid for the root, for non-colliding inputs |
| `Merkle.PinForge.Walk` | core/chrono_pin_forge.c:46-81 | the leaf array holds the first 8192 files met, in order |
| `Merkle.PinForge.SortLeaves` | core/chrono_pin_forge.c:83-85 | the leaf array is a permutation of itself, ascending by path: of any two, at some place the earlier path ends or has the smaller byte, both being alike before it |
| `Merkle.PinForge.HashLeaves` | core/chrono_pin_forge.c:106-107 | the first level holds the leaf hashes in order |
| `Merkle.PinForge.HalveLevel` | core/chrono_pin_forge.c:110-121 | one round: node `i` of the next level hashes nodes `2i` and `2i+1`, or `2i` twice at an odd end |
| `Merkle.PinForge.Climb` | core/chrono_pin_forge.c:109-127 | the while loop reaches the level root in the stated number of rounds |
| `Merkle.PinForge.ComputeMerkleRoot` | core/chrono_pin_forge.c:100-128 | the whole computation, the zero root of no files included, is the root the lemmas are about, and is the level root over H(path + hash) of the files in ascending byte order |
| `Hashing.UnhexUndoesHex` | core/chrono_pin_verify.c:106-116 | reading back what `bytes_to_hex` writes gives the bytes |
| `Hashing.HexDigits` | core/chrono_ledger.c:126-140 | what `%02x` prints: the digit of the high half of each byte, then that of the low half |
| `Ledger.LedgerBinding` | core/chrono_ledger.c:444-609 | two ledgers accepted with the same last stored hash hold the same entries (timestamp, event, details, previous_hash, hash) and so equally many, or two hashed records collide (or one hashes to the genesis value) |
| `Ledger.LedgerBindingExact` | core/chrono_ledger.c:444-609 | exactly what the verifier binds: against an accepted ledger, another is accepted with the same last stored hash if and only if all its lines hold entries and they are the same, or the hash is broken |
| `Ledger.AcceptedIsChained` | core/chrono_ledger.c:474-584 | the verdict depends on the entries alone: a ledger is accepted if and only if every line holds one and they form a chain |
| `Ledger.AcceptedBinding` | core/chrono_ledger.c:474-584 | the same, line by line, for any lists of lines the verifier accepts |
| `Ledger.RecordInjective` | core/chrono_ledger.c:236-277 | `build_record` is injective on everything the extractor can return |
| `Ledger.ExtractedIsReadable` | core/chrono_ledger.c:393-442 | what the extractor can return: text whose every quote is guarded by a backslash and that fits the buffer |
| `Ledger.NothingLooksLikeKey` | core/chrono_ledger.c:393-442 | no place inside a printed field, whatever quotes or key-like text it holds, looks like the start of another key |
| `Ledger.ReadLaid` | core/chrono_ledger.c:393-442 | all five fields of a laid-out line are found under the right key and returned, a trailing backslash taking the closing quote along |
| `Ledger.FieldsReadBack` | core/chrono_ledger.c:393-442 | on an appended line the right key is found for every field, and event and details come back as the escaped text exactly when the text does not end in a backslash |
| `Ledger.EscapeInjective` | core/chrono_ledger.c:67-96 | two texts never escape to the same text |
| `Ledger.EscapeOfClean` | core/chrono_ledger.c:67-96 | escaping changes nothing exactly when there is no quote and no backslash |
| `Ledger.EscapeTwice` | core/chrono_ledger.c:67-96 | escaping a second time lengthens every text that holds a quote or a backslash |
| `Ledger.BuildsRecord` | core/chrono_ledger.c:236-277 | every valid event fits the record buffer |
| `Ledger.AppendWritesLine` | core/chrono_ledger.c:279-391 | every valid append succeeds and adds one whole line chained to the last stored hash |
| `Ledger.RunIsLines` | core/chrono_ledger.c:189-391 | after every run of valid appends the file is the lines in order, each fits 4096 bytes, and `get_last_hash` finds the last stored hash |
| `Ledger.RunAccepted` | core/chrono_ledger.c:444-609 | a ledger built by valid appends is accepted exactly when no text in it holds a quote or a backslash, unless two hashed texts collide |
| `Ledger.LedgerFile.JsonEscape` | core/chrono_ledger.c:67-96 | the buffer loop writes the escaped text and a terminator, and fails exactly when it does not fit |
| `Ledger.LedgerFile.ReadInto` | core/chrono_ledger.c:393-442 | the extractor's loop returns the field, and fails exactly when there is none that fits |
| `Ledger.LedgerFile.GetLastHash` | core/chrono_ledger.c:189-234 | the scan returns the hash of the last line that has one |
| `Ledger.LedgerFile.Append` | core/chrono_ledger.c:279-391 | one append: the new file and the exit code, every error path leaving the file alone |
| `Ledger.LedgerFile.CheckLine` | core/chrono_ledger.c:474-584 | one turn of the verifier: broken exactly when a line does not parse, does not chain, or does not hash to its stored hash |
| `Ledger.LedgerFile.Verify` | core/chrono_ledger.c:444-609 | the verifier exits with 0 exactly when every line is good, and counts the lines |
| `Ledger.RefusedExactly` | core/chrono_ledger.c:44-65 | a text is refused exactly when it is empty, reaches the limit, or holds a character below the space |
| `Ledger.EscapeLaws` | core/chrono_ledger.c:67-96 | escaping character by character: a backslash goes before a quote and before a backslash, and nothing else changes |
| `Ledger.RecordIs` | core/chrono_ledger.c:236-277 | the hashed record is the JSON text with timestamp, event, details and previous_hash, in that order |
| `Ledger.LastHashExactly` | core/chrono_ledger.c:189-234 | the last stored hash is the 64 hex digits after the first marker of the last line that has them, or 64 zeros |
| `Ledger.AppendExactly` | core/chrono_ledger.c:279-391 | one append written out: code 2 for a refused text, 8 for a record of 4096 characters or more, and otherwise the record, its hash in hex and a newline at the end of the file |
| `Ledger.ExtractedExactly` | core/chrono_ledger.c:393-442 | a field is what stands between the first "key":" and the first quote after it that no backslash precedes, if it fits |
| `Ledger.EntryExactly` | core/chrono_ledger.c:474-523 | what is read off a buffer: all five fields, into buffers of 64, 257, 2049, 65 and 65 bytes, off a line with its newline |
| `Ledger.AcceptedExactly` | core/chrono_ledger.c:474-584 | the verdict line by line: each line holds an entry whose record hashes to its stored hash and whose previous_hash is the hash stored before it, the first one 64 zeros |
| `Continuum.LogBinding` | core/continuum/chrono_continuum.c:460-604 | two logs accepted with the same head hash have the same length, which follows from the hashed sequence number, and the same seven fields on every line, or two hashed texts collide |
| `Continuum.LogBindingExact` | core/continuum/chrono_continuum.c:460-604 | exactly what the verifier binds: against an accepted log, another is accepted with the same head if and only if it has the same seven fields on every line, or two hashed texts collide |
| `Continuum.UnseenExactly` | core/continuum/chrono_continuum.c:501-519 | exactly which changes to a line of seven fields and a newline go unseen: those that leave its text up to the first carriage return, newline or NUL as it is, or only make it go on after a seventh bar |
| `Continuum.WholeLogBinding` | core/continuum/chrono_continuum.c:491-519 | when the very bytes are bound: against an accepted log whose lines are each seven fields and a newline, another of such lines alone is accepted with the same head if and only if it is the same file, or two hashed texts collide |
| `Continuum.RunIsWhole` | core/continuum/chrono_continuum.c:393-411 | every log the program writes, its lines fitting, has only lines of seven fields and a newline |
| `Continuum.RunBytesBound` | core/continuum/chrono_continuum.c:460-604 | no other file is accepted with the same head in place of a log the program wrote, unless it has a line that is not seven fields and a newline, or two hashed texts collide |
| `Continuum.TrailingTokensUnseen` | core/continuum/chrono_continuum.c:503-519 | one input that goes unseen: anything more after a further bar |
| `Continuum.TextAfterStopUnseen` | core/continuum/chrono_continuum.c:501 | two more: anything after a carriage return or a NUL, and a missing newline |
| `Continuum.NewLineReadsBack` | core/continuum/chrono_continuum.c:400-458 | the verifier reads back the seven fields of an appended line and finds it good |
| `Continuum.StateReadsBack` | core/continuum/chrono_continuum.c:128-183 | `read_state_hash` finds the head in the state file that was written |
| `Continuum.EventKeepsAgreement` | core/continuum/chrono_continuum.c:332-458 | an event whose line fits keeps state file and log in agreement and adds one line |
| `Continuum.RunAgrees` | core/continuum/chrono_continuum.c:213-458 | after any run of completed calls whose lines fit, the state file holds the number of lines and the last hash (or GENESIS) and the log verifies |
| `Continuum.RunVerifies` | core/continuum/chrono_continuum.c:460-604 | the log of any run verifies exactly when every line appended fits the verifier's buffer |
| `Continuum.OversizeEventRejected` | core/continuum/chrono_continuum.c:332-458 | one event whose line does not fit is appended and makes the log fail |
| `Continuum.Store.Initialize` | core/continuum/chrono_continuum.c:213-330 | identity, log and state file are created where missing and kept where present |
| `Continuum.Store.CountEvents` | core/continuum/chrono_continuum.c:185-211 | the count is the number of buffers the log is read into |
| `Continuum.Store.LogEvent` | core/continuum/chrono_continuum.c:332-458 | one event: the files after the call and the code, an invalid field changing nothing |
| `Continuum.Store.Verify` | core/continuum/chrono_continuum.c:460-604 | accepted with count and head exactly when every line is good, refused otherwise |
| `Continuum.RefusedExactly` | core/continuum/chrono_continuum.c:105-126 | a field is refused exactly when it is empty or holds a bar, a newline or a carriage return |
| `Continuum.StateTextIs` | core/continuum/chrono_continuum.c:262-295 | the four lines of the state file |
| `Continuum.StateHashExactly` | core/continuum/chrono_continuum.c:128-183 | the head read is the value of the first head_hash line with 64 characters, or GENESIS |
| `Continuum.InitExactly` | core/continuum/chrono_continuum.c:213-330 | the files after initialization, written out |
| `Continuum.LoggedExactly` | core/continuum/chrono_continuum.c:332-458 | one event written out: -1 and nothing changed for a refused field; otherwise the seven fields between bars and a newline at the end of the log, hashed up to the sixth, and the state file with number and hash |
| `Continuum.VerifiedExactly` | core/continuum/chrono_continuum.c:491-590 | the verdict line by line: at line i the number i + 1, the hash printed on the line before (GENESIS at first), and a seventh field that is the hash of the six before it |
| `BarFields.TokensOfJoin` | core/continuum/chrono_continuum.c:503-519 | fields without bars, joined by bars, come apart into the same fields |
| `BarFields.JoinOfTokens` | core/continuum/chrono_continuum.c:503-519 | joining the tokens of a text gives the text |
| `CText.ChunksShape` | core/continuum/chrono_continuum.c:491 | what `fgets` reads: every buffer is non-empty and fits, a newline can only be its last byte, and only the end of the file cuts it short |
| `CText.AtoiExactly` | core/continuum/chrono_continuum.c:521-533 | `atoi`: white space, a sign, digits, and what follows is not looked at |
| `OfflineQueue.ExactlyOnceUpload` | chronoos-1.3/chronoos/agent.py:16-87 | over every interleaving of add, send, delivery of anything unforged any number of times and in any order, loss, reply, lost or late reply, maintenance, enrolment and revocation that never reuses a row id: each row marked synced is stored once with its content, the receiver holds nothing the node did not add, no row is lost, and synced rows precede pending ones even when replies come late |
| `OfflineQueue.GuardedUpload` | chronoos-1.3/chronoos/agent.py:78-81 | the same from a guard that can be checked before each deletion: the table is empty or its newest row is not among those to be deleted |
| `OfflineQueue.GuardedRun` | chronoos-1.3/chronoos/agent.py:16 | under that guard no run ever gives an id twice |
| `OfflineQueue.GuardIsExact` | chronoos-1.3/chronoos/agent.py:78-81 | the guard is exact: the row added after a deletion gets a new id if and only if the deletion left the newest row |
| `OfflineQueue.AgentInOrder` | chronoos-1.3/chronoos/agent.py:58-81 | at every reachable state of the agent, ids reused or not, rows ascend by id and all synced rows precede all pending ones |
| `OfflineQueue.RoundOfProtocol` | chronoos-1.3/chronoos/agent.py:58-76 | an accepted sync round of the agent is a send, a delivery and an answer of the protocol |
| `OfflineQueue.FreshExactly` | chronoos-1.3/chronoos/agent.py:16 | a new row's id is new exactly when the newest row is still in the table, and exactly when the receiver has nothing under it |
| `OfflineQueue.MaintenanceKeepsTop` | chronoos-1.3/chronoos/agent.py:78-81 | maintenance leaves the next id as it was exactly when it does not delete the newest row |
| `OfflineQueue.ReusedIdLosesEvent` | chronoos-1.3/chronoos/agent.py:16 | in every state where the next id was used before, a new event is accepted with 200, marked synced, and not stored |
| `OfflineQueue.ReuseIsReachable` | chronoos-1.3/chronoos/agent.py:78-81 | such states are reached: one event uploaded and then deleted as old |
| `OfflineQueue.Drains` | chronoos-1.3/chronoos/agent.py:58-76 | from every reachable state of the agent, with no new events, n pending rows are drained exactly from ceil(n/100) accepted rounds on, however many rounds are refused or fail and whatever maintenance does meanwhile |
| `OfflineQueue.OwnBatchAccepted` | chronoos-1.3/chronoos/server.py:77-97 | the node's own well-formed batch is accepted if and only if its body is not over 1,000,000 bytes |
| `OfflineQueue.OversizeBatchBlocks` | chronoos-1.3/chronoos/agent.py:58-76 | a full batch whose body is over that limit blocks the queue for good: every round sends it again, none is accepted, nothing pending is marked |
| `OfflineQueue.MarkingFirst` | chronoos-1.3/chronoos/agent.py:62-75 | one accepted round marks the first 100 pending rows, or all of them |
| `OfflineQueue.FirstPendingCovers` | chronoos-1.3/chronoos/agent.py:62 | a batch holds every pending row up to its last |
| `OfflineQueue.DeliverKeeps` | chronoos-1.3/chronoos/server.py:77-97 | delivering any request an honest key could have signed keeps the exactly-once invariant |
| `OfflineQueue.AnswerOnce` | chronoos-1.3/chronoos/agent.py:73-75 | a reply with 200, however late, marks only rows that are stored, and loses none |
| `OfflineQueue.StoreAllKeeps` | chronoos-1.3/chronoos/server.py:94-96 | `INSERT OR IGNORE` keeps every stored row, and ends with a row under each id sent |
| `OfflineQueue.Agent.AddEvent` | chronoos-1.3/chronoos/agent.py:19-23 | the row is appended with the next id, pending; the order of the table is kept |
| `OfflineQueue.Agent.Pending` | chronoos-1.3/chronoos/agent.py:25-27 | the counts of pending rows and of all rows |
| `OfflineQueue.Agent.Snapshot` | chronoos-1.3/chronoos/agent.py:62 | the batch is the first 100 pending rows in id order |
| `OfflineQueue.Agent.Finish` | chronoos-1.3/chronoos/agent.py:67-76 | status 200 marks the rows sent; a refused or failed round changes nothing |
| `OfflineQueue.Agent.SyncOnce` | chronoos-1.3/chronoos/agent.py:58-76 | one sync round is the agent's step the order and draining theorems are about, and tells how many rows it marked |
| `OfflineQueue.Agent.Maintenance` | chronoos-1.3/chronoos/agent.py:78-81 | exactly the synced rows older than the cutoff go, and are counted; the order of the table is kept |
| `OfflineQueue.Receiver.EnrollNode` | chronoos-1.3/chronoos/server.py:22-27 | a key is registered under its own id alone |
| `OfflineQueue.Receiver.RevokeNode` | chronoos-1.3/chronoos/server.py:29-32 | the node is taken out of the registry, or the call fails |
| `OfflineQueue.Receiver.DoPost` | chronoos-1.3/chronoos/server.py:77-97 | status, stored rows and their count for every request, in terms of the request alone: 200 only if every event of the batch is signed by the node that sends it; each refusal changes nothing |
| `OfflineQueue.PostExactly` | chronoos-1.3/chronoos/server.py:77-97 | 200 exactly when the length is in range, the node is registered, the body verifies under its key and parses as a batch of that node, and every event of it carries a signature that verifies over its own text; 413 and 401 exactly for the length and the node or its signature; only 200 changes anything |
| `OfflineQueue.EveryRowSigned` | chronoos-1.3/chronoos/server.py:22-97 | in every run, whoever forges what, each stored row carries a signature that verifies over its own text under a key that has the id of its node |
| `OfflineQueue.FirstIsStored` | chronoos-1.3/chronoos/server.py:94-96 | of the rows sent under an id that is not stored yet, the first is stored, as it was sent |
| `OfflineQueue.FirstPendingExactly` | chronoos-1.3/chronoos/agent.py:62 | what is sent: at most the number asked for, pending rows alone, and all of them with ids up to the last sent, or all of them |
| `OfflineQueue.BatchExactly` | chronoos-1.3/chronoos/agent.py:62 | a batch holds at most 100 rows, and every pending row unless it is full |
| `OfflineQueue.MarkedExactly` | chronoos-1.3/chronoos/agent.py:73-75 | marking changes the flag of the rows with those ids and nothing else |
| `OfflineQueue.PurgedExactly` | chronoos-1.3/chronoos/agent.py:78-81 | maintenance deletes exactly the rows that are synced and older than the cutoff |
| `MayaHash.ScheduleBijective` | sentinel/sovereign/identity/maya/core/maya_hash_02.py:116-135 | the message schedule is a bijection between 64-byte blocks and words 16 to 31: running the recurrence backwards recovers the block, and any sixteen words are the last of some block |
| `Recurrence.ExtendBijective` | sentinel/sovereign/identity/maya/core/maya_hash_02.py:122-133 | the same for any recurrence whose step can be undone in its oldest word |
| `MayaHash.UnmixUndoesMix` | sentinel/sovereign/identity/maya/core/maya_hash_02.py:123-133 | one step of the recurrence is undone by `rotr32` and subtraction |
| `BitWords.RotationsCancel` | sentinel/sovereign/identity/maya/core/maya_hash_02.py:80-87 | `rotr32` and `rotl32` undo each other at every rotation |
| `BitWords.OrOfParts` | sentinel/sovereign/identity/maya/core/maya_hash_02.py:80-87 | or-ing numbers that share no bit is adding them |
| `Padding.PadIsLeast` | sentinel/sovereign/identity/maya/core/maya_hash_02.py:102-113 | the padded length is the least multiple of 64 that is at least len + 9 |
| `Padding.PadUndone` | sentinel/sovereign/identity/maya/core/maya_hash_02.py:102-113 | the padding is undone by reading the length back, for every length below 2^61 |
| `Padding.PadMessage` | sentinel/sovereign/identity/maya/core/maya_hash_02.py:102-113 | the loop pads, and fails exactly when the bit length does not pack into eight bytes |
| `MayaHash.HashResumes` | sentinel/sovereign/identity/maya/core/maya_hash_02.py:197-206 | folding over pad(m) + y is resuming from the words of the hash of m over y, for whole blocks y |
| `BlockFold.FoldResumes` | sentinel/sovereign/identity/maya/core/maya_hash_02.py:200-204 | folding over more blocks resumes from the state reached |
| `MayaHash.HashCollision` | sentinel/sovereign/identity/maya/core/maya_hash_02.py:197-206 | two different messages with one hash show two compression inputs, among those used, with one output |
| `BlockFold.FoldCollision` | sentinel/sovereign/identity/maya/core/maya_hash_02.py:200-204 | the same for any fold whose lists have equal length or different last blocks |
| `MayaHash.BlockAt` | sentinel/sovereign/identity/maya/core/maya_hash_02.py:202-203 | the slices the loop takes are the blocks |
| `MayaHash.MessageSchedule` | sentinel/sovereign/identity/maya/core/maya_hash_02.py:116-135 | the loop computes the schedule, and fails exactly for a block that is not 64 bytes |
| `MayaHash.Permute` | sentinel/sovereign/identity/maya/core/maya_hash_02.py:182-189 | the inner loop moves word i to place (5 i + 1) mod 16 |
| `MayaHash.CompressBlock` | sentinel/sovereign/identity/maya/core/maya_hash_02.py:138-194 | the round loop over a list of words updated in place computes the compression, written out as 32 rounds, and fails exactly on wrong lengths |
| `MayaHash.StirInPlace` | sentinel/sovereign/identity/maya/core/maya_hash_02.py:149-180 | the four assignments of a round, in their order, over the list in place, each new word written out over the old ones; two of the four places can be the same |
| `MayaHash.MayaHash02` | sentinel/sovereign/identity/maya/core/maya_hash_02.py:197-206 | the block loop over the padded message computes the hash, written out slice by slice, and fails exactly from 2^61 bytes on |
| `MayaHash.FoldSlices` | sentinel/sovereign/identity/maya/core/maya_hash_02.py:200-204 | the offset loop compresses slice after slice of the padded message |
| `MayaHash.RoundsTellApart` | sentinel/sovereign/identity/maya/core/maya_hash_02.py:138-194 | from every state, two schedules that first differ at word r leave different states after round r |
| `MayaHash.StirIs` | sentinel/sovereign/identity/maya/core/maya_hash_02.py:143-180 | a round written out: the four places, the sum `u` of its six terms with the schedule word, `rr` with its rotations, and the four updates, word by word |
| `MayaHash.CompressIs` | sentinel/sovereign/identity/maya/core/maya_hash_02.py:138-194 | the compression written out: 32 such rounds over the schedule, each followed by moving word i to place (5 i + 1) mod 16, and the state added to what they leave |
| `MayaHash.ScheduleWords` | sentinel/sovereign/identity/maya/core/maya_hash_02.py:116-135 | the schedule word by word: the sixteen big-endian words of the block, and then each from those 16, 15, 7, 2 and 1 before it |
| `MayaHash.HashIs` | sentinel/sovereign/identity/maya/core/maya_hash_02.py:197-206 | the hash written out: the initial state, slice after slice of 64 bytes compressed into it, and the words big-endian |
| `MayaHash.F0Bits` | sentinel/sovereign/identity/maya/core/maya_hash_02.py:90-91 | bit by bit, `f0` chooses between y and z by x |
| `MayaHash.F1Bits` | sentinel/sovereign/identity/maya/core/maya_hash_02.py:94-95 | bit by bit, `f1` chooses between x and y by z |
| `MayaHash.F2Bits` | sentinel/sovereign/identity/maya/core/maya_hash_02.py:98-99 | bit by bit, `f2` is x against y without z |
| `Padding.PadBytes` | sentinel/sovereign/identity/maya/core/maya_hash_02.py:102-113 | the padded message byte by byte: the message, 0x80, zeros, and the bit length in eight bytes, the highest first |
| `BitWords.XorBits` | sentinel/sovereign/identity/maya/core/maya_hash_02.py:90-99 | the bits of an exclusive or |
| `BitWords.XorUndone` | sentinel/sovereign/identity/maya/core/maya_hash_02.py:177-179 | xor with the same word twice changes nothing |
| `BitWords.RotlIsSum` | sentinel/sovereign/identity/maya/core/maya_hash_02.py:85-87 | a rotation in arithmetic: the low part moved up plus the high part moved down |
| `CommunityAlert.RoundTrip` | core/community/chrono_community_alert.c:261-459 | every packet that is built, at an allowed peer inside the clock window: refused without a trace if a field is empty, delivered as sent if none is and all are under the receiver's limits, and otherwise refused after its nonce has been recorded |
| `CommunityAlert.BuiltExactly` | core/community/chrono_community_alert.c:261-324 | exactly what is built: texts without bars that leave room in the canonical buffer, no text having a limit of its own |
| `CommunityAlert.OversizeIsBuilt` | core/community/chrono_community_alert.c:437-449 | a message of 300 characters or more, up to 696 in all, is built, and at every receiver only uses up its nonce |
| `CommunityAlert.PacketFields` | core/community/chrono_community_alert.c:362-370 | the packet cuts apart into its seven fields exactly when none is empty |
| `CommunityAlert.PacketSizes` | core/community/chrono_community_alert.c:261-324 | texts under the receiver's limits are always built, and so are texts over them up to 696 characters in all |
| `CommunityAlert.ScanOfHex` | core/community/chrono_community_alert.c:101-139 | `hex_to_bytes` undoes `bytes_to_hex` |
| `CommunityAlert.AtMostOnce` | core/community/chrono_community_alert.c:169-218 | in every run with at most 4097 recorded nonces no two alerts delivered carry one nonce: repeated and reordered packets are delivered at most once |
| `CommunityAlert.ReplayExactly` | core/community/chrono_community_alert.c:169-192 | in every run, the nonce of an alert delivered once and received again at any later time, in a packet good by itself, is refused as a replay when fewer than 4096 nonces were recorded before the first delivery, and delivered again otherwise |
| `CommunityAlert.SeenExactly` | core/community/chrono_community_alert.c:169-192 | a nonce is recognised exactly when it is among the first 4096 recorded |
| `CommunityAlert.AcceptedNonceIsHex` | core/community/chrono_community_alert.c:326-459 | an accepted packet's nonce is 32 hex digits, so that its log line reads back |
| `CommunityAlert.RunRecords` | core/community/chrono_community_alert.c:194-218 | after any run the nonce log is the accepted nonces, one a line, in order |
| `CommunityAlert.Node.PeerAllowed` | core/community/chrono_community_alert.c:159-167 | the scan accepts exactly the configured addresses |
| `CommunityAlert.Node.LookUp` | core/community/chrono_community_alert.c:169-192 | the loop over the log file recognises a nonce as stated |
| `CommunityAlert.Node.ParseAndVerify` | core/community/chrono_community_alert.c:326-459 | the code for every packet, each of the error paths leaving the log alone, and the alert and log line on success |
| `CommunityAlert.DeliveredExactly` | core/community/chrono_community_alert.c:326-459 | code 0 exactly when the peer is configured, the packet is well-formed, its timestamp within 300 seconds, its nonce new, its code right and its texts under the limits; then the alert is the packet's own fields and the nonce is logged |
| `CommunityAlert.RefusedExactly` | core/community/chrono_community_alert.c:326-459 | each refusal in its order, an address that is not configured first, with its code and its log |
| `CommunityAlert.BuiltText` | core/community/chrono_community_alert.c:261-324 | the packet that is built, written out |
| `CommunityAlert.SeenInFirst` | core/community/chrono_community_alert.c:169-192 | a nonce is seen exactly when one of the first 4096 lines of the log is it up to its line end |
| `Evolution.TickKeeps` | core/entity/chrono_synthetic_life.c:141-160 | every tick keeps ids strictly ascending with parents' below, at most 500 entities, every survivor alive and at most 200 ticks old, and genes and cells between 0 and 1 |
| `Evolution.TickBalance` | core/entity/chrono_synthetic_life.c:141-160 | resources plus energy over a whole tick: what the cells regrow, at most 0.01 each, less the cost of stepping, less the half each breeder gives up, with 0.5 for each newborn, less what is lost with the dead |
| `Evolution.SteppingConserves` | core/entity/chrono_synthetic_life.c:78-96 | stepping the whole population conserves resources plus energy, up to exactly 0.015 a living entity and the move cost of those that moved |
| `Evolution.StepConserves` | core/entity/chrono_synthetic_life.c:78-96 | the same for one entity |
| `Evolution.LandsOnMaximum` | core/entity/chrono_synthetic_life.c:80-90 | an entity's cell after the search holds as much as any in its torus neighbourhood, and it moves only to a cell that holds more than its own |
| `Evolution.TakesItsShare` | core/entity/chrono_synthetic_life.c:91-92 | of the cell it lands on an entity takes the share its metabolism gene gives, and every other cell is left alone |
| `Evolution.WrapIsMod` | core/entity/chrono_synthetic_life.c:85-86 | C's remainder taken twice is the torus coordinate, negative offsets included |
| `Evolution.SteppingKeeps` | core/entity/chrono_synthetic_life.c:78-96 | stepping keeps cells and genes in range, changes no id or parent, and leaves alive only entities within their age limit |
| `Evolution.BreedingKeeps` | core/entity/chrono_synthetic_life.c:144-157 | breeding appends every newborn with the next ids, above all before it and above its parent's, and never exceeds 500 |
| `Evolution.LivingKeeps` | core/entity/chrono_synthetic_life.c:158-160 | compaction is the stable filter of the living and keeps the invariant |
| `Evolution.Simulation.constructor` | core/entity/chrono_synthetic_life.c:31-35 | the first world, cells up to 0.5, and forty founders with ids 1 to 40 and energy 0.5, satisfy the invariant |
| `Evolution.Simulation.Regenerate` | core/entity/chrono_synthetic_life.c:37-41 | each cell grows by 0.01 up to 1 |
| `Evolution.Simulation.RandomGenome` | core/entity/chrono_synthetic_life.c:43-49 | every random gene is between 0 and 1, the threshold from 0.5 on and the mutation rate between 0.01 and 0.1 |
| `Evolution.Simulation.Mutate` | core/entity/chrono_synthetic_life.c:51-59 | genes stay between 0 and 1 and each moves by at most 0.15 |
| `Evolution.Simulation.Crossover` | core/entity/chrono_synthetic_life.c:61-71 | each gene is one of the two parents' genes at its place |
| `Evolution.Simulation.Spawn` | core/entity/chrono_synthetic_life.c:73-76 | the newborn's fields and the id counter |
| `Evolution.Simulation.Search` | core/entity/chrono_synthetic_life.c:80-88 | the double loop finds the spot the maximum lemma is about |
| `Evolution.Simulation.Step` | core/entity/chrono_synthetic_life.c:78-96 | one entity's step in place: its new state and the one cell changed |
| `Evolution.Simulation.StepEveryone` | core/entity/chrono_synthetic_life.c:143 | the loop over the array, each entity seeing the cells as left by those before it |
| `Evolution.Simulation.CollectBirths` | core/entity/chrono_synthetic_life.c:144-156 | the breeders in order while there is room, each halved, each with one child of itself and a living partner |
| `Evolution.Simulation.AppendBirths` | core/entity/chrono_synthetic_life.c:157 | every newborn is appended: the second bound never cuts |
| `Evolution.Simulation.Compact` | core/entity/chrono_synthetic_life.c:158-160 | the in-place compaction leaves the living in their order |
| `Evolution.Simulation.Tick` | core/entity/chrono_synthetic_life.c:141-160 | one tick is regrowth, stepping, breeding and compaction, and keeps the invariant |
| `Evolution.Simulation.Run` | core/entity/chrono_synthetic_life.c:141-169 | every run is a history of ticks, as many as asked for or up to the first that leaves nobody, and ends with the invariant |
| `Evolution.StepExactly` | core/entity/chrono_synthetic_life.c:78-96 | a step written out: the first richest cell in the order of the scan, the move cost, the share eaten, the 0.015, the age, and death at no energy or past 50 + 150 times the lifespan gene |
| `Evolution.SteppingExactly` | core/entity/chrono_synthetic_life.c:143 | each entity steps over the cells as the one before it left them |
| `Evolution.BreedersExactly` | core/entity/chrono_synthetic_life.c:144-145 | who breeds: those alive with energy at their threshold, in order, and none is left out unless there is no room |
| `Evolution.LivingExactly` | core/entity/chrono_synthetic_life.c:158-160 | compaction keeps the places of the living, in their order |
| `Evolution.TickExactly` | core/entity/chrono_synthetic_life.c:141-160 | a whole tick written out: regrowth by 0.01 up to 1, the steps in turn, the breeders halved and their children appended up to 500 in all, the dead left out |
| `Supervisor.AfterKeeps` | init/supervisor/service_supervisor.c:47-158 | over every run RUNNING holds exactly when the process id is positive, and the restart count never exceeds its limit |
| `Supervisor.RetiredExactly` | init/supervisor/service_supervisor.c:255-315 | an "on-failure" service whose process always exits is retired, FAILED with policy "none", exactly after `max_restarts + 1` turns, whatever fork answers, having been restarted once a turn until then |
| `Supervisor.PatienceFalls` | init/supervisor/service_supervisor.c:255-315 | the measure: a turn that finds an "on-failure" service down costs it exactly one unit, any other turn nothing, and at zero it is retired |
| `Supervisor.StaysDown` | init/supervisor/service_supervisor.c:255-274 | a service that is down under another policy, retired ones included, never changes again |
| `Supervisor.OtherPolicyNeverRestarts` | init/supervisor/service_supervisor.c:266-274 | under any policy but "on-failure" a service is never restarted, and runs on exactly while its process is never found gone |
| `Supervisor.FinalOk` | init/src/main.c:155-173 | after shutdown no service is RUNNING or holds a process |
| `Supervisor.Supervisor.constructor` | init/supervisor/service_supervisor.c:26-45 | every registered service starts out STOPPED, with no process and no restart |
| `Supervisor.Supervisor.Start` | init/supervisor/service_supervisor.c:47-96 | one start in place, an index out of range included; each call that forks is counted |
| `Supervisor.Supervisor.Poll` | init/supervisor/service_supervisor.c:98-158 | the loop over the array polls each RUNNING service once: one whose process is gone is FAILED with no process, the rest stay as they are |
| `Supervisor.Supervisor.Stop` | init/supervisor/service_supervisor.c:160-191 | one stop in place: STOPPED, with no process, its restarts kept |
| `Supervisor.Supervisor.Restart` | init/supervisor/service_supervisor.c:193-227 | one restart in place, forking exactly when it counts |
| `Supervisor.Supervisor.HandleFailures` | init/supervisor/service_supervisor.c:255-315 | each failed "on-failure" service is restarted or retired, the rest left alone |
| `Supervisor.Supervisor.StartAll` | init/src/main.c:105-119 | the start loop succeeds exactly when every fork does, and otherwise ends at the first that fails |
| `Supervisor.Supervisor.Supervise` | init/src/main.c:129-153 | after any number of turns each service is where its own turns lead it, and has been forked once a restart |
| `Supervisor.Supervisor.StopAll` | init/src/main.c:161-173 | every service that holds a process is stopped |
| `Supervisor.Init` | init/src/main.c:105-183 | a whole run: status 0 exactly when all services start, each then forked between once and 1 + max_restarts times and left with no process; on a failed start the services before it stay RUNNING |
| `Supervisor.TurnExactly` | init/src/main.c:129-153 | a turn written out field by field: a service found gone is FAILED without a process, and one that is FAILED by then is restarted within its limit or retired |
| `Supervisor.AfterExactly` | init/src/main.c:129-153 | a run is its turns, one after another |
| `Update.RunKeeps` | chronoos-1.3/chronoos/identity.py:81-114 | over every run of trust, apply and rollback the active release and the rollback target exist, each under its own version, and the target's version is below the active one's |
| `Update.ApplyRaises` | chronoos-1.3/chronoos/identity.py:94-104 | a successful apply strictly raises the version |
| `Update.NothingInUseIsReplaced` | chronoos-1.3/chronoos/identity.py:97-99 | no operation deletes or replaces the active release or the rollback target |
| `Update.RollbackUndoesApply` | chronoos-1.3/chronoos/identity.py:107-114 | rollback right after apply restores the very target that was current, and a second one fails and changes nothing |
| `Update.RollbackLowers` | chronoos-1.3/chronoos/identity.py:107-114 | a rollback that is not refused strictly lowers the version |
| `Update.NeverBelowBase` | chronoos-1.3/chronoos/identity.py:77-79 | in every run the version never drops below the program's own |
| `Update.VersionsClimb` | chronoos-1.3/chronoos/identity.py:94-96 | without a rollback the version never drops |
| `Update.ReplayRefused` | chronoos-1.3/chronoos/identity.py:94-96 | a package once applied is refused from then on until there is a rollback |
| `Update.NumberBlocksUpdates` | chronoos-1.3/chronoos/identity.py:77-96 | after a release whose manifest gives the version as a number no update at all is applied until there is a rollback |
| `Update.AppliesExactly` | chronoos-1.3/chronoos/identity.py:77-96 | the exact condition: a package that is signed, safe, well-formed and newer is applied if and only if the current release gives its version as text, and nothing else ever is |
| `Update.QuotedRunsApply` | chronoos-1.3/chronoos/identity.py:77-96 | while every package applied in a run gives its version as text, exactly the packages that are signed, safe, well-formed and newer are applied |
| `Update.NumberIsApplied` | chronoos-1.3/chronoos/identity.py:89-96 | the input that shows it: over 1.3.0-dev a package with the number 2 as its version is applied, and a good one with version 3 is then refused |
| `Update.EveryReleaseSigned` | chronoos-1.3/chronoos/identity.py:66-73 | in every run every release in the store was signed under a key that had been trusted |
| `Update.LessTotal` | chronoos-1.3/chronoos/identity.py:75 | the order of version tuples is total and strict |
| `Update.LessTransitive` | chronoos-1.3/chronoos/identity.py:75 | and transitive |
| `Update.LessPointwise` | chronoos-1.3/chronoos/identity.py:75 | the order of version tuples in plain terms: at some place the first ends or has the smaller number, both being alike before it |
| `Update.VerOfDotted` | chronoos-1.3/chronoos/identity.py:75 | the tuple of a dotted version is its numbers |
| `Update.VersionTextExactly` | chronoos-1.3/chronoos/identity.py:89-93 | what is taken for a version: digits with single dots between them |
| `Update.JudgedExactly` | chronoos-1.3/chronoos/identity.py:83-96 | a signed archive passes exactly when every member is relative, plain and without `..`, its manifest gives a numeric version, the current release gives its version as text, and the new version is greater, place by place |
| `Update.SuffixIgnored` | chronoos-1.3/chronoos/identity.py:75 | what follows the first dash of a version does not count |
| `Update.Updater.TrustPublisher` | chronoos-1.3/chronoos/identity.py:55-58 | only 64 lower-case hex digits are taken for a key, and the version in use stays |
| `Update.Updater.VerifyFile` | chronoos-1.3/chronoos/identity.py:66-73 | the four refusals in order; what passes has a signature good under the trusted key |
| `Update.Updater.Judge` | chronoos-1.3/chronoos/identity.py:83-96 | the refusals on a signed archive, in order; what passes is not a release in use |
| `Update.Updater.Install` | chronoos-1.3/chronoos/identity.py:97-104 | the release replaced, the links moved, the earlier one remembered |
| `Update.Updater.Update` | chronoos-1.3/chronoos/identity.py:81-105 | the whole apply: it raises the version or changes nothing, and keeps the active release and the rollback target |
| `Update.Updater.Revert` | chronoos-1.3/chronoos/identity.py:107-114 | the whole rollback: it lowers the version or changes nothing, and deletes no release |
| `Update.StepPromises` | chronoos-1.3/chronoos/identity.py:55-114 | what every operation promises at once: the store stays sound, what is in use is kept, a refusal changes nothing, versions move the right way |

## Left out

- Merkle.RootBinding: holds for directories without a path of exactly 32 bytes, because leaves and inner nodes are hashed alike; Merkle.NonEmptyBinding is the statement without that condition.
- Merkle.PinForge.SortLeaves: `qsort` is modelled by its result on distinct paths, not by its exchanges, since the C library's algorithm is not in the repository.
- Merkle.PinForge.Walk: the directory walk is any list of files; which files are skipped by name, and paths cut at the buffer size, are not modelled.
- Ledger.LedgerFile.Append: the file lock and write errors are not modelled; a call completes or fails before writing.
- Ledger.RunAccepted: the direction from acceptance to clean text is up to a collision of the hash, because equal hashes of different records would be accepted too.
- Continuum.RunAgrees: for runs of fewer than 2^31 calls, because the sequence number is a C int.
- Continuum.LogBinding: `atoi` of a number past the C int, which C leaves undefined, is taken as the number.
- Continuum.Store.LogEvent: a crash between writing the log and writing the state file is not modelled, because the code has no recovery from it.
- OfflineQueue.ExactlyOnceUpload: for runs that never give an id twice; OfflineQueue.GuardedUpload has a guard on maintenance instead, and OfflineQueue.GuardIsExact says that nothing less will do.
- OfflineQueue.Receiver.DoPost: the transport, its certificate pin and the request size limit are one parameter; JSON values of other types than the node sends are malformed batches.
- CommunityAlert.AtMostOnce: for runs with at most 4097 recorded nonces; CommunityAlert.ReplayExactly says what happens past that.
- CommunityAlert.Node.ParseAndVerify: `strtoll`-style overflow past 64 bits is refused as out of range, and what `sscanf("%2x")` makes of characters that are no hex digits is left open.
- Evolution.TickKeeps: floating-point numbers are reals, so rounding is not modelled, and `rand()` is any value in range.
- Evolution.Simulation.Run: the metrics and the CSV log, which only read the population, are left out.
- Supervisor.Init: `exec` in the child, signals and the sleep between turns are left out; the number of turns before shutdown is arbitrary, and the registry is taken as loaded, with at most 32 services and no negative limit.
- Update.Updater.Update: unpacking is one step, the manifest on disk is the one that was read, digits are ASCII, and a crash between the two link files is not modelled, because the code has no recovery from it.
- SHA-256, HMAC, Ed25519, AES-GCM, PBKDF2 and TLS themselves: library calls.
- Reporting to the log and the queue (`_report`, `log_event`), console output and status commands: they change nothing the models depend on.
- The service registry's parser, peer configuration, key loading and directory set-up: straight-line input and output.
- The industrial, assurance, antenna, vertical, cnem, cumbia, isp and eagle modules, the CAN, IoT, LPR and access tools, panels, GIS and 5G scripts: single decisions read off one branch, hardware or user interface.
- `security/ledger/ledger_writer.py` and `maya_hash.py`: weaker repeats of what is covered.

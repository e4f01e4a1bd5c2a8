# Verified models of CodeCompass engines

This project models several small engines of CodeCompass in Dafny and proves what they are for. Each module follows one source file or one component; the cited lines are those of the repository. `dafny verify dfyconfig.toml` checks everything (Dafny 4.11).

- **Incremental re-parse** (`CppParser`, `CleanupOrder`, `CleanupDatabase`): the pass that marks changed files along reversed `#include` edges, the peeling of the inclusion graph into cleanup layers, and the cleanup of the layers one after the other on a thread pool. The main result combines all three: in every interleaving a file is cleaned up only after every marked file that includes it, except inside the layer of cyclic leftovers.
- **Thread pool** (`ThreadPool`): the mutex and condition-variable job queue with its unlocked exit test, as a transition system of one client and any number of workers.
- **Nesting metric** (`NestedScope`, `ClangAstVisitor`, `BumpyRoad`, `SyntaxPaths`): the stack of statement scopes, the traversal that counts on it, what the numbers mean, and which functions are recorded.
- **Digests** (`Words`, `BlockHash`, `Md5`, `MongooseMd5`, `JsMd5`, `Sha1`, `MongooseSha1`): RFC 1321 and RFC 3174 on 32-bit words as bit strings, the streaming C code and the one-shot JavaScript code.
- **WebSocket frames** (`WebSocket`, `WebSocketConnection`): the format of RFC 6455, the in-place reader and the writer.
- **Smaller pieces of mongoose** (`MatchPrefix`, `UrlCoding`, `ConnectionList`): the glob matcher, percent-encoding, and the intrusive list of connections.
- **Thrift JSON writer** (`ThriftText`, `ThriftProtocol`, `ThriftJson`, `ThriftMeaning`): begin and end calls on two stacks against a recursive printer, what the text is as JSON, and which value the JSON means.
- **State that must agree with something simpler** (`SourceManager`, `Logger`, `GraphIds`, `Bfs`).

`Wrappers` and `Sequences` hold what several modules share: optional values, concatenation, mapping to pieces, and cutting complete items off the front of a buffer.

Conventions:

- Code that changes state is a class or a method proved against a specification function; the lemmas are about these functions. Map iteration order, where the code does not depend on it, is an arbitrary choice.
- The database is a sequence of inclusion rows, or maps of rows. Paths stand for file ids in the include graph: the ids are hashes of the paths, taken to be one-to-one and never zero.
- `ThreadPool` makes every access to shared memory a step of its own. Notifications are not modelled one by one: a sleeping worker may wake at any time, as the one-second time-out lets it.
- In the buffering proofs of the digests the block function is an unknown function that is only known to agree with the one of the RFC.

## Where the code may surprise

- The sources of build actions that vanished are marked after the inclusion pass, without their includers. When an includer is not marked, `std::map::at` throws `std::out_of_range`, for which `createCleanupOrder` has no handler: `CleanupOrder.MarkAndOrder` gives the exact condition, `CleanupOrder.VanishedThrows` a run. With several inputs an action vanishes as soon as one of them lacks its command.
- The parameter `level_` of `bfsBuild`, which its documentation does not mention, is not a depth. It counts nodes taken from the queue, starting at 1 after the first one, so that 0 means no limit, and the start node is taken twice when it lies on a cycle, with its out-edges created twice. `Bfs.BfsBuild` states both.
- `mg_url_encode` leaves NUL bytes as they are, because `strchr` finds the terminator of its list; decoding still gives them back.
- The reader of WebSocket frames shifts the upper half of a 64-bit length out of an int: `WebSocket.LengthReadIff`, with `WebSocket.LongFrameMisread` as an example and `WebSocket.ContentLengthIff` for what the handler is told.
- In the JavaScript MD5 the high word of the length comes from a 32-bit shift: `JsMd5.LengthFitsIff`, with `JsMd5.LengthTooLong` as an example. Surrogates are encoded one by one: `JsMd5.Utf8Exactly`, and `JsMd5.Utf8ReadBack` for what becomes of them.
- `SHA1Update` adds its position in the block to the length in 32 bits: `MongooseSha1.LengthWraps` says for which lengths it then takes the wrong branch.
- A file whose path has the same hash as that of another cached file never gets a row, and so is gone after a reload: `SourceManager.Manager.PersistFiles`, `SourceManager.Manager.PersistAndReload`.
- `mg_url_encode` leaves one byte of the old buffer in the text for each character that it skips: `UrlCoding.UrlEncode`.
- An `Array.join` of the Thrift writer prints null as nothing, while a null in a struct field or a map prints as `null`; the printer does the same. A message with a null list element is therefore not JSON: `ThriftJson.JsonExactly` says when it is.

## Model

| member | source | states |
|---|---|---|
| ThreadPool.JobsConserved | util/include/util/threadpool.h:139-213 | in every state of every interleaving the enqueued jobs, counted with multiplicity, are the queued ones, those in a worker's hands and the finished ones; jobs leave the queue in the order they entered it; at most one thread holds the mutex |
| ThreadPool.WaitRunsEveryJobOnce | util/include/util/threadpool.h:153-213 | when wait() has returned, every enqueued job was started and finished exactly as often as it was enqueued if and only if the pool has a worker or was given nothing; with a worker the queue is empty |
| ThreadPool.SwappedReadsLoseAJob | util/include/util/threadpool.h:175-176 | were the queue read before _die, a run would exist in which wait() returns while a job is still queued: the order of the two unlocked reads matters |
| ThreadPool.RunInv | util/include/util/threadpool.h:139-213 | the invariant (mutex ownership, when a worker may be past each half of the exit test, job counts) holds in every reachable state |
| ThreadPool.NextKeepsInv | util/include/util/threadpool.h:139-213 | every step of the client or of any worker keeps the invariant |
| ThreadPool.ReturnedAllDone | util/include/util/threadpool.h:153-166 | a state in which wait() has returned has an empty queue and every job done |
| ThreadPool.WaitNeverStuck | util/include/util/threadpool.h:153-213 | as long as wait() has not returned, some thread can take a step other than going back to sleep |
| ThreadPool.WaitStepsCountDown | util/include/util/threadpool.h:153-213 | after wait() has begun every such step makes a measure smaller, so wait() returns once the threads are scheduled |
| CppParser.Parser.MarkByInclusion | plugins/cpp/parser/src/cppparser.cpp:714-730 | terminates on cyclic includes; adds, as MODIFIED, exactly includers reached through files not marked before, leaves old entries alone, and afterwards all includers of the file and of each added file are marked |
| CppParser.Parser.MarkIncluders | plugins/cpp/parser/src/cppparser.cpp:451-479 | the inclusion pass: its keys are exactly the old ones and what is reached from the MODIFIED and DELETED ones, all includers of which are keys afterwards; new entries are MODIFIED, old ones unchanged; with ADDED and ACTION_CHANGED files only nothing changes |
| CleanupOrder.PassMarksTransitiveIncluders | plugins/cpp/parser/src/cppparser.cpp:451-479 | when all changed files are MODIFIED or DELETED, the keys afterwards are exactly the changed files and all their transitive includers, and the set is closed under includers |
| CleanupOrder.PassCloses | plugins/cpp/parser/src/cppparser.cpp:451-479 | from any statuses, also those no code enters before the pass, the final key set is closed under includers if and only if every includer of a file that is no starting point is a key or is reached anyway |
| CppParser.Parser.MarkActionChanged | plugins/cpp/parser/src/cppparser.cpp:481-529 | exactly the sources of build actions that are missing from one of the inputs are entered, as ACTION_CHANGED unless they have a status already |
| CleanupOrder.EnteredClosedIff | plugins/cpp/parser/src/cppparser.cpp:518-524 | sources entered after the pass keep the marked files closed under includers if and only if each of their includers is marked or entered too |
| CppParser.Parser.BuildEdges | plugins/cpp/parser/src/cppparser.cpp:364-393 | the lookups of includers succeed if and only if the marked set is closed under includers; then the edges are exactly the inclusions of marked files |
| CppParser.Parser.CreateCleanupOrder | plugins/cpp/parser/src/cppparser.cpp:352-446 | terminates; yields an order if and only if the marked set is closed under includers, and its layers are the successive sets of files without remaining includer, all of the rest when there is none |
| CppParser.Parser.PeelLevel | plugins/cpp/parser/src/cppparser.cpp:406-441 | one round of the loop: the level is the set of sources, or all that is left when there is none, and graph and map lose exactly that level |
| CppParser.Parser.PeelSources | plugins/cpp/parser/src/cppparser.cpp:410-416 | the vertices of in-degree zero are exactly the files no remaining file includes |
| CppParser.Parser.EraseLevel | plugins/cpp/parser/src/cppparser.cpp:418-422 | clearing out-edges and erasing map entries leaves exactly the inclusions by the remaining files |
| CppParser.InDegree | plugins/cpp/parser/src/cppparser.cpp:412 | in-degree zero means that no edge enters |
| CppParser.ClearOutEdges | plugins/cpp/parser/src/cppparser.cpp:420 | exactly the edges that leave the vertex are gone |
| CleanupOrder.LayersPartition | plugins/cpp/parser/src/cppparser.cpp:404-446 | the layers partition the marked files; none is empty |
| CleanupOrder.MarkAndOrder | plugins/cpp/parser/src/cppparser.cpp:449-538 | from MODIFIED and DELETED files to the layers: the marked files are those, their transitive includers and the sources of vanished build actions; the layers exist if and only if each includer of such a source is marked, and otherwise the lookup of one that is not throws |
| CleanupOrder.VanishedThrows | plugins/cpp/parser/src/cppparser.cpp:375-387 | a run in which it throws: one source has lost its build action, and the file that includes it is unchanged |
| CleanupOrder.LayerIsLongestChain | plugins/cpp/parser/src/cppparser.cpp:404-446 | the index of a layer that is not the leftover is the length of the longest inclusion chain ending at each of its files |
| CleanupOrder.LeftoverIsBelowCycles | plugins/cpp/parser/src/cppparser.cpp:426-440 | a layer is the leftover layer if and only if its files are on, or transitively included from, an inclusion cycle |
| CleanupOrder.LeftoverIffCycle | plugins/cpp/parser/src/cppparser.cpp:426-440 | there is a leftover layer if and only if there is an inclusion cycle among the marked files |
| CleanupOrder.LeftoverIsLast | plugins/cpp/parser/src/cppparser.cpp:426-440 | only the last layer can be the leftover |
| CleanupOrder.IncludersComeFirst | plugins/cpp/parser/src/cppparser.cpp:404-446 | a file outside the leftover lies in a later layer than every marked file that includes it |
| CleanupDatabase.IncludersCleanedFirst | plugins/cpp/parser/src/cppparser.cpp:581-602 | in every interleaving, for every positive number of threads, the cleanup of a file outside the leftover starts only after the cleanup of every marked file that includes it has finished |
| CleanupDatabase.EveryFileCleanedOnce | plugins/cpp/parser/src/cppparser.cpp:581-602 | after the last layer the cleanup job of every marked file has been started once and finished once, and no other job has |
| CleanupDatabase.NeverStuck | plugins/cpp/parser/src/cppparser.cpp:586-602 | as long as a layer is not finished, some step brings its end closer, in every reachable state |
| CleanupDatabase.CleanupCompletes | plugins/cpp/parser/src/cppparser.cpp:586-602 | every run can be continued until all layers are finished |
| CleanupDatabase.RunInv | plugins/cpp/parser/src/cppparser.cpp:581-602 | in every reachable state the finished layers ran once and no job started before all earlier layers were done |
| CleanupDatabase.PooledKeepsInv | plugins/cpp/parser/src/cppparser.cpp:592-598 | a step of the pool of the current layer keeps the barrier |
| CleanupDatabase.SynchronousKeepsInv | util/include/util/threadpool.h:66-93 | so does a step of the queue for one thread, which runs jobs inside enqueue |
| CleanupDatabase.AdvanceKeepsInv | plugins/cpp/parser/src/cppparser.cpp:598 | so does the return of wait() and the next pool, which make_thread_pool chooses |
| CleanupDatabase.PoolOfRun | util/include/util/threadpool.h:265-276 | in every state of every run one thread means jobs run inside enqueue, more threads mean as many workers |
| CleanupDatabase.OneByOne | util/include/util/threadpool.h:66-93 | with one thread the cleanup jobs start and finish one after the other, in the order of the layers |
| CleanupDatabase.JobsNumbered | plugins/cpp/parser/src/cppparser.cpp:586-598 | the jobs are numbered from 1 on through all layers, without gaps |
| NestedScope.StatementStack.TopValid | plugins/cpp/parser/src/nestedscope.cpp:8-14 | terminates at the topmost scope that is not invalid; its depth is the depth of the top scope, and it is configured whenever the top is |
| NestedScope.StatementScope.constructor | plugins/cpp/parser/src/nestedscope.cpp:40-61 | configures the scope below if it is not, takes over its depth and what it permits, and becomes the top; nothing else changes |
| NestedScope.StatementScope.Destroy | plugins/cpp/parser/src/nestedscope.cpp:63-68 | takes exactly the top scope off |
| NestedScope.StatementScope.CheckNext | plugins/cpp/parser/src/nestedscope.cpp:17-37 | a nested statement is standalone exactly in an open scope that is not invalid, expected exactly when the scope waits for it, and invalid otherwise |
| NestedScope.StatementScope.EnsureConfigured | plugins/cpp/parser/src/nestedscope.cpp:71-75 | an unconfigured scope becomes a plain statement, a configured one is left alone; no scope is configured twice |
| NestedScope.StatementScope.MakeCompound | plugins/cpp/parser/src/nestedscope.cpp:87-100 | configures the top scope, once; deeper only when standalone |
| NestedScope.StatementScope.MakeOneWay | plugins/cpp/parser/src/nestedscope.cpp:118-132 | configures the top scope, once; expects one body; deeper unless invalid |
| NestedScope.StatementScope.MakeTwoWay | plugins/cpp/parser/src/nestedscope.cpp:148-163 | configures the top scope, once; expects either of two branches; deeper unless invalid |
| NestedScope.StatementScope.MakeFunction | plugins/cpp/parser/src/nestedscope.cpp:134-146 | configures the top scope, once; expects the body; depth restarts at zero, in any state; the depths on the stack stay consistent unless the scope is invalid |
| NestedScope.StatementScope.MakeTransparent | plugins/cpp/parser/src/nestedscope.cpp:77-85 | configures the top scope, once; everything inside is standalone |
| NestedScope.StatementScope.MakeStatement | plugins/cpp/parser/src/nestedscope.cpp:102-116 | configures the top scope, once; nothing inside counts; deeper unless invalid |
| ClangAstVisitor.Visitor.Traverse | plugins/cpp/parser/src/clangastvisitor.h:269-304 | for every syntax tree, with functions nested at will: the stack machine adds to the function on top exactly the recursive count over the tree, records exactly the functions of the tree with their counts, and restores all scopes |
| ClangAstVisitor.Visitor.TraverseStmt | plugins/cpp/parser/src/clangastvisitor.h:494-512 | the same for a statement: its own depth counts after those of its children |
| ClangAstVisitor.Visitor.ConfigureScope | plugins/cpp/parser/src/clangastvisitor.h:395-491 | each special kind of statement configures its own, new scope |
| ClangAstVisitor.Visitor.TraverseFunctionDecl | plugins/cpp/parser/src/clangastvisitor.h:282-293 | the same for a function: folded into the enclosing one as B + S * D |
| ClangAstVisitor.Visitor.CloseFunctionScope | plugins/cpp/parser/src/clangastvisitor.h:217-242 | a closing function is recorded and folded with the depth of the innermost enclosing scope; one that was not freshly recorded only disappears |
| ClangAstVisitor.Visitor.CountBumpiness | plugins/cpp/parser/src/clangastvisitor.h:315-323 | a statement counts, with its depth, if and only if its scope is deeper than the one around it |
| ClangAstVisitor.FunctionTotal | plugins/cpp/parser/src/clangastvisitor.h:217-242 | the record taken off the stack and the fold into the outer one are the recursive count of the function |
| BumpyRoad.TotalIsRecount | plugins/cpp/parser/src/clangastvisitor.h:232-240 | folding B + S * D is exact at every nesting: it equals counting the nested function in place with start depth D |
| BumpyRoad.RaisedRecount | plugins/cpp/parser/src/clangastvisitor.h:232-240 | raising the start depth by D adds D for each counted statement |
| BumpyRoad.CountsIff | plugins/cpp/parser/src/nestedscope.cpp:17-93 | a statement counts exactly when it stands, from the function on, in blocks, bodies and branches only, and is neither a label nor a block in the place of a body: a condition on the tree alone |
| BumpyRoad.RecountIsNesting | plugins/cpp/parser/src/clangastvisitor.h:315-323 | the sum of depths is the number of pairs of such a statement and one inside it, plus the start depth for each |
| BumpyRoad.RowIsNesting | plugins/cpp/parser/src/clangastvisitor.h:201-243 | the recorded bumpiness of a function is the number of nested pairs of such statements in it, its statement count their number |
| SyntaxPaths.RowsByPlace | plugins/cpp/parser/src/clangastvisitor.h:201-243 | every function of the tree with a node id of its own is recorded exactly once, wherever it stands, and nothing else is; functions inside others come first, and else the order is that of the text |
| SyntaxPaths.RecordFunctions | plugins/cpp/parser/src/clangastvisitor.h:282-304 | so for the records that a traversal adds |
| SyntaxPaths.RowByPlaces | plugins/cpp/parser/src/clangastvisitor.h:315-323 | the statement count of a record is the number of places inside the function where a statement counts, its bumpiness the number of pairs of such places one of which is inside the other or is the other |
| BumpyRoad.ExpressionsDoNotCount | plugins/cpp/parser/src/nestedscope.cpp:102-116 | nothing inside a plain statement counts at any depth, apart from functions nested in it |
| Words.Choice | webserver/src/mongoose.c:3549-3550 | the shorter forms of the auxiliary functions equal those of RFC 1321 section 3.4 and RFC 3174 section 5 |
| Words.Majority | webserver/src/mongoose.c:2497 | the shorter form of the majority function equals that of RFC 3174 section 5 |
| Words.PlusAssociates | webserver/src/mongoose.c:3554-3555 | addition modulo 2^32 on bit strings is associative |
| BlockHash.CountBits | webserver/src/mongoose.c:2561-2564 | two 32-bit counters with carry count the bits of the message modulo 2^64 |
| BlockHash.CountLength | webserver/src/mongoose.c:2561-2564 | the code that updates the counters does so |
| BlockHash.PadPrefixBlocks | webserver/src/mongoose.c:3692-3704 | the padding completes the block in progress, or it and one more |
| MongooseMd5.CProgramIsRfc | webserver/src/mongoose.c:3577-3643 | the 64 macro calls are the 64 operations of RFC 1321 section 3.4 |
| MongooseMd5.CStepIsRfc | webserver/src/mongoose.c:3549-3555 | each macro call computes the operation of RFC 1321 |
| MongooseMd5.Md5Context.MD5Transform | webserver/src/mongoose.c:3569-3649 | the block function of RFC 1321, in place on the registers |
| MongooseMd5.Md5Context.MD5Update | webserver/src/mongoose.c:3651-3685 | registers, buffer and counters afterwards depend only on all bytes given so far, however cut |
| MongooseMd5.Md5Context.MD5Final | webserver/src/mongoose.c:3687-3713 | the digest is that of the padded message |
| MongooseMd5.Md5Context.PadBlock | webserver/src/mongoose.c:3692-3704 | padding in the buffer, with a block of its own when the length does not fit |
| MongooseMd5.Bin2Str | webserver/src/mongoose.c:3722-3730 | hexadecimal text, high half first |
| Md5.StartBytes | webserver/src/mongoose.c:3557-3563 | the start values are the bytes that section 3.3 of RFC 1321 lists, low-order byte first |
| BlockHash.OneBitIs | webserver/src/mongoose.c:3695 | the byte 0x80 of the sources is the one bit of the standards in front of zero bits |
| MongooseMd5.MgMd5 | webserver/src/mongoose.c:3733-3750 | for every list of strings the result is the digest RFC 1321 defines for their concatenation |
| JsMd5.AddIsPlus | webgui/scripts/codecompass/util.js:202-221 | the addition split into 30 bits and two more is addition modulo 2^32 |
| JsMd5.JsProgramIsRfc | webgui/scripts/codecompass/util.js:322-385 | the 64 calls of FF, GG, HH and II are the operations of RFC 1321 |
| JsMd5.JsStepIsRfc | webgui/scripts/codecompass/util.js:223-246 | each of them computes the operation |
| JsMd5.ConvertToWordArray | webgui/scripts/codecompass/util.js:248-269 | the word array is the message padded as in RFC 1321 if and only if its length modulo 2^61 is below 2^32 |
| JsMd5.LengthFitsIff | webgui/scripts/codecompass/util.js:266-267 | the high length word, taken from a 32-bit shift, is right if and only if the length modulo 2^61 is below 2^32 |
| JsMd5.LengthTooLong | webgui/scripts/codecompass/util.js:266-267 | the first length for which it is wrong, 2^32 |
| JsMd5.JsPadIff | webgui/scripts/codecompass/util.js:248-269 | the padded message that is hashed is that of RFC 1321 for exactly these lengths |
| JsMd5.RunBlocks | webgui/scripts/codecompass/util.js:320-390 | the main loop folds the block function over the padded message |
| JsMd5.WordToHex | webgui/scripts/codecompass/util.js:271-279 | two lower-case digits for each byte, low byte first |
| JsMd5.ReturnsDropped | webgui/scripts/codecompass/util.js:282 | of the text exactly each CR in front of an LF is dropped |
| JsMd5.Utf8Encode | webgui/scripts/codecompass/util.js:281-305 | every UTF-16 unit is encoded on its own, after CR LF has become LF; the bytes decode as UTF-8 (RFC 3629) to the characters of that text (surrogate pairs joined) if and only if there are no surrogates |
| JsMd5.Utf8ReadBack | webgui/scripts/codecompass/util.js:286-302 | what a decoder makes of the bytes: every unit as it was, but each surrogate as three replacement characters |
| JsMd5.Utf8Exactly | webgui/scripts/codecompass/util.js:281-305 | the condition of Utf8Encode, for the encoding as a function |
| JsMd5.FormIsRead | webgui/scripts/codecompass/util.js:286-302 | the decoder these results speak of reads the form that RFC 3629 gives to each character, |
| JsMd5.ReadIsForm | webgui/scripts/codecompass/util.js:286-302 | and whatever it does not take for a stray byte is the form of a character |
| JsMd5.CharactersOfUnits | webgui/scripts/codecompass/util.js:284-286 | the characters they speak of are those whose UTF-16 units (RFC 2781) make up the text |
| JsMd5.MD5 | webgui/scripts/codecompass/util.js:307-394 | the hash of the encoded text under its own padding, for every length; the digest RFC 1321 defines whenever the length modulo 2^61 is below 2^32 |
| JsMd5.SameDigest | webgui/scripts/codecompass/util.js:197-395 | on plain text the one-shot digest of the client and the streaming digest of the server, in any chunks, are equal, and that of RFC 1321 |
| MongooseSha1.TurnedStep | webserver/src/mongoose.c:2494-2498 | a macro call on registers that change roles is a step of RFC 3174 on rotated registers |
| MongooseSha1.Swapped | webserver/src/mongoose.c:2483-2490 | the rotations and masks of blk0 reverse the bytes of a word |
| MongooseSha1.BlkLate | webserver/src/mongoose.c:2492-2493 | the 16-word circular buffer yields the 80 words of the schedule |
| MongooseSha1.RunRounds | webserver/src/mongoose.c:2516-2535 | all 80 macro calls compute the 80 rounds of RFC 3174 section 6 |
| Sha1.ConstantsAreRoots | webserver/src/mongoose.c:2494-2498 | the constants of the rounds are the square roots of 2, 3, 5 and 10, times 2^30 and rounded down |
| MongooseSha1.Sha1Context.SHA1Transform | webserver/src/mongoose.c:2506-2546 | the block function of RFC 3174, in place on the registers |
| MongooseSha1.Sha1Context.SHA1Update | webserver/src/mongoose.c:2557-2576 | for any split into calls in which j + len does not wrap around the context depends only on all bytes given; the counters hold the bit length modulo 2^64 |
| MongooseSha1.Sha1Context.PadWithZeros | webserver/src/mongoose.c:2586-2590 | the padding loop ends, exactly at the place of the length |
| MongooseSha1.Sha1Context.SHA1Final | webserver/src/mongoose.c:2578-2597 | terminates; the digest is that of the message padded as in section 4 of RFC 3174 |
| MongooseSha1.SplitIndependent | webserver/src/mongoose.c:2557-2576 | two contexts that were given the same bytes in different pieces agree in all that later calls read |
| MongooseSha1.LengthWraps | webserver/src/mongoose.c:2565-2575 | exactly when j + len wraps around is the short branch taken for data that do not fit into the block in progress |
| MongooseSha1.HashPieces | webserver/src/mongoose.c:2548-2599 | hashing in pieces gives the digest RFC 3174 defines for their concatenation |
| WebSocket.FrameStays | webserver/src/mongoose.c:2647-2692 | for any bytes: a frame that is complete in the buffer is the same frame when more bytes follow |
| WebSocket.LengthReadIff | webserver/src/mongoose.c:2663-2667 | the payload length read from a frame in the format of RFC 6455 section 5.2 is its length if and only if it is below 2^31 |
| WebSocket.LongFrameMisread | webserver/src/mongoose.c:2648-2673 | as soon as ten bytes of a frame of 2^32 - 1 bytes are buffered, nine of them are delivered as a frame without content |
| WebSocket.ContentLengthIff | webserver/src/mongoose.c:2663-2675 | the announced content length is that of the bytes handed over unless the header has a 64-bit length whose low word has its top bit set |
| WebSocket.WholeFrame | webserver/src/mongoose.c:2653-2682 | a frame of RFC 6455, masked or not, with total length below 2^31, is delivered with its first byte and its unmasked payload |
| WebSocket.PartialWaits | webserver/src/mongoose.c:2670-2672 | a proper part of a frame is not taken for a frame |
| WebSocket.FramesDelivered | webserver/src/mongoose.c:3033-3035 | any sequence of frames followed by an incomplete one is delivered exactly, in order, and the incomplete one stays |
| WebSocket.MaskedTwice | webserver/src/mongoose.c:2678-2682 | masking as in RFC 6455 section 5.3 undoes itself |
| WebSocketConnection.IoBuf.Append | webserver/src/mongoose.c:303-323 | the bytes are added at the end, in place or in a new buffer |
| WebSocketConnection.IoBuf.Remove | webserver/src/mongoose.c:325-330 | exactly the first n bytes go, by moving the rest in place; nothing happens when n is out of range |
| WebSocketConnection.IoBuf.Unmask | webserver/src/mongoose.c:2678-2682 | the loop unmasks the payload in place and touches nothing else |
| WebSocketConnection.Connection.DeliverFrame | webserver/src/mongoose.c:2647-2692 | delivers and removes the first frame if it is complete, and otherwise changes nothing |
| WebSocketConnection.Connection.Receive | webserver/src/mongoose.c:3033-3036 | what is delivered and what is left is a function of all bytes received, not of how they arrived |
| WebSocketConnection.Connection.WebsocketWrite | webserver/src/mongoose.c:2697-2745 | appends one unmasked frame with its first byte FIN, three zero bits and the opcode; an opcode of 8 flags the end of the connection |
| WebSocketConnection.PutLength | webserver/src/mongoose.c:2706-2727 | the length field in 7, 16 or 64 bits, in network order |
| WebSocket.WireHead | webserver/src/mongoose.c:2708-2732 | the format written and read is that of section 5.2 of RFC 6455: mask bit and length in seven bits, or in two or eight bytes in network order after 126 or 127 |
| WebSocket.WirePayload | webserver/src/mongoose.c:2676-2682 | each bit of the payload is the bit of the data, or differs from it by the bit of the key whose turn it is |
| WebSocketConnection.ReceivePieces | webserver/src/mongoose.c:3033-3036 | frames that arrive in any pieces are delivered exactly, in order, and an incomplete frame at the end is kept untouched |
| Sequences.DrainSplit | webserver/src/mongoose.c:3033-3036 | taking out what is complete before more data arrives makes no difference in the end |
| Sequences.LeftIsShort | webserver/src/mongoose.c:3033-3036 | between two pieces the buffer holds less than one frame |
| MatchPrefix.MatchPrefix | webserver/src/mongoose.c:2250-2285 | terminates; for a pattern without bar the result is non-negative if and only if some prefix matches, and is then the length of one; a star behind the pattern does no harm unless the search comes to it |
| MatchPrefix.SameLetter | webserver/src/mongoose.c:2213-2215 | characters are compared without regard to the case of ASCII letters |
| MatchPrefix.GreedySound | webserver/src/mongoose.c:2260-2284 | a non-negative result of the search is the length of a matching prefix |
| MatchPrefix.GreedyComplete | webserver/src/mongoose.c:2275-2279 | backtracking misses no match |
| MatchPrefix.StarsTakeMost | webserver/src/mongoose.c:2266-2279 | of all matches a star takes the longest run after which the rest still matches |
| MatchPrefix.AlternativesInOrder | webserver/src/mongoose.c:2254-2258 | with bars the result is that of the first alternative with a positive match, or that of the last one |
| MatchPrefix.MatchOne | webserver/src/mongoose.c:2260-2284 | the loop over a pattern without bar computes the search |
| MatchPrefix.TryLengths | webserver/src/mongoose.c:2276-2279 | so does the loop over shorter and shorter runs |
| UrlCoding.RoundTrip | webserver/src/mongoose.c:2135-2158 | decoding undoes encoding on every byte string in both form modes |
| UrlCoding.EncodeRule | webserver/src/mongoose.c:3173-3187 | which bytes stand for themselves, by their codes; the others become a percent sign and two digits |
| UrlCoding.PlainRule | webserver/src/mongoose.c:2147-2151 | a plus is a blank in form mode only, and every other byte outside of a triplet is itself |
| UrlCoding.TripletRule | webserver/src/mongoose.c:2141-2146 | digits of either case after a percent sign have their hexadecimal values |
| UrlCoding.UrlEncode | webserver/src/mongoose.c:3172-3191 | what the whole buffer holds afterwards, for every length; the text is percent-encoded if and only if it fits before the NUL |
| UrlCoding.WrittenIff | webserver/src/mongoose.c:3177-3187 | the same condition for what is written, as a function of the text and the old buffer |
| UrlCoding.UrlDecode | webserver/src/mongoose.c:2135-2158 | the decoded bytes, or -1 exactly when they and the NUL do not fit; the same when source and destination are one buffer |
| UrlCoding.DecodeOne | webserver/src/mongoose.c:2140-2152 | one byte of output never overwrites input that is still to be read |
| UrlCoding.EncodedLength | webserver/src/mongoose.c:3172-3191 | the encoded text is at most three times as long |
| ConnectionList.Server.AddConn | webserver/src/mongoose.c:355-360 | the list stays doubly linked, acyclic, with inverse links; the connection is its new head |
| ConnectionList.Server.RemoveConn | webserver/src/mongoose.c:362-366 | so it does, without exactly that connection |
| ConnectionList.Server.CloseConn | webserver/src/mongoose.c:433-446 | the handler runs first, then the connection is unlinked |
| ConnectionList.Server.ClosingSweep | webserver/src/mongoose.c:925-931 | the connections visited are those of the list, each once and in order, and exactly those whose flag is set when visited are unlinked, whatever the handler does to the flags of others |
| ConnectionList.Server.SocketLoop | webserver/src/mongoose.c:908-922 | additions at the head and changes of flags do not disturb the walk: all connections listed before are visited once, in order, and remain listed after the new ones |
| ConnectionList.QuietSweep | webserver/src/mongoose.c:925-931 | when the handler leaves flags alone, exactly the unflagged connections stay |
| ThriftProtocol.Protocol.WriteValue | webgui/scripts/thrift.js:829-1051 | the nested begin and end calls for a value with distinct field ids restore tpos and add exactly one entry to tstack, the text of the recursive printer |
| ThriftProtocol.Protocol.WriteMessage | webgui/scripts/thrift.js:802-824 | a whole message leaves both stacks empty and gives the transport one text: version, name, type, sequence number and the printed arguments |
| ThriftProtocol.Protocol.WriteStructEnd | webgui/scripts/thrift.js:837-855 | the members of the object at the saved position, in insertion order |
| ThriftProtocol.Protocol.WriteFieldEnd | webgui/scripts/thrift.js:874-881 | value and field record go, and the member is set in the struct below |
| ThriftProtocol.Protocol.WriteMapEnd | webgui/scripts/thrift.js:905-938 | the pairs on the stack become one text in their original order, with the size filled in; the cases of no entry and of an odd number of entries as in the code |
| ThriftProtocol.Protocol.TakePairs | webgui/scripts/thrift.js:920-935 | popping pairs from the top builds the text of all pairs from front to back |
| ThriftProtocol.Protocol.WriteListEnd | webgui/scripts/thrift.js:953-963 | moving the elements one by one into the array keeps their order |
| ThriftProtocol.Protocol.WriteString | webgui/scripts/thrift.js:1025-1052 | the loop escapes as the printer does; null stays null |
| ThriftProtocol.FieldAdded | webgui/scripts/thrift.js:874-881 | with distinct ids no member replaces another |
| ThriftText.StringRoundTrip | webgui/scripts/thrift.js:1025-1052 | the text of a string decodes by section 7 of RFC 8259 to the string if and only if it has no control characters besides those with a short escape |
| ThriftText.EscapeRead | webgui/scripts/thrift.js:1031-1049 | the same in front of any text |
| ThriftText.KeysDiffer | webgui/scripts/thrift.js:863-866 | distinct field ids have distinct keys |
| ThriftJson.JsonExactly | webgui/scripts/thrift.js:829-1051 | the text of a value is JSON (RFC 8259) if and only if its numbers are finite, its strings have no stray control characters, no list or set has a null element and no map key is a container or NaN; then it reads back as the value |
| ThriftJson.ValueReads | webgui/scripts/thrift.js:829-1051 | the same in front of any text that can follow a value, by recursion over the value |
| ThriftJson.ExpressibleIff | webgui/scripts/thrift.js:829-1051 | that condition is exactly when every part of the value has a JSON form |
| ThriftJson.WrapReads | webgui/scripts/thrift.js:905-963 | the joined texts of items between brackets read back as the items, and as nothing if one of them does not |
| ThriftJson.KeyReads | webgui/scripts/thrift.js:926-934 | a map key is read back as a string: numbers, null and digits because they are quoted when they are not NaN |
| ThriftJson.NothingReads | webgui/scripts/thrift.js:953-963 | a null element of a list, printed as nothing, leaves text that is not JSON |
| ThriftJson.NameReadsIff | webgui/scripts/thrift.js:802-808 | the name of a message, which is not escaped, reads back if and only if it needs no escape |
| ThriftJson.MessageReads | webgui/scripts/thrift.js:802-824 | a whole message reads back as the array of version, name, type, sequence number and arguments |
| ThriftMeaning.DecimalIntIs | webgui/scripts/thrift.js:864 | the text of a field id, size or sequence number, read by its digits, is the number |
| ThriftMeaning.TypeTables | webgui/scripts/thrift.js:747-776 | the table of type names for writing and the one for reading are inverse to each other |
| ThriftMeaning.TextMeans | webgui/scripts/thrift.js:788-1180 | the text of a value that can be expressed is JSON that means the value: ids and sizes as the numbers read, types by the reading table, everything else by its place |
| ThriftMeaning.MessageMeans | webgui/scripts/thrift.js:809-838 | a message is the array of version 1, the name, the type, the sequence number and the arguments |
| SourceManager.Manager.constructor | parser/src/sourcemanager.cpp:16-20 | the cache starts coherent with the database |
| SourceManager.Manager.ReloadCache | parser/src/sourcemanager.cpp:50-67 | the cache holds exactly the file rows |
| SourceManager.Manager.GetFile | parser/src/sourcemanager.cpp:162-190 | coherence stays; the file is found under its canonical path; only it and its ancestors are entered, as they are on disk |
| SourceManager.Manager.GetCreateFileEntry | parser/src/sourcemanager.cpp:104-160 | a cached entry is returned as it is, or a new one made |
| SourceManager.Manager.PersistFiles | parser/src/sourcemanager.cpp:263-302 | coherence stays; old rows are untouched, and no row is persisted twice; every cached file has its own row afterwards if and only if no two cached paths have the same id |
| SourceManager.Manager.PersistOne | parser/src/sourcemanager.cpp:268-300 | the same for one file: its content is persisted only if no other file brought it |
| SourceManager.Manager.RemoveFile | parser/src/sourcemanager.cpp:234-261 | exactly the row and the cache entry go, and the content if and only if no other row refers to it (as all contents are referenced and no reference dangles); coherence stays if and only if no other cached file has the same id, or only one with its content in memory |
| SourceManager.Manager.PersistAndReload | parser/src/sourcemanager.cpp:40-67 | writing the cache out and reading it back gives the same files if and only if no two of their paths have the same id |
| SourceManager.AddContent | parser/src/sourcemanager.cpp:280-292 | one file more: no dangling reference, no unreferenced content |
| SourceManager.RemoveContent | parser/src/sourcemanager.cpp:238-249 | one file less: no dangling reference, no unreferenced content |
| Logger.Stream.WriteActions | logger/src/ldlogger-logger.c:91-131 | after a call the file is the empty file or the complete array of all entries so far, also when no action had a source |
| Logger.SizeTest | logger/src/ldlogger-logger.c:116 | the size test holds if and only if an entry is present |
| Logger.Stream.OpenArray | logger/src/ldlogger-logger.c:103-122 | a new file gets the opening bracket, in an old one the closing bracket is what is overwritten next |
| Logger.Stream.WriteAction | logger/src/ldlogger-logger.c:55-89 | one entry for each source, with separators between entries only |
| Logger.LogCalls | logger/src/ldlogger-logger.c:91-131 | over any number of calls the file is empty or exactly all entries, in order |
| GraphIds.SuccessorAddsOne | util/src/graph.cpp:334-346 | an inner step adds exactly one in little-endian bijective base 26 |
| GraphIds.ValueInjective | util/src/graph.cpp:334-346 | different identifiers have different numbers |
| GraphIds.Graph.Increment | util/src/graph.cpp:336-344 | the loop on the letters computes the successor |
| GraphIds.Graph.GenerateId | util/src/graph.cpp:334-349 | terminates with a non-empty lower-case identifier outside the used ones, different from all generated before |
| GraphIds.Graph.GetOrCreateNode | util/src/graph.cpp:85-101 | a given name is kept, an empty one replaced by a generated one; it is in use afterwards |
| GraphIds.Graph.CreateEdge | util/src/graph.cpp:103-118 | the identifier of a new edge never replaces that of another edge |
| GraphIds.GeneratedDistinct | util/src/graph.cpp:334-349 | all identifiers generated by one graph are pairwise distinct |
| Bfs.TransitiveClosureOfRel | plugins/cpp/service/src/cppservice.cpp:1595-1628 | terminates; exactly the nodes reached in one or more steps over rows of one kind, in either direction |
| Bfs.BfsBuild | util/include/util/graph.h:281-328 | terminates for any level; every out-edge of every node taken from the queue is created, and without limit (or with 0, or with a limit that is not used up) the nodes found are exactly those reached in one or more steps; the start is taken first and then each of them once, the start again if it is one of them; a limit is never exceeded |
| Bfs.SearchEnds | util/include/util/graph.h:302-325 | when the queue is empty, exactly the reachable nodes have been found |
| Bfs.Expanded | util/include/util/graph.h:304-320 | taking one node from the queue keeps the search sound and complete |
| Bfs.OthersAre | plugins/cpp/service/src/cppservice.cpp:1609-1616 | a query returns exactly the other sides of the matching rows |

## Left out

- MongooseMd5.Md5Context.MD5Final: does not erase the context at the end, which no later call reads; byteReverse is the identity on the little-endian machine that is modelled.
- MongooseSha1.Sha1Context.SHA1Update: a call in which the 32-bit sum j + len wraps around, which overruns the block in progress, has no result that could be stated.
- MongooseSha1.Sha1Context.SHA1Final: does not erase the context at the end; big-endian machines, on which blk0 does not swap, are not modelled.
- JsMd5.MD5: the final toLowerCase is left out, since all digits are in lower case already.
- ClangAstVisitor.Visitor.Traverse: the Clang AST is an abstract tree with the kinds of statement the visitor treats specially; the McCabe counter, the stacks of types and enums and everything written to the database apart from the two counters are not modelled, and the counters do not wrap around at 2^32.
- CppParser.Parser.MarkActionChanged: an input is the list of its commands, or nothing when it is no regular file or cannot be loaded; reading it is not modelled.
- CppParser.Parser.CreateCleanupOrder: a database error, which makes the code return no order, is not modelled.
- CleanupDatabase.IncludersCleanedFirst: what a cleanup job does to the database, its retry after a deadlock and its failure are not modelled; a job is a start and an end.
- ThreadPool.WaitRunsEveryJobOnce: no jobs are enqueued after wait() begins, and wait() is called by the one thread that enqueues.
- WebSocketConnection.Connection.Receive: the handler is a function from what is delivered to its answer; it does not write to the connection or change the buffer, and memory for the buffer can always be allocated.
- WebSocketConnection.Connection.DeliverFrame: the buffer is shorter than 2^31 bytes, since the code keeps its length in an int.
- WebSocketConnection.Connection.WebsocketWrite: allocation of the copy does not fail.
- MatchPrefix.MatchPrefix: when the search comes to a single star at the end of the pattern, the code reads the character after it; if that is a star too, it calls itself with a negative length, for which there is no defined result, and which no caller in the repository brings about. Only this case is excluded. Patterns and strings hold no NUL.
- ConnectionList.Server.CloseConn: the handler is a function from two connections and a flag to a flag; as no connection is closed twice in a sweep, this is any handler.
- ConnectionList.Server.SocketLoop: callbacks change flags and add connections at the head, and remove none.
- ConnectionList.Server.ClosingSweep: callbacks may change close flags, but add or remove no connections in the sweep; sockets, SSL and the buffers of a connection are not modelled.
- ThriftProtocol.Protocol.WriteValue: numbers are given by the text JavaScript prints for them; writeBinary, and types without a JSON name, are not modelled, and isNaN is decided only for texts that can be on the stack.
- ThriftJson.ValueReads: the reader knows no white space, no true and no false, none of which the writer uses; numbers are given as their JavaScript texts.
- ThriftJson.MessageReads: only for names that need no escape; `ThriftJson.NameReadsIff` says that no other name reads back.
- SourceManager.Manager.GetFile: the file system is a table of canonical paths, directories and readable plain texts, fixed during a call; time stamps, the type set by parsers, updateFile, the parent reference, the mutex and libmagic are not modelled.
- SourceManager.Manager.RemoveFile: rows are changed through the source manager only.
- Logger.Stream.WriteActions: the command is given with its escapes; the lock file and I/O errors are not modelled.
- GraphIds.Graph.GenerateId: the graph is not moved from; the move constructor does not carry the counter. Graphviz itself is not modelled.
- Bfs.BfsBuild: the relation does not change while the graph is built; attributes of nodes and edges are not modelled.
- The Thrift reader, HTTP parsing and pipelining, range and date parsing, CGI and proxy connections, base64, the search and Java plugins, plugin loading, sessions and the web user interface are not modelled.

# Kotlin/Native profiler, BIR element storage and compiler setup helpers in Dafny

This project models four parts of the Kotlin repository and proves properties of them.

**The Kotlin/Native runtime event profiler** (`Profiler.hpp`, `ProfileReporter.hpp`, `ProfilerEvents.hpp`).
- An event record is an event together with the backtrace captured when it happened. Its path (`entries()`) is the event, then the frames.
- Every thread counts hits per record in its own buffer. `publish` merges the buffer into the profiler's aggregate key by key and empties it.
- At the end the reporter prints the aggregate as a tree:
  - the first level groups the records by event, and every further level by one more frame;
  - each node shows the summed hits of its records;
  - siblings come in descending order of hits;
  - each level is indented two more spaces.
- Modules: `EventRecords`, `EventCounts`, `Profiling`, `ProfileReporter`, `ProfilerEvents`, and `ReportScenarios` (worked examples).

**The inline storage of a BIR element** (`BirElementBase.kt`).
- The flags byte, with the containing-list id packed into its top three bits (`BirFlags`).
- The dynamic-property "array map" `[key, value, key, value, …, null, …]` (`BirDynamicProperties`):
  - lookups prune keys of temporary properties whose phase is over;
  - the model has get, set and get-or-put.
- The back-reference array, with deduplicating registration and swap-with-last removal (`BirBackReferences`).
- The ancestor walk `isAncestorOf` (`BirTree`).

**The argument helpers of the native compiler's setup** (`SetupConfiguration.kt`; modules `SetupConfiguration` and `Version`).
- `key=value`, `library,cache` and debug-prefix parsing.
- Thread-count validation.
- Choice of the bitcode embedding mode.
- Filtering of exported and included libraries.
- `CompilerConfiguration.update`.
- The release check on the compiler version.

**The configuration of the LLVM optimisation pipelines** (`OptimizationPipeline.kt`; module `OptimizationPipeline`).
- The optimisation and size levels.
- The `-O` flag.
- The pass lists of the mandatory, module and LTO pipelines.
- The configurations for the final link and for the runtime.

Conventions used throughout:
- Counts are `map<Record, nat>`.
- Strings are `seq<char>`.
- The flags byte is a `bv8`.
- Errors the source throws (a failed `require`, an invalid property token, an unparsable argument) are `Failure` values of a `Result`.
- Calls into code that is not shown are function parameters:
  - the hash functions and their combiner;
  - the symbol resolver;
  - the traits' `str`;
  - the validity of temporary properties.

`wrappers.dfy` holds `Option` and `Result`. `text.dfy` gives a precise meaning to the string operations the sources rely on:
- decimal rendering;
- Kotlin's `indexOf`;
- `split` with a one-character delimiter;
- `joinToString`;
- `String.toIntOrNull()`.

Paths in the table are relative to the repository root. The four directories are:
- `kotlin-native/runtime/src/main/cpp/profiler/` (profiler);
- `compiler/ir/bir/tree/src/org/jetbrains/kotlin/bir/` (BIR);
- `kotlin-native/backend.native/compiler/ir/backend.native/src/org/jetbrains/kotlin/backend/konan/` (setup and pipeline).

## Model

| member | source | states |
|---|---|---|
| `EventRecords.SameRecord` | kotlin-native/runtime/src/main/cpp/profiler/Profiler.hpp:35-37 | Two records compare equal exactly when they are the same value: same event and same backtrace. |
| `EventRecords.Entries` | kotlin-native/runtime/src/main/cpp/profiler/Profiler.hpp:40-46 | A record's path has one entry more than its backtrace has frames. The event comes first, then frame i at position i + 1. |
| `EventRecords.EntriesRoundTrip` | kotlin-native/runtime/src/main/cpp/profiler/Profiler.hpp:40-46 | The record can be read back from its path, so flattening loses nothing. |
| `EventRecords.EntriesInjective` | kotlin-native/runtime/src/main/cpp/profiler/Profiler.hpp:40-46 | Different records have different paths. |
| `EventRecords.EqualRecordsHashEqual` | kotlin-native/runtime/src/main/cpp/profiler/Profiler.hpp:48-50 | Records that compare equal hash equal, whatever the component hashes and the combiner are. |
| `EventRecords.RecordHash` | kotlin-native/runtime/src/main/cpp/profiler/Profiler.hpp:48-50 | No contract of its own: it combines the event's hash with the backtrace's. `EventRecords.EqualRecordsHashEqual` states that it is consistent with equality. |
| `ProfilerEvents.SameAllocation` | kotlin-native/runtime/src/main/cpp/profiler/ProfilerEvents.hpp:13-15 | Two allocations compare equal exactly when descriptor and array length agree, which is value equality. |
| `ProfilerEvents.EqualAllocationsHashEqual` | kotlin-native/runtime/src/main/cpp/profiler/ProfilerEvents.hpp:18-20 | Allocations that compare equal hash equal. |
| `ProfilerEvents.AllocationHash` | kotlin-native/runtime/src/main/cpp/profiler/ProfilerEvents.hpp:18-20 | No contract of its own: it combines the type's hash with the array length's. `ProfilerEvents.EqualAllocationsHashEqual` states that it is consistent with equality. |
| `ProfilerEvents.QualifiedName` | kotlin-native/runtime/src/main/cpp/profiler/ProfilerEvents.hpp:31-33 | In the root package the name is the class name. Otherwise it is the package, a '.', then the class name, at the stated positions. |
| `ProfilerEvents.AllocationLabelLength` | kotlin-native/runtime/src/main/cpp/profiler/ProfilerEvents.hpp:30-38 | An array allocation's label ends in its length in brackets, and that suffix reads back as the length. Any other label is the qualified name alone. |
| `ProfilerEvents.AllocationLabel` | kotlin-native/runtime/src/main/cpp/profiler/ProfilerEvents.hpp:30-38 | No contract of its own: `ProfilerEvents.QualifiedName` states the name part, and `ProfilerEvents.AllocationLabelLength` states the bracketed length of an array and its absence otherwise. |
| `EventCounts.Hit` | kotlin-native/runtime/src/main/cpp/profiler/Profiler.hpp:87 | One more hit of a key: the key is created if absent, every other count is unchanged, and the total grows by one. |
| `EventCounts.Aggregate` | kotlin-native/runtime/src/main/cpp/profiler/Profiler.hpp:106-111 | The merged map has the union of the keys, and each count is the sum of the two counts. |
| `EventCounts.AggregateTotal` | kotlin-native/runtime/src/main/cpp/profiler/Profiler.hpp:106-111 | Merging conserves the total number of hits. |
| `EventCounts.AggregateCommutes` | kotlin-native/runtime/src/main/cpp/profiler/Profiler.hpp:106-111 | Merging two buffers in either order gives the same aggregate. |
| `EventCounts.AggregateEmpty` | kotlin-native/runtime/src/main/cpp/profiler/Profiler.hpp:106-111 | Merging an empty buffer leaves the aggregate as it was. |
| `EventCounts.AggregateLoop` | kotlin-native/runtime/src/main/cpp/profiler/Profiler.hpp:108-110 | The entry-by-entry `+=` loop computes the merge. |
| `EventCounts.IsAggregate` | kotlin-native/runtime/src/main/cpp/profiler/Profiler.hpp:106-111 | Any map with the union of the keys and summed counts is the merge, so the merge is fixed by its counts. |
| `Profiling.Capture` | kotlin-native/runtime/src/main/cpp/profiler/Profiler.hpp:86 | The captured backtrace has at most the depth's frames. They are the stack's frames after the skipped ones, in order. |
| `Profiling.HitImpl` | kotlin-native/runtime/src/main/cpp/profiler/Profiler.hpp:83-88 | The record of the event and its backtrace, with `hitImpl`'s own frame skipped, counts once more in the thread's buffer. Nothing else changes. |
| `Profiling.ProfilerHit` | kotlin-native/runtime/src/main/cpp/profiler/Profiler.hpp:160-165 | A disabled event kind records nothing. An enabled one adds exactly one hit, to the record `hitImpl` captures: the event with the caller's backtrace, cut to the kind's depth. All other counts stay the same. |
| `Profiling.Publish` | kotlin-native/runtime/src/main/cpp/profiler/Profiler.hpp:90-95 | Enabled: the buffer is merged key by key and left empty. Disabled: nothing changes. Either way no hit is lost or made up. |
| `Profiling.PublishIdempotent` | kotlin-native/runtime/src/main/cpp/profiler/Profiler.hpp:90-95 | Publishing again right away changes nothing. |
| `Profiling.PublishCommutes` | kotlin-native/runtime/src/main/cpp/profiler/Profiler.hpp:90-95 | The aggregate does not depend on which of two threads publishes first. |
| `Profiling.PublishAll` | kotlin-native/runtime/src/main/cpp/profiler/Profiler.hpp:79-81 | When every thread publishes, as its thread data's destructor does, all their hits are added to the aggregate. |
| `Profiling.PublishAllPointwise` | kotlin-native/runtime/src/main/cpp/profiler/Profiler.hpp:79-95 | After every thread publishes, each record's count is its old count plus its count in every thread. |
| `Profiling.Threads` | kotlin-native/runtime/src/main/cpp/profiler/Profiler.hpp:83-88 | Threads that each make a run of hits end with buffers holding exactly that many hits. |
| `Profiling.Conservation` | kotlin-native/runtime/src/main/cpp/profiler/Profiler.hpp:79-111 | Every hit made on any thread is in the aggregate once all threads have published. |
| `Profiling.Report` | kotlin-native/runtime/src/main/cpp/profiler/Profiler.hpp:113-120 | A disabled event kind prints nothing. |
| `Profiling.ReportNothingIffEmpty` | kotlin-native/runtime/src/main/cpp/profiler/Profiler.hpp:113-120 | An enabled kind prints no line exactly when nothing was aggregated. |
| `Profiling.DisabledRecordsNothing` | kotlin-native/runtime/src/main/cpp/profiler/Profiler.hpp:160-165 | With the kind disabled, any sequence of hits leaves the buffer unchanged. |
| `Profiling.HitEach` | kotlin-native/runtime/src/main/cpp/profiler/Profiler.hpp:160-165 | With the kind enabled, n hits add n to the buffer's total. |
| `Profiling.PublishKinds` | kotlin-native/runtime/src/main/cpp/profiler/Profiler.hpp:140-143 | The facade publishes both kinds. Each kind conserves its hits and empties its buffer when enabled, and a disabled kind is untouched. |
| `Profiling.ReportKinds` | kotlin-native/runtime/src/main/cpp/profiler/Profiler.hpp:149-152 | The allocation report comes first and the safe-point report follows it. A disabled kind contributes nothing. |
| `ProfileReporter.EntriesOnLevel` | kotlin-native/runtime/src/main/cpp/profiler/ProfileReporter.hpp:38 | Each entry found at the level is listed once. Every record's entry there is listed, and nothing else is. |
| `ProfileReporter.RecordsOfEntry` | kotlin-native/runtime/src/main/cpp/profiler/ProfileReporter.hpp:39-41 | An entry's group is exactly the records that have that entry at the level. |
| `ProfileReporter.Buckets` | kotlin-native/runtime/src/main/cpp/profiler/ProfileReporter.hpp:43-47 | Each entry is paired with the sum of the full-map counts of its group. |
| `ProfileReporter.BucketsPartition` | kotlin-native/runtime/src/main/cpp/profiler/ProfileReporter.hpp:43-47 | The bucket totals of a level add up to the hits of all the records passed to it: each record lands in exactly one bucket. |
| `ProfileReporter.SortByHits` | kotlin-native/runtime/src/main/cpp/profiler/ProfileReporter.hpp:49 | The buckets come out in non-increasing order of hits and as a permutation of the input. |
| `ProfileReporter.SortByHitsStable` | kotlin-native/runtime/src/main/cpp/profiler/ProfileReporter.hpp:49 | Buckets with equal hits keep their relative order; this is the model's tie-break. |
| `ProfileReporter.SortByHitsDistinct` | kotlin-native/runtime/src/main/cpp/profiler/ProfileReporter.hpp:49 | Sorting keeps the buckets' entries distinct. |
| `ProfileReporter.SortedBuckets` | kotlin-native/runtime/src/main/cpp/profiler/ProfileReporter.hpp:37-49 | A level's buckets are sorted and have distinct entries that occur at the level. Each carries its group's hits, every record is covered, and the totals sum to the level's hits. |
| `ProfileReporter.Deeper` | kotlin-native/runtime/src/main/cpp/profiler/ProfileReporter.hpp:62-65 | The corrected descent: exactly those records of the group that have an entry on the next level. |
| `ProfileReporter.SubentriesAsWritten` | kotlin-native/runtime/src/main/cpp/profiler/ProfileReporter.hpp:62-65 | The descent as written. When it goes on, it passes the whole group on, and the group's first record has an entry below this level. When it stops, that first record has none. |
| `ProfileReporter.SubentriesAsWrittenOverruns` | kotlin-native/runtime/src/main/cpp/profiler/ProfileReporter.hpp:63-65 | In a group whose first record is the longer one, the written descent reads past the end of a shorter record. |
| `ProfileReporter.SubentriesAsWrittenDrops` | kotlin-native/runtime/src/main/cpp/profiler/ProfileReporter.hpp:63-65 | In a group whose first record is the shorter one, the written descent stops and drops the longer record's next frame. The corrected descent keeps it. |
| `ProfileReporter.SubentriesAgree` | kotlin-native/runtime/src/main/cpp/profiler/ProfileReporter.hpp:63-65 | When no record's path is a proper prefix of another's, the written and the corrected descent agree. |
| `ProfileReporter.NodeOf` | kotlin-native/runtime/src/main/cpp/profiler/ProfileReporter.hpp:56-68 | A printed node carries its bucket's entry and hits. |
| `ProfileReporter.Children` | kotlin-native/runtime/src/main/cpp/profiler/ProfileReporter.hpp:51-53 | There is one node per bucket, in the sorted order. |
| `ProfileReporter.LevelHits` | kotlin-native/runtime/src/main/cpp/profiler/ProfileReporter.hpp:43-53 | The nodes printed on a level account for every hit of the records passed to it. |
| `ProfileReporter.Level` | kotlin-native/runtime/src/main/cpp/profiler/ProfileReporter.hpp:37-54 | No contract of its own: `ProfileReporter.LevelHits`, `ProfileReporter.LevelWellFormed` and `ProfileReporter.LevelPaths` state what it prints. |
| `ProfileReporter.LevelWellFormed` | kotlin-native/runtime/src/main/cpp/profiler/ProfileReporter.hpp:37-68 | Throughout the tree, siblings have distinct entries in non-increasing order of hits. A node's children together never hold more hits than the node. |
| `ProfileReporter.LevelPaths` | kotlin-native/runtime/src/main/cpp/profiler/ProfileReporter.hpp:37-68 | A path is printed below a level exactly when some record continues it from that level. |
| `ProfileReporter.ReportTreeTotal` | kotlin-native/runtime/src/main/cpp/profiler/ProfileReporter.hpp:28-31 | The top-level nodes account for every hit in the count map. |
| `ProfileReporter.ReportTree` | kotlin-native/runtime/src/main/cpp/profiler/ProfileReporter.hpp:28-31 | No contract of its own: `ProfileReporter.ReportTreeTotal`, `ProfileReporter.ReportTreePaths` and `ProfileReporter.ReportTreeWellFormed` state the tree `report` prints. |
| `ProfileReporter.ReportTreePaths` | kotlin-native/runtime/src/main/cpp/profiler/ProfileReporter.hpp:28-31 | A path is printed exactly when it is a prefix of some record's path. |
| `ProfileReporter.ReportTreeWellFormed` | kotlin-native/runtime/src/main/cpp/profiler/ProfileReporter.hpp:28-31 | The whole tree is sorted and distinct among siblings, and a node's children together never outweigh it. |
| `ProfileReporter.Lines` | kotlin-native/runtime/src/main/cpp/profiler/ProfileReporter.hpp:64-66 | There are lines exactly when there are nodes, and the first node's line comes first at the starting depth. No line is shallower than that depth, and none is more than one level deeper than the line before it. |
| `ProfileReporter.LinesCount` | kotlin-native/runtime/src/main/cpp/profiler/ProfileReporter.hpp:51-67 | The tree prints exactly one line per node: the number of lines is the number of nodes, subtrees included. |
| `ProfileReporter.HasPathReaches` | kotlin-native/runtime/src/main/cpp/profiler/ProfileReporter.hpp:51-67 | A path is in the tree exactly when it leads to some node. |
| `ProfileReporter.LinesCoverPaths` | kotlin-native/runtime/src/main/cpp/profiler/ProfileReporter.hpp:51-67 | The node a path leads to is printed on a line at the path's depth, with that node's entry and hits. |
| `ProfileReporter.LinesHavePaths` | kotlin-native/runtime/src/main/cpp/profiler/ProfileReporter.hpp:51-67 | Every printed line is the node some path leads to, at that path's depth, with that node's entry and hits. |
| `ProfileReporter.PathsArePrinted` | kotlin-native/runtime/src/main/cpp/profiler/ProfileReporter.hpp:51-67 | Every path of the tree is printed at its depth, with the last entry and the hits of the node it leads to. |
| `ProfileReporter.LinesArePaths` | kotlin-native/runtime/src/main/cpp/profiler/ProfileReporter.hpp:51-67 | Every printed line is a path of the tree, printed at that path's depth. |
| `ProfileReporter.ReportPrintsPrefixes` | kotlin-native/runtime/src/main/cpp/profiler/ProfileReporter.hpp:28-67 | Every prefix of a recorded path is printed, on a line at depth one less than its length, with its last entry and its node's hits. |
| `ProfileReporter.ReportLinesArePrefixes` | kotlin-native/runtime/src/main/cpp/profiler/ProfileReporter.hpp:28-67 | Every printed line is the node of a prefix of some recorded path, at that prefix's depth, with its last entry. |
| `ProfileReporter.RenderLine` | kotlin-native/runtime/src/main/cpp/profiler/ProfileReporter.hpp:76-100 | A printed line starts with two spaces per level followed by '[', and ends with a newline. |
| `ProfileReporter.RenderLineRoundTrip` | kotlin-native/runtime/src/main/cpp/profiler/ProfileReporter.hpp:77-84 | A line's indentation and hit count can be read back from its text. |
| `ProfileReporter.FrameLines` | kotlin-native/runtime/src/main/cpp/profiler/ProfileReporter.hpp:89-97 | A frame that resolves to several lines prints each on a line of its own. Every line after the first is indented to the column past the indentation, the bracketed hits and a space. |
| `ProfileReporter.RenderLines` | kotlin-native/runtime/src/main/cpp/profiler/ProfileReporter.hpp:51-53 | Each `Line` is rendered to exactly one string, in order, by `RenderLine`. |
| `ProfileReporter.ReportEmpty` | kotlin-native/runtime/src/main/cpp/profiler/ProfileReporter.hpp:28-31 | The report prints nothing exactly when the count map is empty. |
| `ProfileReporter.Report` | kotlin-native/runtime/src/main/cpp/profiler/ProfileReporter.hpp:28-31 | No contract of its own: `ProfileReporter.ReportEmpty`, `ProfileReporter.RenderLines`, `ProfileReporter.LinesCount`, `ProfileReporter.ReportPrintsPrefixes` and `ProfileReporter.ReportLinesArePrefixes` state what it prints. |
| `ReportScenarios.SingleLevel` | kotlin-native/runtime/src/main/cpp/profiler/ProfileReporter.hpp:37-68 | A single record prints as a chain: one node per remaining entry, each with the record's count. |
| `ReportScenarios.SingleRecordTree` | kotlin-native/runtime/src/main/cpp/profiler/ProfileReporter.hpp:28-31 | A map with one record prints its whole path as a chain. |
| `ReportScenarios.TwoLevel` | kotlin-native/runtime/src/main/cpp/profiler/ProfileReporter.hpp:37-54 | Two records that differ at a level print as two chains, the heavier first. |
| `ReportScenarios.PairTree` | kotlin-native/runtime/src/main/cpp/profiler/ProfileReporter.hpp:28-54 | Two records of different events print as two top-level chains in the sorted order. |
| `ReportScenarios.TwoThreadsOneStack` | kotlin-native/runtime/src/main/cpp/profiler/Profiler.hpp:83-111 | Two threads allocating from the same stack give one record counted twice. Frames past the backtrace depth of 2 are cut off. |
| `ReportScenarios.TwoThreadsOneStackLines` | kotlin-native/runtime/src/main/cpp/profiler/ProfileReporter.hpp:28-68 | That aggregate prints as the event and its two frames, nested, each with 2 hits. |
| `ReportScenarios.TieKeepsEnumerationOrder` | kotlin-native/runtime/src/main/cpp/profiler/ProfileReporter.hpp:49 | Tied events print in the order the map enumerates them. |
| `ReportScenarios.HeavierFirst` | kotlin-native/runtime/src/main/cpp/profiler/ProfileReporter.hpp:49 | The heavier event prints first whatever the enumeration order. |
| `ReportScenarios.EmptyPrintsNothing` | kotlin-native/runtime/src/main/cpp/profiler/Profiler.hpp:113-120 | A profiler nothing was published to prints no lines. |
| `BirFlags.SignedValue` | compiler/ir/bir/tree/src/org/jetbrains/kotlin/bir/BirElementBase.kt:61 | `Byte.toInt()` sign-extends: the value lies in -128..127 and agrees with the byte modulo 256. |
| `BirFlags.SetFlag` | compiler/ir/bir/tree/src/org/jetbrains/kotlin/bir/BirElementBase.kt:56-58 | The flag's bits become all set or all clear, and every other bit is kept. |
| `BirFlags.SetThenHas` | compiler/ir/bir/tree/src/org/jetbrains/kotlin/bir/BirElementBase.kt:53-58 | After setting a flag to a value, `hasFlag` gives that value. |
| `BirFlags.HasFlag` | compiler/ir/bir/tree/src/org/jetbrains/kotlin/bir/BirElementBase.kt:53-54 | No contract of its own: `BirFlags.SetThenHas` states that it reads back what `setFlag` wrote. |
| `BirFlags.SetFlagOthers` | compiler/ir/bir/tree/src/org/jetbrains/kotlin/bir/BirElementBase.kt:53-58 | Setting a flag does not change any flag with disjoint bits. |
| `BirFlags.ContainingListId` | compiler/ir/bir/tree/src/org/jetbrains/kotlin/bir/BirElementBase.kt:60-61 | The id is the top three bits of the sign-extended byte: a value in -4..3. |
| `BirFlags.SetContainingListId` | compiler/ir/bir/tree/src/org/jetbrains/kotlin/bir/BirElementBase.kt:62-63 | Writing an id keeps the low five bits and stores the id modulo 8 in the top three. |
| `BirFlags.ListIdKeepsFlags` | compiler/ir/bir/tree/src/org/jetbrains/kotlin/bir/BirElementBase.kt:60-64 | Writing the id keeps every `FLAG_*` flag. |
| `BirFlags.FlagKeepsListId` | compiler/ir/bir/tree/src/org/jetbrains/kotlin/bir/BirElementBase.kt:56-61 | Setting a flag among the low five bits keeps the id. |
| `BirFlags.ListIdRoundTrip` | compiler/ir/bir/tree/src/org/jetbrains/kotlin/bir/BirElementBase.kt:60-64 | An id in 0..3 reads back as written. Any other id reads back as its value modulo 8, minus 8 when that is 4 or more. |
| `BirFlags.ContainingList` | compiler/ir/bir/tree/src/org/jetbrains/kotlin/bir/BirElementBase.kt:108-112 | There is no containing list exactly when the id is 0 or there is no parent. Otherwise the parent is asked for the list with that id. |
| `BirTree.IsAncestorOf` | compiler/ir/bir/tree/src/org/jetbrains/kotlin/bir/BirElementBase.kt:67-79 | True exactly when both elements are in the same database and the first is among the parents of the second. |
| `BirTree.AncestryIsStrict` | compiler/ir/bir/tree/src/org/jetbrains/kotlin/bir/BirElementBase.kt:72-78 | No element is its own ancestor, and ancestry never runs both ways. |
| `BirTree.AncestryTransitive` | compiler/ir/bir/tree/src/org/jetbrains/kotlin/bir/BirElementBase.kt:72-78 | An ancestor of an ancestor is an ancestor. |
| `BirDynamicProperties.Used` | compiler/ir/bir/tree/src/org/jetbrains/kotlin/bir/BirElementBase.kt:215-219 | The occupied prefix ends at the first null key: every slot before it has a key, and the slot at its end has none. |
| `BirDynamicProperties.ContainsAt` | compiler/ir/bir/tree/src/org/jetbrains/kotlin/bir/BirElementBase.kt:215-221 | A key is in the map exactly when some slot of the occupied prefix holds it. |
| `BirDynamicProperties.Live` | compiler/ir/bir/tree/src/org/jetbrains/kotlin/bir/BirElementBase.kt:244-247 | Pruning never adds entries, and every entry it keeps has a key that is not outdated. |
| `BirDynamicProperties.RemoveAtAsWrittenPrefix` | compiler/ir/bir/tree/src/org/jetbrains/kotlin/bir/BirElementBase.kt:232-249 | The removal as written matches the intended compaction up to and including the new null key. Only the slots past it differ. |
| `BirDynamicProperties.Shift` | compiler/ir/bir/tree/src/org/jetbrains/kotlin/bir/BirElementBase.kt:232-249 | The shifting loop keeps the array's size. It ends with the write position before the read position that hit the first null key. |
| `BirDynamicProperties.RemoveAtAsWritten` | compiler/ir/bir/tree/src/org/jetbrains/kotlin/bir/BirElementBase.kt:232-249 | The removal as written keeps the array's size. `BirDynamicProperties.RemoveAtAsWrittenPrefix` and `BirDynamicProperties.RemovedKeyComesBack` state what it leaves behind. |
| `BirDynamicProperties.RemoveAt` | compiler/ir/bir/tree/src/org/jetbrains/kotlin/bir/BirElementBase.kt:232-249 | The corrected removal keeps the array's size. `BirDynamicProperties.RemoveAtIsCompact` and `BirDynamicProperties.CompactSound` state what it leaves. |
| `BirDynamicProperties.RemoveAtIsCompact` | compiler/ir/bir/tree/src/org/jetbrains/kotlin/bir/BirElementBase.kt:232-249 | The corrected removal leaves the slots before the removed one, then the live slots after it, then free slots. |
| `BirDynamicProperties.CompactSound` | compiler/ir/bir/tree/src/org/jetbrains/kotlin/bir/BirElementBase.kt:232-249 | The removal keeps a valid map valid and the same size. The removed key is gone, and every other valid key reads as before. |
| `BirDynamicProperties.FindFrom` | compiler/ir/bir/tree/src/org/jetbrains/kotlin/bir/BirElementBase.kt:212-230 | The corrected lookup keeps the array's size. A found slot holds the key, and a reported free slot is at most the array's end. |
| `BirDynamicProperties.FindFromAsWritten` | compiler/ir/bir/tree/src/org/jetbrains/kotlin/bir/BirElementBase.kt:212-230 | The same for the lookup as written. |
| `BirDynamicProperties.FindFromSound` | compiler/ir/bir/tree/src/org/jetbrains/kotlin/bir/BirElementBase.kt:212-230 | The corrected lookup keeps a valid map valid and changes no valid key's value. It finds the key exactly when the map holds it; otherwise it reports the first free slot. |
| `BirDynamicProperties.FindLoop` | compiler/ir/bir/tree/src/org/jetbrains/kotlin/bir/BirElementBase.kt:212-230 | The loop computes the corrected lookup. |
| `BirDynamicProperties.Initial` | compiler/ir/bir/tree/src/org/jetbrains/kotlin/bir/BirElementBase.kt:188-194 | A new array map has two slots (four cells), exactly one of them occupied, and it is valid. |
| `BirDynamicProperties.Add` | compiler/ir/bir/tree/src/org/jetbrains/kotlin/bir/BirElementBase.kt:196-210 | A null value stores nothing. Otherwise the array keeps its size, or doubles when the slot lies past its end. |
| `BirDynamicProperties.AddSound` | compiler/ir/bir/tree/src/org/jetbrains/kotlin/bir/BirElementBase.kt:196-210 | Storing a new key at the first free slot gives a valid map holding the new pair. Every other key reads as before. |
| `BirDynamicProperties.ReplaceSound` | compiler/ir/bir/tree/src/org/jetbrains/kotlin/bir/BirElementBase.kt:145-148 | Overwriting the value after a key changes that key's value only. |
| `BirDynamicProperties.Get` | compiler/ir/bir/tree/src/org/jetbrains/kotlin/bir/BirElementBase.kt:115-126 | Fails exactly for an outdated token. With no array it reads nothing and creates none. |
| `BirDynamicProperties.GetSound` | compiler/ir/bir/tree/src/org/jetbrains/kotlin/bir/BirElementBase.kt:115-126 | Get returns the value stored for the key, or none. The pruned map stays valid with every valid key's value unchanged. |
| `BirDynamicProperties.Set` | compiler/ir/bir/tree/src/org/jetbrains/kotlin/bir/BirElementBase.kt:128-157 | Fails exactly for an outdated token. |
| `BirDynamicProperties.SetSound` | compiler/ir/bir/tree/src/org/jetbrains/kotlin/bir/BirElementBase.kt:128-157 | After a set the key reads back the new value, or none for null, and every other valid key reads as before. Storing a value returns the previous one, null when the key was absent; storing null returns null. |
| `BirDynamicProperties.GetOrPut` | compiler/ir/bir/tree/src/org/jetbrains/kotlin/bir/BirElementBase.kt:159-181 | Fails exactly for an outdated token. |
| `BirDynamicProperties.GetOrPutSound` | compiler/ir/bir/tree/src/org/jetbrains/kotlin/bir/BirElementBase.kt:159-181 | `compute` is called exactly when the key is absent. The result is the stored value, or else the computed one, and it is what the key reads afterwards. Other keys are unchanged. |
| `BirDynamicProperties.GetAsWritten` | compiler/ir/bir/tree/src/org/jetbrains/kotlin/bir/BirElementBase.kt:115-126 | The get as written fails exactly for an outdated token. |
| `BirDynamicProperties.SetAsWritten` | compiler/ir/bir/tree/src/org/jetbrains/kotlin/bir/BirElementBase.kt:128-157 | The set as written fails exactly for an outdated token, and any array it leaves is non-empty. |
| `BirDynamicProperties.RemovedKeyComesBack` | compiler/ir/bir/tree/src/org/jetbrains/kotlin/bir/BirElementBase.kt:232-249 | The removal as written leaves a stale copy past the null key. A later insertion exposes it, and a removed key then reads its old value again. |
| `BirDynamicProperties.SetIsNotSeen` | compiler/ir/bir/tree/src/org/jetbrains/kotlin/bir/BirElementBase.kt:221-227 | The lookup as written misses the entry moved into the pruned slot. The set stores a duplicate, and get returns the old value. |
| `BirDynamicProperties.StartsAreReachable` | compiler/ir/bir/tree/src/org/jetbrains/kotlin/bir/BirElementBase.kt:128-157 | The arrays the two examples start from are what storing their keys in order builds. |
| `BirBackReferences.Count` | compiler/ir/bir/tree/src/org/jetbrains/kotlin/bir/BirElementBase.kt:348-360 | The count is the first null slot, or the size of a full array. |
| `BirBackReferences.Elements` | compiler/ir/bir/tree/src/org/jetbrains/kotlin/bir/BirElementBase.kt:366-377 | The registered elements are the occupied slots, in order. |
| `BirBackReferences.Grown` | compiler/ir/bir/tree/src/org/jetbrains/kotlin/bir/BirElementBase.kt:308-313 | Growing an array of at least two slots (size·3/2) always makes it strictly larger. |
| `BirBackReferences.Register` | compiler/ir/bir/tree/src/org/jetbrains/kotlin/bir/BirElementBase.kt:264-324 | The registered flag is always set on the referrer. The element is added once: a second copy is never stored, and a full array grows to 3/2 its size first. |
| `BirBackReferences.RegisterManySound` | compiler/ir/bir/tree/src/org/jetbrains/kotlin/bir/BirElementBase.kt:285-320 | In the array case the search and the store give the old elements, plus the new one if it was absent. The array stays packed and free of duplicates. |
| `BirBackReferences.RegisterTwice` | compiler/ir/bir/tree/src/org/jetbrains/kotlin/bir/BirElementBase.kt:289-307 | Registering the same element twice leaves the elements as the first registration did. |
| `BirBackReferences.Remove` | compiler/ir/bir/tree/src/org/jetbrains/kotlin/bir/BirElementBase.kt:326-346 | Succeeds exactly for an index below the count of an array, or for index 0 of a single element. The single case leaves no references, and the array keeps its size. |
| `BirBackReferences.RemoveSound` | compiler/ir/bir/tree/src/org/jetbrains/kotlin/bir/BirElementBase.kt:334-338 | Removal takes out exactly the element at the index: the last element takes its place, the others stay, and no duplicate appears. |
| `SetupConfiguration.Rejected` | kotlin-native/backend.native/compiler/ir/backend.native/src/org/jetbrains/kotlin/backend/konan/SetupConfiguration.kt:645-655 | The refused items in input order: each one is in the input and refused, and every refused input item is there. |
| `SetupConfiguration.Rejections` | kotlin-native/backend.native/compiler/ir/backend.native/src/org/jetbrains/kotlin/backend/konan/SetupConfiguration.kt:645-655 | Exactly one error per refused item, in order, each carrying that item's message. |
| `SetupConfiguration.RejectionsNoneIffAccepted` | kotlin-native/backend.native/compiler/ir/backend.native/src/org/jetbrains/kotlin/backend/konan/SetupConfiguration.kt:645-655 | Nothing is reported exactly when every item is accepted. |
| `SetupConfiguration.CollectKeys` | kotlin-native/backend.native/compiler/ir/backend.native/src/org/jetbrains/kotlin/backend/konan/SetupConfiguration.kt:760-768 | A key is in the parsed map exactly when some accepted item has it. |
| `SetupConfiguration.Collect` | kotlin-native/backend.native/compiler/ir/backend.native/src/org/jetbrains/kotlin/backend/konan/SetupConfiguration.kt:645-656 | No contract of its own: `SetupConfiguration.CollectKeys`, `SetupConfiguration.CollectLastWins` and `SetupConfiguration.CollectedFrom` state the map `mapNotNull { ... }.toMap()` builds. |
| `SetupConfiguration.CollectLastWins` | kotlin-native/backend.native/compiler/ir/backend.native/src/org/jetbrains/kotlin/backend/konan/SetupConfiguration.kt:760-768 | A key maps to the value of the last accepted item with that key. |
| `SetupConfiguration.KeyValueEntry` | kotlin-native/backend.native/compiler/ir/backend.native/src/org/jetbrains/kotlin/backend/konan/SetupConfiguration.kt:761-766 | An item is accepted exactly when its first '=' is past the start. The key (non-empty, free of '=') and the value put back together with '=' give the item. |
| `SetupConfiguration.KeyValueRoundTrip` | kotlin-native/backend.native/compiler/ir/backend.native/src/org/jetbrains/kotlin/backend/konan/SetupConfiguration.kt:761-763 | A non-empty key without '=' and any value, '=' included, parse back from `key=value`. |
| `SetupConfiguration.ParseKeyValuePairs` | kotlin-native/backend.native/compiler/ir/backend.native/src/org/jetbrains/kotlin/backend/konan/SetupConfiguration.kt:757-768 | A missing argument gives no map and no diagnostics. Otherwise every key of the map comes from an accepted item. |
| `SetupConfiguration.SplitPair` | kotlin-native/backend.native/compiler/ir/backend.native/src/org/jetbrains/kotlin/backend/konan/SetupConfiguration.kt:646-654 | Splitting gives two parts exactly when the separator occurs once. The parts, free of it, rebuild the item. |
| `SetupConfiguration.SplitPairRoundTrip` | kotlin-native/backend.native/compiler/ir/backend.native/src/org/jetbrains/kotlin/backend/konan/SetupConfiguration.kt:646-654 | Two separator-free parts joined by the separator split back into themselves. |
| `SetupConfiguration.ParseCachedLibraries` | kotlin-native/backend.native/compiler/ir/backend.native/src/org/jetbrains/kotlin/backend/konan/SetupConfiguration.kt:642-656 | A missing argument gives an empty map. Every pair of the map is an item `library,cache`. |
| `SetupConfiguration.ParseDebugPrefixMap` | kotlin-native/backend.native/compiler/ir/backend.native/src/org/jetbrains/kotlin/backend/konan/SetupConfiguration.kt:701-712 | A missing argument gives an empty map. Every pair of the map is an item `old=new`. |
| `SetupConfiguration.CollectedFrom` | kotlin-native/backend.native/compiler/ir/backend.native/src/org/jetbrains/kotlin/backend/konan/SetupConfiguration.kt:645-656 | A pair parsed by splitting is, joined again, one of the items. |
| `SetupConfiguration.KeyValueAndDebugPrefix` | kotlin-native/backend.native/compiler/ir/backend.native/src/org/jetbrains/kotlin/backend/konan/SetupConfiguration.kt:704-712 | Where both parsers accept an item with a non-empty key they agree. `a=b=c` is a property but not a prefix mapping; `=x` is the other way round. |
| `SetupConfiguration.ParseBackendThreads` | kotlin-native/backend.native/compiler/ir/backend.native/src/org/jetbrains/kotlin/backend/konan/SetupConfiguration.kt:673-679 | Succeeds exactly when the text is a 32-bit integer that is not negative. |
| `SetupConfiguration.BackendThreadsRoundTrip` | kotlin-native/backend.native/compiler/ir/backend.native/src/org/jetbrains/kotlin/backend/konan/SetupConfiguration.kt:673-679 | Every non-negative `Int` written out parses back to itself; a negative one is refused as negative. |
| `SetupConfiguration.BackendThreads` | kotlin-native/backend.native/compiler/ir/backend.native/src/org/jetbrains/kotlin/backend/konan/SetupConfiguration.kt:218-227 | Accepted exactly when the argument parses; otherwise the parser's message is kept. 0 becomes the number of available processors, and any other count is kept. The count is positive whenever a processor is available. It warns exactly when the count exceeds the processors. |
| `SetupConfiguration.ThreadCountDiagnostics` | kotlin-native/backend.native/compiler/ir/backend.native/src/org/jetbrains/kotlin/backend/konan/SetupConfiguration.kt:221-226 | A log line exactly when more than one thread runs. A warning exactly when the threads outnumber the processors. Nothing else. |
| `SetupConfiguration.BackendThreadsWarning` | kotlin-native/backend.native/compiler/ir/backend.native/src/org/jetbrains/kotlin/backend/konan/SetupConfiguration.kt:218-226 | The warning appears exactly when the requested count exceeds the processors, so asking for 0 never warns. |
| `SetupConfiguration.SelectBitcodeEmbeddingMode` | kotlin-native/backend.native/compiler/ir/backend.native/src/org/jetbrains/kotlin/backend/konan/SetupConfiguration.kt:586-603 | The marker flag wins, then full embedding, else none. There is one strong warning exactly when both flags are given. |
| `SetupConfiguration.SelectExportedLibraries` | kotlin-native/backend.native/compiler/ir/backend.native/src/org/jetbrains/kotlin/backend/konan/SetupConfiguration.kt:605-622 | The libraries are kept exactly when there are none or the output is a framework or a native library. Otherwise they are dropped with one diagnostic. |
| `SetupConfiguration.SelectIncludes` | kotlin-native/backend.native/compiler/ir/backend.native/src/org/jetbrains/kotlin/backend/konan/SetupConfiguration.kt:624-640 | The includes are kept exactly when there are none or the output is not a library. Otherwise they are dropped with one diagnostic. |
| `SetupConfiguration.KindNameIdentifies` | kotlin-native/backend.native/compiler/ir/backend.native/src/org/jetbrains/kotlin/backend/konan/SetupConfiguration.kt:616 | When no `OtherKind` carries a named kind's name, two kinds with the same lower-case name are the same kind, and the other way round. |
| `SetupConfiguration.Update` | kotlin-native/backend.native/compiler/ir/backend.native/src/org/jetbrains/kotlin/backend/konan/SetupConfiguration.kt:521-525 | The block sees the current value. A value it returns is stored and returned; null leaves the configuration as it was. Other keys are never touched. |
| `SetupConfiguration.UpdateOrDefault` | kotlin-native/backend.native/compiler/ir/backend.native/src/org/jetbrains/kotlin/backend/konan/SetupConfiguration.kt:516-518 | `it ?: default` keeps a set value and otherwise stores the default. Doing it twice changes nothing more. |
| `Version.BuildTail` | kotlin-native/backend.native/compiler/ir/backend.native/src/org/jetbrains/kotlin/backend/konan/SetupConfiguration.kt:531 | The optional build group and the end of input match exactly the empty text or '-' and digits. The digits are the group. |
| `Version.MetaAlpha` | kotlin-native/backend.native/compiler/ir/backend.native/src/org/jetbrains/kotlin/backend/konan/SetupConfiguration.kt:531 | The meta group's first alternative gives a non-empty meta. With the build, it rebuilds the text. |
| `Version.MetaDashed` | kotlin-native/backend.native/compiler/ir/backend.native/src/org/jetbrains/kotlin/backend/konan/SetupConfiguration.kt:531 | The second alternative's meta and build rebuild the text. An empty meta leaves the whole text to the build group. |
| `Version.IsRelease` | kotlin-native/backend.native/compiler/ir/backend.native/src/org/jetbrains/kotlin/backend/konan/SetupConfiguration.kt:529-536 | Fails exactly when the version does not match. Otherwise it is a release exactly when meta and build are both empty. |
| `Version.VersionGroups` | kotlin-native/backend.native/compiler/ir/backend.native/src/org/jetbrains/kotlin/backend/konan/SetupConfiguration.kt:531-532 | No contract of its own: the major and minor digit runs of the pattern, then `Version.AfterMinor`. `Version.IsRelease`, `Version.VersionParts` and `Version.ReleasesArePlain` state what it accepts. |
| `Version.AfterMinor` | kotlin-native/backend.native/compiler/ir/backend.native/src/org/jetbrains/kotlin/backend/konan/SetupConfiguration.kt:531-532 | No contract of its own: the optional patch group, taken first, then the tail. `Version.NoPatch`, `Version.WithPatch` and `Version.ReleaseRest` state it. |
| `Version.TailGroups` | kotlin-native/backend.native/compiler/ir/backend.native/src/org/jetbrains/kotlin/backend/konan/SetupConfiguration.kt:531-532 | No contract of its own: the meta alternatives in order, then the build group. `Version.TailIsRelease` states when both groups are empty. |
| `Version.TailIsRelease` | kotlin-native/backend.native/compiler/ir/backend.native/src/org/jetbrains/kotlin/backend/konan/SetupConfiguration.kt:531-535 | After the numbers, meta and build are both empty exactly when nothing or a lone '-' follows. |
| `Version.PlainVersionsAreReleases` | kotlin-native/backend.native/compiler/ir/backend.native/src/org/jetbrains/kotlin/backend/konan/SetupConfiguration.kt:529-536 | `major.minor` and `major.minor.patch` are releases. |
| `Version.ReleasesArePlain` | kotlin-native/backend.native/compiler/ir/backend.native/src/org/jetbrains/kotlin/backend/konan/SetupConfiguration.kt:529-536 | The converse: every release is `major.minor`, optionally `.patch`, then at most one '-'. |
| `Version.VersionParts` | kotlin-native/backend.native/compiler/ir/backend.native/src/org/jetbrains/kotlin/backend/konan/SetupConfiguration.kt:531-532 | A matching version is its major digits, a '.', its minor digits and a rest that the remaining groups match. |
| `Version.ReleaseRest` | kotlin-native/backend.native/compiler/ir/backend.native/src/org/jetbrains/kotlin/backend/konan/SetupConfiguration.kt:531-532 | After the minor digits, a release has only an optional `.patch` and at most one '-'. |
| `Version.BuildIsNotRelease` | kotlin-native/backend.native/compiler/ir/backend.native/src/org/jetbrains/kotlin/backend/konan/SetupConfiguration.kt:529-536 | `major.minor.patch-build` is not a release. |
| `Version.BetaExample` | kotlin-native/backend.native/compiler/ir/backend.native/src/org/jetbrains/kotlin/backend/konan/SetupConfiguration.kt:531-532 | `-Beta-123` gives meta `Beta` and build `123`. |
| `Version.CandidateExample` | kotlin-native/backend.native/compiler/ir/backend.native/src/org/jetbrains/kotlin/backend/konan/SetupConfiguration.kt:531-532 | `-RC2` gives meta `RC2` and no build. |
| `Version.DashedExample` | kotlin-native/backend.native/compiler/ir/backend.native/src/org/jetbrains/kotlin/backend/konan/SetupConfiguration.kt:531-532 | `-dev-google-pr-42` gives meta `dev-google-pr` and build `42`. |
| `Version.MalformedVersion` | kotlin-native/backend.native/compiler/ir/backend.native/src/org/jetbrains/kotlin/backend/konan/SetupConfiguration.kt:532-533 | `1.x` cannot be parsed. |
| `OptimizationPipeline.CpuModel` | kotlin-native/backend.native/compiler/ir/backend.native/src/org/jetbrains/kotlin/backend/konan/OptimizationPipeline.kt:43-50 | The platform's CPU is used when set. Otherwise the model is `generic`, with one warning that names the target. |
| `OptimizationPipeline.InlineThreshold` | kotlin-native/backend.native/compiler/ir/backend.native/src/org/jetbrains/kotlin/backend/konan/OptimizationPipeline.kt:55-65 | There is a threshold exactly when one is configured and parses as an `Int`. There is a warning exactly when one is configured but does not parse. |
| `OptimizationPipeline.InlineThresholdRoundTrip` | kotlin-native/backend.native/compiler/ir/backend.native/src/org/jetbrains/kotlin/backend/konan/OptimizationPipeline.kt:55-65 | A configured `Int` is read back as itself, without warning. |
| `OptimizationPipeline.RuntimeConfig` | kotlin-native/backend.native/compiler/ir/backend.native/src/org/jetbrains/kotlin/backend/konan/OptimizationPipeline.kt:73-91 | The runtime is optimised aggressively: no size level, no dead-global removal, no internalisation and nothing hidden. ObjC passes run on Apple targets. |
| `OptimizationPipeline.FinalConfig` | kotlin-native/backend.native/compiler/ir/backend.native/src/org/jetbrains/kotlin/backend/konan/OptimizationPipeline.kt:101-168 | Dead globals are always removed. Internalisation happens exactly in a closed world. Declarations are hidden exactly for a static cache. An inline threshold is only passed when optimising. |
| `OptimizationPipeline.FinalLevels` | kotlin-native/backend.native/compiler/ir/backend.native/src/org/jetbrains/kotlin/backend/konan/OptimizationPipeline.kt:112-129 | Release builds get the aggressive optimisation and codegen levels, and debug builds none. Otherwise both are the default. A size level is set exactly for Zephyr and WASM32, and it is the aggressive one. |
| `OptimizationPipeline.ConfigCpu` | kotlin-native/backend.native/compiler/ir/backend.native/src/org/jetbrains/kotlin/backend/konan/OptimizationPipeline.kt:43-53 | Both configurations use the platform's CPU, or `generic` when none is set. They use the platform's CPU features, or none. |
| `OptimizationPipeline.CpuFeatures` | kotlin-native/backend.native/compiler/ir/backend.native/src/org/jetbrains/kotlin/backend/konan/OptimizationPipeline.kt:52-53 | No contract of its own: `OptimizationPipeline.ConfigCpu` states the features both configurations carry. |
| `OptimizationPipeline.FinalOptimizationLevel` | kotlin-native/backend.native/compiler/ir/backend.native/src/org/jetbrains/kotlin/backend/konan/OptimizationPipeline.kt:112-116 | No contract of its own: `OptimizationPipeline.FinalLevels` states it case by case. |
| `OptimizationPipeline.FinalSizeLevel` | kotlin-native/backend.native/compiler/ir/backend.native/src/org/jetbrains/kotlin/backend/konan/OptimizationPipeline.kt:117-124 | No contract of its own: `OptimizationPipeline.FinalLevels` states when it is set. |
| `OptimizationPipeline.FinalCodegenLevel` | kotlin-native/backend.native/compiler/ir/backend.native/src/org/jetbrains/kotlin/backend/konan/OptimizationPipeline.kt:125-129 | No contract of its own: `OptimizationPipeline.FinalLevels` states it case by case. |
| `OptimizationPipeline.OptimizationFlag` | kotlin-native/backend.native/compiler/ir/backend.native/src/org/jetbrains/kotlin/backend/konan/OptimizationPipeline.kt:178-181 | The flag is `Os` exactly when a size level is set. Otherwise it is `O` and the level's value; it is always one of `Os`, `O0`, `O1`, `O3`. |
| `OptimizationPipeline.FlagNamesLevel` | kotlin-native/backend.native/compiler/ir/backend.native/src/org/jetbrains/kotlin/backend/konan/OptimizationPipeline.kt:11-15 | Without a size level the flag names the optimisation level uniquely; `Os` names none. |
| `OptimizationPipeline.MandatoryPasses` | kotlin-native/backend.native/compiler/ir/backend.native/src/org/jetbrains/kotlin/backend/konan/OptimizationPipeline.kt:269-278 | The only mandatory pass is `objc-arc-contract`, present exactly when ObjC passes are on. |
| `OptimizationPipeline.ModulePasses` | kotlin-native/backend.native/compiler/ir/backend.native/src/org/jetbrains/kotlin/backend/konan/OptimizationPipeline.kt:290 | The module pipeline is the single pass `default<flag>`. |
| `OptimizationPipeline.LtoPasses` | kotlin-native/backend.native/compiler/ir/backend.native/src/org/jetbrains/kotlin/backend/konan/OptimizationPipeline.kt:296-307 | `internalize` comes first exactly when internalising, then `globaldce` exactly when removing dead globals. `lto<flag>` is always last. |
| `OptimizationPipeline.Execute` | kotlin-native/backend.native/compiler/ir/backend.native/src/org/jetbrains/kotlin/backend/konan/OptimizationPipeline.kt:200-214 | Nothing runs for an empty pass list. Otherwise the description splits back at its commas into the passes. |
| `OptimizationPipeline.PassListRoundTrip` | kotlin-native/backend.native/compiler/ir/backend.native/src/org/jetbrains/kotlin/backend/konan/OptimizationPipeline.kt:214 | Comma-free pass names joined by commas split back into themselves. |
| `OptimizationPipeline.WhichPipelinesRun` | kotlin-native/backend.native/compiler/ir/backend.native/src/org/jetbrains/kotlin/backend/konan/OptimizationPipeline.kt:201 | The mandatory pipeline runs exactly when ObjC passes are on. The module and LTO pipelines always run. |
| `OptimizationPipeline.FinalFlag` | kotlin-native/backend.native/compiler/ir/backend.native/src/org/jetbrains/kotlin/backend/konan/OptimizationPipeline.kt:112-124 | Zephyr and WASM32 always get `Os`. Elsewhere the final flag is `O3` when optimising, `O0` for a debug build and `O1` otherwise. |
| `OptimizationPipeline.LtoPassesOfConfigs` | kotlin-native/backend.native/compiler/ir/backend.native/src/org/jetbrains/kotlin/backend/konan/OptimizationPipeline.kt:132-135 | The final LTO pipeline always removes dead globals and internalises exactly in a closed world. The runtime's LTO pipeline is just `lto<O3>`. |

## Left out

- Concurrency in the profiler. The mutex around the aggregate and thread-local ownership are not modelled: publishing is a sequential merge.
- Backtrace capture (`StackTrace<>::current`) is a foreign runtime call. The model takes the call stack as an input sequence and cuts it by skip count and depth.
- The traits' `enabled()` and `backtraceDepth()` are not shown. They are a `Traits` value given to every operation.
- The safe-point event traits are not part of this model. The `Profilers` facade is generic in its two event kinds.
- `CombineHash` and `hashOf` are not shown, so hashes are function parameters. Only consistency with equality is proved.
- Symbol resolution (`GetStackTraceStrings`) and console output are foreign calls. The resolver is a function parameter, and the report is the returned sequence of lines.
- The helpers `mapToVector`, `uniq`, `groupBy`, `associateWith` and `sortBy` are not shown. They are modelled by their evident meaning.
  - `uniq` keeps first occurrences.
  - `groupBy` keeps input order.
  - `sortBy` is stable, so ties print in the order the map enumerates its keys.
  - That enumeration order is an input.
- The reporter's tree descends with the corrected rule `ProfileReporter.Deeper`, not the written one. The two agree at every single descent step (`ProfileReporter.SubentriesAgree`) when no record's path is a proper prefix of another's. Agreement of the whole tree is not stated as one lemma; otherwise the written rule reads past the end of a shorter path (see Findings).
- `size_t` counters are unbounded naturals. Overflow of a hit count is not modelled.
- `ProfilerEvents.AllocationLabel`'s descriptor fields are read through a `describe` function, since `TypeInfo` is not part of this model.
- `getChildrenListById` is not part of this model. `BirFlags.ContainingList` gives the parent and the id it would be asked for.
- Database bookkeeping of BIR elements is not part of this model. This covers `getContainingDatabase`, forward-reference indexing, and the database and forward-reference filtering of `getBackReferences`. Its scan of the occupied slots is `BirBackReferences.Elements`. The element's database and parent are a given forest in `BirTree`.
- `SmallFixedPointFraction` is not part of this model. `backReferencesArrayFullness` is replaced by computing the first null slot directly.
- `copyDynamicProperties` copies an array. With immutable sequences, a copy is the value itself.
- The validity of a temporary property's token is an `outdated` predicate fixed for the duration of one operation.
- Keys are compared by identity in the source and by value in the model, which assumes distinct property keys are distinct values.
- The LLVM C API calls in the pipeline are not modelled:
  - target machine, relocation mode and code model;
  - the pass builder, timers and `initLLVMOnce`;
  - logging;
  - `makeVisibilityHiddenLikeLlvmInternalizePass`.
  
  `Execute` stops at the pass description that would be handed to LLVM.
- The rest of `SetupConfiguration.kt` and `KonanConfig.kt` only copies values into the configuration.
- `OptimizationPipeline.TargetName` renders a target as its `KonanTarget` name. `KonanTarget` is not part of this model.
- `CompilerOutputKind` is not part of this model beyond the kinds the helpers test. Other kinds carry their lower-case name.
- `SetupConfiguration.ParseBackendThreads` and `OptimizationPipeline.InlineThreshold`: `toIntOrNull` is modelled on ASCII digits with an optional sign. Kotlin also accepts other Unicode decimal digits.
- The diagnostics quote the option names (`-Xcached-library` and the others) as the constants they are built from would render them. The constants themselves are not shown.
- `ProfileReporter.Lines`: the lines are tied to the tree by `ProfileReporter.LinesCount` (one line per node) and by `ProfileReporter.LinesCoverPaths` and `ProfileReporter.LinesHavePaths` (each path's node is printed at the path's depth, and each line is such a node). That a path's line is the only one at its position is not stated as one lemma.
- `Profiling.Report` states only that a disabled kind prints nothing. What an enabled kind prints is stated by `ProfileReporter.ReportEmpty`, `ProfileReporter.ReportTreeTotal`, `ProfileReporter.ReportTreePaths`, `ProfileReporter.ReportTreeWellFormed`, and the line lemmas `ProfileReporter.LinesCount`, `ProfileReporter.ReportPrintsPrefixes` and `ProfileReporter.ReportLinesArePrefixes`.
- `BirDynamicProperties.Get`, `BirDynamicProperties.Set` and `BirDynamicProperties.GetOrPut` state only the failure on outdated tokens. Their effect on valid maps is stated by `GetSound`, `SetSound` and `GetOrPutSound`.

## Findings

| source | as written | input that shows it | evidently intended | confidence | as-written member | corrected member |
|---|---|---|---|---|---|---|
| kotlin-native/runtime/src/main/cpp/profiler/ProfileReporter.hpp:63-65 | Whether to print a deeper level is decided by the group's first record alone. The whole group is then passed on. | Records with backtraces `[1, 2]` and `[1]` for the same event reach level 1 in one group. With the longer first, level 2 indexes past the shorter record's path; with the shorter first, frame 2 is never printed. | Continue with exactly the records that have an entry on the next level. This matches the written rule when no path is a proper prefix of another. | medium, not executed | `ProfileReporter.SubentriesAsWritten`, shown by `ProfileReporter.SubentriesAsWrittenOverruns` and `ProfileReporter.SubentriesAsWrittenDrops` | `ProfileReporter.Deeper`, with `ProfileReporter.SubentriesAgree` and `ProfileReporter.LevelPaths` |
| compiler/ir/bir/tree/src/org/jetbrains/kotlin/bir/BirElementBase.kt:232-249 | The removal shifts later entries down, skipping outdated ones, and writes one null key. The slots between that key and the old end keep their stale entries. | Store A, B, C, then let B's phase end. Remove A: the result is `[C, null, C, null]`. Store D: `[C, D, C, null]`. Remove C, then read C: the old value of C comes back. | Clear every vacated slot, so that the map after removal holds exactly the earlier entries and the live later ones. | medium, not executed | `BirDynamicProperties.RemoveAtAsWritten`, shown by `BirDynamicProperties.RemovedKeyComesBack` and `BirDynamicProperties.RemoveAtAsWrittenPrefix` | `BirDynamicProperties.RemoveAt`, with `BirDynamicProperties.RemoveAtIsCompact` and `BirDynamicProperties.CompactSound` |
| compiler/ir/bir/tree/src/org/jetbrains/kotlin/bir/BirElementBase.kt:221-227 | After pruning at slot i, the lookup goes on at slot i + 1. The entry just moved into slot i is never compared. | Store B, then A, then let B's phase end. Setting A again does not find it and stores a second A; reading A then gives the first, old value. | Look at slot i again after pruning. | medium, not executed | `BirDynamicProperties.FindFromAsWritten`, shown by `BirDynamicProperties.SetIsNotSeen` | `BirDynamicProperties.FindFrom`, with `BirDynamicProperties.FindFromSound` |

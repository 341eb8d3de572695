# Verified models of uni-db

uni-db is an embedded graph database written in Rust, with a set of Python and Java programs
around it that guard its releases, caches, benchmarks and generated tables. This project models
the parts whose correctness rests on an argument rather than on an example, and proves that
argument. `dafny verify dfyconfig.toml` checks everything.

The engine:

* **Transactions** (`commit_registry`, `tx_store`, `tx_system`, `tx_anomalies`, `tx_registers`).
  Optimistic transactions with recorded read-sets, a bounded registry of recent commits, validation,
  merge and registration under one lock, snapshot restores and the fence that follows them, as a
  state machine in which any number of transactions interleave. Some commits change an item without
  conflict detection seeing it: pure-CRDT writes that carry something new, and deletions that take
  edges along. In every run a committed writer fits the serial order of the log if and only if, for
  each of its readings, the last such commit since then, if any, left what had been read. Runs in
  which each of the two costs serializability are constructed.
* **Replicated values** (`orset`, `rga`, `vc_register`, `crdts`, `clocks`, `bytes`). Merge laws, and runs of any
  number of replicas that exchange any old copies of their states in any order: the observed-remove
  set holds exactly the add-wins reading of what each replica has heard of; a growable array never
  reorders; the vector-clock register is not associative, and two replicas can disagree for ever.
* **Temporal intervals** (`btic`). The 24-byte packed form, its byte order, and the lattice-like
  operations on intervals with per-bound metadata.

The programs around it:

* **Unicode tables** (`name_table`, `escape_codec`, `range_tables`, `fnv`). Encoders and decoders
  on both sides of a Java/Python boundary, run-length tables, and the table fingerprint.
* **Release and caches** (`publish_list`, `fixture_cache`, `ort_cache`). The publish-order guard and
  two caches that verify before they publish, with a crash allowed between any two disk operations.
* **Measurements** (`scenario_count`, `iai_collect`, `median`, `instruction_gate`, `tck_report`,
  `doc_symbols`). Counting, instruction-count baselines and gates, compatibility-kit accounting, and
  the documentation checker.

Where the source works by updating state, the model is imperative: classes with frames for the
replicas, the registry and the two disks, methods with loops for the algorithms. Each such method is
tied to a specification and the theorems are about the specification. Protocols with concurrency or
crashes are relations on states, with invariants over every run.

## Where the code and its own claims differ

The models follow the code.

* The CRDT trait promises an associative merge; the vector-clock register's merge is not
  (`VCRegister.AssociatesExactly`, `VCRegister.ReplicasDivergeForEver`).
* The set's dots are said to be unique by construction; two clones of a replica mint one dot twice and
  their merge drops both additions, as the comment on forking warns (`ORSet.CopiesKeepBothExactly`,
  `ORSet.CloneLosesBoth`).
* The book says that a CRDT property overwritten with a mismatched scalar or variant is still
  conflict-detected, and the buffer's comment that the carve-out never excludes an item the merge
  would overwrite. The guard compares variants only. A CRDT written over a committed plain value
  passes it and replaces the value (`TxStore.CounterReplacesNumber`). So does a vector-clock register
  over one with the same clock (`TxStore.RegisterReplacesRegister`), a sequence with another node
  under a stored id (`Crdts.OneIdTwoNodes`), and a set that holds a stored dot for another element
  (`Crdts.OneDotTwoElements`). `TxStore.CarveOutLosesExactly` says that these are all.
* The book calls the merges of the carve-out commutative; two of the eight variants are not
  (`Crdts.MergeCommutesExactly`).
* The book says transactions are serializable. An exempt write is never validated and brings back a
  vertex that was deleted meanwhile (`TxAnomalies.ExemptIncrementResurrectsDeletedVertex`). Two
  transactions that set a register as one actor both commit and one update is lost
  (`TxRegisters.RegisterUpdateIsLost`). A deletion takes edges along that its write-set does not name,
  and a writer that read such an edge still commits (`TxAnomalies.CascadeStalesRead`).
  `TxSystem.Serializable` says exactly when this matters.
* `Rga::len` is documented as the number of visible elements; it also counts elements cut off from the
  root (`Rga.LenCountsOrphans`, `Rga.OrphanIsCounted`).
* `valueRanges` is documented as covering every code point; it drops a final run of the sentinel value
  (`RangeTables.ValueRanges`, `RangeTables.SentinelRanges`).
* The name file's word-length and token-count bytes are written without a check. The file decodes to
  the names it was made from if and only if no word is over 255 characters and no name has over 254
  separators (`NameTable.DecodesExactly`, `NameTable.LongWordIsFatal`, `NameTable.LongNameIsCut`).
* The fixture fetcher reports a fixture called `receipt.json` as verified and overwrites it with its
  receipt (`FixtureCache.ReceiptOverwritesFixture`).
* The publish guard does not look at dependencies on crates that are never published, which do stop a
  release (`PublishList.AcceptedListPublishes`, `PublishList.AcceptsBlockedList`).
* The comparison report counts the earlier run's scenarios by feature stem and this run's by element,
  so the change it prints can exceed what its lists explain (`TckReport.PrintedDelta`,
  `TckReport.OneStemHides`).

## Model

| member | source | states |
|---|---|---|
| CommitRegistry.Registry.Record | crates/uni-store/src/runtime/occ.rs:270-275 | after recording, the registry is the newest `capacity` entries of what it was plus the new one |
| CommitRegistry.Registry.Commit | crates/uni-store/src/runtime/occ.rs:285-289 | the next sequence number is allotted and recorded with its write-set |
| CommitRegistry.Registry.Fence | crates/uni-store/src/runtime/occ.rs:301-306 | after a fence exactly the transactions that read before it are uncovered, and every one that reads after it is admissible |
| CommitRegistry.Registry.Check | crates/uni-store/src/runtime/occ.rs:313-344 | no conflict is reported exactly when the history is covered and every newer commit is apart from the committer, set by set: vertices, edges, each of the four kinds of key, and the reads; a reported conflict names the first commit that is not, and the set that overlaps |
| CommitRegistry.ClashIs | crates/uni-store/src/runtime/occ.rs:87-117 | two write-sets clash unless all six of their sets are disjoint, and the reads from both item sets |
| CommitRegistry.KeyKindIs | crates/uni-store/src/runtime/occ.rs:87-99 | the kind of key named is that of the first key set that overlaps |
| CommitRegistry.EmptyIs | crates/uni-store/src/runtime/occ.rs:78-85 | there is nothing to register exactly when all six sets are empty |
| TxStore.ApplyFrame | crates/uni-store/src/runtime/l0.rs:1764-1825 | a merge changes no item outside its write-set, its exempt vertices and the edges that go with the vertices it deletes |
| TxStore.CommitLeavesVertex | crates/uni-store/src/runtime/l0.rs:1764-1825 | for all stores and buffers: which vertices are there after a commit, with which properties and labels |
| TxStore.CommitLeavesEdge | crates/uni-store/src/runtime/l0.rs:1827-1852 | which edges are there, with whose endpoints, type and properties |
| TxStore.WrittenPropsAre | crates/uni-store/src/runtime/l0.rs:603-722 | a written plain value reads back as written, so does a CRDT over anything but its own variant, an unwritten key is unchanged, and CRDTs of one variant are merged |
| TxStore.WriteSetIs | crates/uni-store/src/runtime/occ.rs:48-75 | conflict detection is told of every deleted, relabelled or labelled vertex, of every one with a plain property written, of all edges and of all four kinds of key |
| TxStore.ExemptIsNoopExactly | crates/uni-store/src/runtime/l0.rs:603-640 | an exempt write leaves its vertex as it was if and only if every value it carries is absorbed by the committed one, for all eight CRDT variants |
| TxStore.UnregisteredDrift | crates/uni-store/src/runtime/l0.rs:1143-1196 | an item outside the write-set moves exactly when it is disturbed; and it moves only on, values along their order and edges away, exactly when no written CRDT takes the place of a committed one |
| TxStore.CarveOutLosesExactly | crates/uni-store/src/runtime/occ.rs:178-202 | once the variant guard passes, an exempt write loses nothing if and only if no property it writes holds a plain value, a register whose clock the written one does not go beyond but whose value it replaces, another node under one id, or one dot for another element |
| TxStore.CounterReplacesNumber | crates/uni-store/src/runtime/occ.rs:178-202 | a counter written over a committed number is exempt, claims nothing, passes the guard, and the number is gone |
| TxStore.RegisterReplacesRegister | crates/uni-store/src/runtime/occ.rs:178-202 | so it is with a register over one with the same clock and another value |
| TxSystem.ValidatedSeesAll | crates/uni-store/src/runtime/writer.rs:1913-1958 | a committer that passes validation clashes with no commit since its begin stamp and with no restore, although the registry is bounded and pruned |
| TxSystem.MergeIsHeld | crates/uni-store/src/runtime/writer.rs:2260-2291 | a validated committer overlaps no concurrent writer, and no registered write reached anything it read since it read it |
| TxSystem.MergeIsGenuine | crates/uni-store/src/runtime/writer.rs:1913-1958 | every logged commit is what its program computes from true readings, and passed the variant guard |
| TxSystem.RecordPreserves | crates/uni-store/src/runtime/writer.rs:2308-2320 | registering the write-set, with pruning, keeps everything validation relies on |
| TxSystem.FencePreserves | crates/uni-store/src/runtime/writer.rs:6334 | the fence after a restore keeps the invariant: nothing begun before it can pass |
| TxSystem.BeginPreserves | crates/uni-store/src/runtime/writer.rs:1632-1658 | stamping the read sequence before pinning the snapshot leaves no commit unaccounted for |
| TxSystem.StepPreserves | crates/uni-store/src/occ_loom_model.rs:12-34 | every step of begin, read, rollback, validate, merge, record, restore and fence, in any interleaving, keeps the invariant |
| TxSystem.RunKeepsInv | crates/uni-store/src/runtime/writer.rs:1913-2320 | the invariant holds in every state of every run |
| TxSystem.Serializable | docs/UNI_BLACK_BOOK.md:6659-6663 | in every run, a committed writer reads and writes exactly what it would alone on the state its predecessors in the log left, if and only if the last unseen commit to disturb each reading, if any, left what was read; it does whenever no reading was disturbed; and unless a written CRDT took the place of a committed one, only then |
| TxSystem.SerialWhereMerged | crates/uni-store/src/runtime/writer.rs:1913-1958 | in every run, any commit, those with an empty write-set included, fits the serial order where it merged if and only if for each item read the last merge since that reached it left what was read |
| TxSystem.SerialAtSnapshot | crates/uni-store/src/runtime/writer.rs:1632-1658 | in every run, a commit whose reads are all from one snapshot fits the serial order at that snapshot |
| TxSystem.ConcurrentWritersAreDisjoint | crates/uni-store/src/runtime/occ.rs:87-118 | in every run a committed writer shares no item and no claimed key with any commit since its begin, and no restore lies between |
| TxAnomalies.ExemptIncrementResurrectsDeletedVertex | crates/uni-store/src/runtime/occ.rs:48-75 | a run in which a deletion and an exempt increment both commit and the result is that of no serial order |
| TxAnomalies.NoSerialOrderKeepsVertex | crates/uni-store/src/runtime/l0.rs:1143-1196 | in no serial order of the two programs does the vertex survive |
| TxAnomalies.CascadeStalesRead | crates/uni-store/src/runtime/writer.rs:2280-2284 | a run in which a writer that read an edge commits after a deletion took the edge along, and the result is that of no serial order of the three programs |
| TxRegisters.RegisterUpdateIsLost | crates/uni-crdt/src/vc_register.rs:50-76 | for any register, a run in which two transactions set it from one snapshot as one actor, both commit, and the result is that of no serial order |
| TxRegisters.DisturbedReadingComesBack | crates/uni-crdt/src/vc_register.rs:71-75 | a run in which two unseen commits with one clock disturb a writer's reading and put it back, so that the writer is serial although its reading was not spared |
| Crdts.MergeMovesOnExactly | crates/uni-crdt/src/lib.rs:87-104 | merging a stored value into a written one moves it on, in the order of its variant, exactly when the two do not clash |
| Crdts.LeqAntisymmetric | crates/uni-crdt/src/lib.rs:44-62 | for every variant no move is undone by further moves |
| Crdts.AbsorbedExactly | crates/uni-crdt/src/lib.rs:87-104 | the merge leaves the stored value as it is if and only if the written one is absorbed, said of each variant's own state |
| Crdts.MergeKeepsExactly | crates/uni-crdt/src/lib.rs:87-104 | the merge keeps what was stored except for registers that clash, nodes that differ under one id, and dots held for two elements |
| Crdts.MergeCommutesExactly | crates/uni-crdt/src/lib.rs:35-39 | two values of one variant merge alike both ways, except for registers with one clock and two values, and nodes that differ under one id |
| Crdts.LaterIs | crates/uni-crdt/src/lww_register.rs:41-84 | of two cells the one with the larger time wins; at one time, the one with the larger serialized value |
| Crdts.LaterCellsAre | crates/uni-crdt/src/lww_map.rs:87-98 | a last-writer-wins map is merged so key by key |
| Clocks.JoinIs | crates/uni-crdt/src/vector_clock.rs:33-38 | actor by actor, the larger count |
| Bytes.LessIs | crates/uni-btic/src/encode.rs:4-7 | byte strings are ordered by their first difference, a proper prefix first |
| Crdts.EqualClocksTakeTurns | crates/uni-crdt/src/vc_register.rs:71-75 | registers with one clock replace each other and come back |
| Crdts.OneIdTwoNodes | crates/uni-crdt/src/rga.rs:111-127 | of two nodes under one id the written one replaces the stored one |
| Crdts.OneDotTwoElements | crates/uni-crdt/src/orset.rs:142-183 | of two elements with one dot the merge holds neither |
| ORSet.Replica.Add | crates/uni-crdt/src/orset.rs:88-98 | an addition replaces the element's dots by one fresh dot of this actor |
| ORSet.Replica.Remove | crates/uni-crdt/src/orset.rs:104-106 | a removal forgets the element's dots and keeps the version vector |
| ORSet.Replica.Merge | crates/uni-crdt/src/orset.rs:142-183 | the in-place loop computes the join: shared dots, and dots the other side has not observed |
| ORSet.MergeCommutes | crates/uni-crdt/src/lib.rs:35-39 | merging commutes, for all states |
| ORSet.MergeIdempotent | crates/uni-crdt/src/lib.rs:35-39 | merging with oneself changes nothing, for well-formed states |
| ORSet.MergeAssociates | crates/uni-crdt/src/lib.rs:35-39 | merging associates, for well-formed states |
| ORSet.MergeKeepsWellFormed | crates/uni-crdt/src/orset.rs:142-183 | the join of well-formed states is well-formed |
| ORSet.StepPreserves | crates/uni-crdt/src/orset.rs:80-183 | add, remove, fork, send and merge of any old copy keep each copy equal to the reading of what it has heard of |
| ORSet.ContentsAreAddWins | crates/uni-crdt/src/orset.rs:22-28 | in every run an element is present exactly when some addition heard of is overridden by nothing heard of |
| ORSet.Converged | crates/uni-crdt/src/orset.rs:135-139 | replicas that heard of the same operations are equal |
| ORSet.ExchangeConverges | crates/uni-crdt/src/orset.rs:135-183 | after any run, two replicas that send each other what they hold and merge it become equal, each having heard of what either had |
| ORSet.ForkJoins | crates/uni-crdt/src/orset.rs:72-84 | after any run, what a replica holds or ever sent can be taken up under an actor id nobody has |
| ORSet.CirculatingCopiesAreWellFormed | crates/uni-crdt/src/orset.rs:50-57 | every copy that can arise is well-formed, so the join laws apply to all of them |
| ORSet.CloneLosesBoth | crates/uni-crdt/src/orset.rs:72-98 | a replica and its clone add different elements; after the merge the replica holds neither |
| ORSet.ForkKeepsBoth | crates/uni-crdt/src/orset.rs:72-98 | a replica and its fork each add an element; after the merge the replica holds both |
| ORSet.CopiesKeepBothExactly | crates/uni-crdt/src/orset.rs:72-84 | two copies of a replica that each add an element keep both after merging if and only if their actor ids differ or the elements are the same |
| VCRegister.HappenedBefore | crates/uni-crdt/src/vector_clock.rs:42-67 | the two loops decide strict causal precedence of clocks, absent actors counting as zero |
| VCRegister.MergedIs | crates/uni-crdt/src/vc_register.rs:64-103 | the causally later value; of equal clocks the receiver's, of concurrent ones the larger serialized form; always with the joined clock |
| VCRegister.WrittenIs | crates/uni-crdt/src/vc_register.rs:50-53 | a write takes the value and one step of its own actor |
| VCRegister.MergeIdempotent | crates/uni-crdt/src/vc_register.rs:64-103 | merging with oneself changes nothing |
| VCRegister.MergeCommutesExactly | crates/uni-crdt/src/vc_register.rs:64-103 | two registers merge alike both ways if and only if equal clocks carry equal values |
| VCRegister.AssociatesExactly | crates/uni-crdt/src/lib.rs:35-39 | three clocks associate for all values if and only if both groupings leave the same writes in the running |
| VCRegister.CoveredChangesNothing | crates/uni-crdt/src/vc_register.rs:64-103 | merging a copy with an equal clock or with an earlier one changes nothing, whatever it carries |
| VCRegister.SettledForEver | crates/uni-crdt/src/vc_register.rs:64-103 | once all replicas have one clock that covers every copy in flight, no sequence of sends and merges changes any replica |
| VCRegister.ReplicasDivergeForEver | crates/uni-crdt/src/vc_register.rs:50-103 | for any three ordered values, a run of two replicas whose clocks cover all three writes, that hold different values, and that no further delivery changes |
| Rga.Replica.Insert | crates/uni-crdt/src/rga.rs:45-56 | the node is added under its fresh id and origin |
| Rga.Replica.Delete | crates/uni-crdt/src/rga.rs:59-63 | a known node becomes a tombstone, nothing else changes |
| Rga.Replica.Merge | crates/uni-crdt/src/rga.rs:113-127 | the loop computes the union with tombstones joined |
| Rga.Flatten | crates/uni-crdt/src/rga.rs:66-99 | the explicit-stack walk terminates, cycles among unreachable nodes included, and equals the recursive preorder walk with tombstones left out |
| Rga.Replica.ToVec | crates/uni-crdt/src/rga.rs:66-99 | what a replica shows is that walk of its nodes |
| Rga.WalkVisits | crates/uni-crdt/src/rga.rs:83-96 | the walk visits exactly the origin paths from the root |
| Rga.WalkIsOrdered | crates/uni-crdt/src/rga.rs:74-77 | ancestors come first, else the newer sibling at the first difference |
| Rga.KidsAreNewestFirst | crates/uni-crdt/src/rga.rs:74-77 | of two nodes with one origin the one listed first has the later time, or the same time and the larger id |
| Rga.BeforeIs | crates/uni-crdt/src/rga.rs:74-96 | one path comes before another exactly as its ancestor, or by the later time or larger id of the sibling where the two part |
| Rga.ShownInOrder | crates/uni-crdt/src/rga.rs:66-99 | the elements of live nodes are shown in that order |
| Rga.MergeCommutesExactly | crates/uni-crdt/src/rga.rs:113-127 | merging commutes if and only if the sides agree on shared nodes up to deletion |
| Rga.MergeAssociates | crates/uni-crdt/src/lib.rs:35-39 | merging associates, for all states |
| Rga.MergeIdempotent | crates/uni-crdt/src/lib.rs:35-39 | merging with oneself changes nothing |
| Rga.MergeKeepsOrder | crates/uni-crdt/src/rga.rs:113-127 | two nodes shown in some order before a merge are shown in that order after it |
| Rga.SharedOrder | crates/uni-crdt/src/rga.rs:66-99 | replicas that agree show any two nodes they both hold the same way round |
| Rga.LenCountsOrphans | crates/uni-crdt/src/rga.rs:102-104 | the reported length is at least the list's, and equal exactly when every live node is reachable |
| Rga.OrphanIsCounted | crates/uni-crdt/src/rga.rs:102-104 | a live node under an unknown origin: nothing is shown and the length is one |
| Rga.OrderIsForEver | crates/uni-crdt/src/rga.rs:66-127 | in every run, what a replica shows in one order it shows in that order ever after |
| Rga.ReplicasAgreeOnOrder | crates/uni-crdt/src/rga.rs:66-127 | in every run, at any moment, two replicas show shared nodes the same way round |
| Rga.StepPreserves | crates/uni-crdt/src/rga.rs:45-127 | insert, delete, send and merge of any old copy keep each copy equal to what it has heard of, and each replica growing |
| Rga.Converged | crates/uni-crdt/src/lib.rs:35-39 | in every run, replicas that have heard of the same insertions and deletions hold equal nodes and show the same list |
| Rga.ExchangeConverges | crates/uni-crdt/src/lib.rs:35-39 | after any run, two replicas that send each other what they hold and merge it show the same list, each having heard of what either had |
| Btic.DecodeOfEncode | crates/uni-btic/src/encode.rs:8-39 | decoding an encoded value gives it back, or the very error that constructing it gives |
| Btic.EncodeOfDecode | crates/uni-btic/src/encode.rs:21-50 | whatever byte string decodes is the encoding of its value |
| Btic.BytesCompareAsIntervals | crates/uni-btic/src/encode.rs:4-7 | byte order of packed forms is the order by lower bound, upper bound, metadata; equal bytes mean equal values |
| Btic.MetaParts | crates/uni-btic/src/btic.rs:91-102 | the metadata word gives back the four codes it was built from and leaves the reserved fields zero |
| Btic.ValidIsTwoBounds | crates/uni-btic/src/btic.rs:39-84 | a valid value is determined by its two bounds with their granularity and certainty |
| Btic.ErrorsAre | crates/uni-btic/src/btic.rs:39-84 | which error is raised when, in the bits of the word |
| Btic.AllTime | crates/uni-btic/src/encode.rs:8-39 | the interval of all time is valid and packs into eight zero bytes, eight of 255 and eight zero bytes |
| Btic.SpanBounds | crates/uni-btic/src/set_ops.rs:37-46 | the span of valid intervals is always valid, so its `expect` cannot fail, and has the outer bounds with their metadata |
| Btic.IntersectionBounds | crates/uni-btic/src/set_ops.rs:16-30 | there is an intersection exactly when the intervals overlap, with the inner bounds and their metadata |
| Btic.GapBounds | crates/uni-btic/src/set_ops.rs:55-71 | there is a gap exactly when the intervals neither overlap nor touch |
| Btic.SpanIsUnionAndGap | crates/uni-btic/src/set_ops.rs:7-71 | tick by tick the span is the two intervals and their gap, the gap meets neither, and the intersection is what both hold |
| Btic.SpanLaws | crates/uni-btic/src/set_ops.rs:108-130 | span is commutative, associative and idempotent, metadata included |
| Btic.IntersectionLaws | crates/uni-btic/src/set_ops.rs:108-130 | intersection is commutative, associative and idempotent, metadata and emptiness included |
| Btic.AbsorptionExactly | crates/uni-btic/src/set_ops.rs:99-130 | intersecting an interval with its span gives it back if and only if the other is no finer and no less certain where bounds coincide |
| NameTable.Intern | scripts/java_regex_oracle/GenUcdTables.java:229-233 | the dictionary stays a bijection between distinct words and 0..n-1 in insertion order, and only grows at the end |
| NameTable.Tokenize | scripts/java_regex_oracle/GenUcdTables.java:217-237 | fails exactly on names with a character outside 0x20 to 0x7E; otherwise interns exactly the name's words, and below the limit the tokens spell the name |
| NameTable.TokenMeans | scripts/java_regex_oracle/GenUcdTables.java:234 | below 0x8000 words the separator bit never collides with an id |
| NameTable.RenderIsStable | scripts/java_regex_oracle/GenUcdTables.java:207-237 | growing the dictionary never changes the meaning of a token already made |
| NameTable.Encode | scripts/java_regex_oracle/GenUcdTables.java:207-255 | succeeds exactly on printable names; the dictionary then holds exactly their words, each once, and below its limit every row spells its name |
| NameTable.WriteNames | scripts/java_regex_oracle/GenUcdTables.java:207-272 | which error is raised when; on success the bytes are the file of a table that represents exactly the names, and decode to them if and only if no word and no name is too long |
| NameTable.EmitRows | scripts/java_regex_oracle/GenUcdTables.java:263-272 | the loop writes three bytes of code point, one count byte and little-endian tokens per row |
| NameTable.NamesData | scripts/java_regex_oracle/gen_cases.py:443-471 | the cursor loops compute the decoder, failing exactly where an index would run out of range or a byte is not ASCII |
| NameTable.RoundTrip | scripts/java_regex_oracle/gen_cases.py:443-471 | decoding the file of any table that fits gives back exactly the names, empty words and doubled separators included |
| NameTable.FitsExactly | scripts/java_regex_oracle/GenUcdTables.java:258-272 | the file is faithful to its eight-bit fields exactly when no word is over 255 characters and no name over 254 separators |
| NameTable.DecodesExactly | scripts/java_regex_oracle/gen_cases.py:443-471 | the file of any list of printable names with fewer than 0x8000 words decodes to it if and only if no word is over 255 characters and no name has over 254 separators |
| NameTable.LongWordIsFatal | scripts/java_regex_oracle/GenUcdTables.java:259-262 | the simplest such file: one name that is a single word of 256 or more characters makes it undecodable |
| NameTable.LongNameIsCut | scripts/java_regex_oracle/GenUcdTables.java:268-271 | the simplest such file: one name of 256 or more tokens comes back with fewer separators |
| EscapeCodec.Esc | scripts/java_regex_oracle/gen_cases.py:72-87 | the loop escapes code point by code point |
| EscapeCodec.EscapesAre | scripts/java_regex_oracle/gen_cases.py:72-87 | which characters are escaped, and as what |
| EscapeCodec.SignedHex | scripts/java_regex_oracle/JavaRegexOracle.java:69-92 | a plus sign before the digits changes nothing, a minus sign leaves only zero, a sign alone is no number |
| EscapeCodec.Escape | scripts/java_regex_oracle/JavaRegexOracle.java:95-113 | the loop escapes the code points of a UTF-16 string |
| EscapeCodec.Unescape | scripts/java_regex_oracle/JavaRegexOracle.java:69-92 | the moving index computes the left-to-right reading, errors included |
| EscapeCodec.UnitsOfCodePoints | scripts/java_regex_oracle/JavaRegexOracle.java:95-113 | splitting a UTF-16 string into code points and encoding them gives it back, lone surrogates included |
| EscapeCodec.CodePointsOfUnits | scripts/java_regex_oracle/JavaRegexOracle.java:95-113 | and encoding scalar values, then splitting, gives them back |
| EscapeCodec.UnescapeInverts | scripts/java_regex_oracle/JavaRegexOracle.java:69-92 | unescaping either printer's output gives the UTF-16 form of its input |
| EscapeCodec.JavaRoundTrip | scripts/java_regex_oracle/JavaRegexOracle.java:69-113 | `unescape(escape(s)) = s` for every UTF-16 string |
| EscapeCodec.LineRoundTrip | scripts/java_regex_oracle/JavaRegexOracle.java:121-131 | a printed case is visible ASCII with one tab, and is read back as the same pair if and only if the pattern does not start with `#` |
| RangeTables.Ranges | scripts/java_regex_oracle/GenUcdTables.java:52-66 | the canonical list of exactly the code points where the predicate holds |
| RangeTables.PythonRanges | scripts/java_regex_oracle/gen_ucd_extra.py:48-57 | the same list |
| RangeTables.CanonicalIsUnique | scripts/java_regex_oracle/GenUcdTables.java:51-66 | sorted, disjoint, non-adjacent lists covering the same points are equal |
| RangeTables.RangesAreFaithful | scripts/java_regex_oracle/GenUcdTables.java:51-66 | two tables are equal exactly when their predicates agree on every code point |
| RangeTables.ValueRanges | scripts/java_regex_oracle/GenUcdTables.java:67-81 | the runs tile an initial stretch with differing neighbours and give back the function; all is covered exactly when the last value is not the sentinel, else exactly the final sentinel run is missing |
| RangeTables.SentinelRanges | scripts/java_regex_oracle/GenUcdTables.java:67-81 | the function that is the sentinel everywhere gets the empty table |
| RangeTables.LimitsAre | scripts/java_regex_oracle/GenUcdTables.java:51-81 | the scan covers seventeen planes and the sentinel is the smallest 32-bit integer |
| RangeTables.Override | scripts/java_regex_oracle/gen_ucd_extra.py:78-88 | every scanned point's class merges to what was last observed; a point that always agreed keeps its finer class |
| RangeTables.EmitClasses | scripts/java_regex_oracle/gen_ucd_extra.py:105-112 | the emitted runs are in order and hold exactly the points whose class is not Other |
| RangeTables.BuildClasses | scripts/java_regex_oracle/gen_ucd_extra.py:78-112 | looking a point up in the emitted table merges to what was observed, or gives its own class where all agreed |
| Fnv.Fingerprint | scripts/java_regex_oracle/GenUcdTables.java:84-96 | the three loops are 64-bit FNV-1a over the ends as little-endian words |
| Fnv.KnownVectors | scripts/java_regex_oracle/GenUcdTables.java:84-91 | the published values of 64-bit FNV-1a for no byte and for the letter a |
| Fnv.StepInjective | scripts/java_regex_oracle/GenUcdTables.java:90-91 | for a fixed byte a step loses nothing of the 64-bit state |
| Fnv.HashInjective | scripts/java_regex_oracle/GenUcdTables.java:86-95 | a common suffix never hides a difference |
| Fnv.WordInjective | scripts/java_regex_oracle/GenUcdTables.java:89-92 | from one state two different 32-bit words lead to different states |
| Fnv.OneEndChanged | scripts/java_regex_oracle/GenUcdTables.java:84-96 | tables that differ in exactly one range end have different fingerprints |
| PublishList.Seen | scripts/ci/check_publish_list.py:57-64 | the work list terminates on any graph and finds exactly what the root reaches |
| PublishList.CollectDeps | scripts/ci/check_publish_list.py:38-55 | the dependencies that gate a release: workspace crates that are normal or build dependencies, or development ones with a version |
| PublishList.BuildGraph | scripts/ci/check_publish_list.py:38-55 | the graph of those |
| PublishList.PublishableClosure | scripts/ci/check_publish_list.py:28-66 | the closure walks through unpublished crates and leaves them out at the end |
| PublishList.Check | scripts/ci/check_publish_list.py:76-103 | accepts exactly the duplicate-free listings of the closure in dependency order |
| PublishList.AcceptedListPublishes | scripts/ci/check_publish_list.py:5-12 | an accepted list publishes crate by crate to the end, every other dependency found, exactly when no closure crate depends on an unpublished one |
| PublishList.AcceptsBlockedList | scripts/ci/check_publish_list.py:66-103 | a workspace whose list is accepted and stops at its first crate |
| PublishList.AcceptedIsAcyclic | scripts/ci/check_publish_list.py:98-103 | acceptance excludes every cycle through two or more closure crates |
| PublishList.AcceptableExactlyWhenAcyclic | scripts/ci/check_publish_list.py:76-103 | some list is accepted exactly when there is no such cycle |
| FixtureCache.VerifyFile | scripts/fixtures/fetch.py:224-239 | matches exactly the files with the pinned size and digest |
| FixtureCache.CheckAnswer | scripts/fixtures/fetch.py:292-309 | the checks on an answer, one after the other: status, content type, encoding, declared length |
| FixtureCache.Download | scripts/fixtures/fetch.py:272-320 | succeeds exactly on an acceptable answer, and leaves the verified file or what was there, never a temporary file of a started transfer |
| FixtureCache.Handle | scripts/fixtures/fetch.py:357-388 | one turn of the loop: the reported result and the whole new disk |
| FixtureCache.RunFetch | scripts/fixtures/fetch.py:353-389 | exit code 0 exactly when every entry is reported; the disk it leaves; and every state the disk passes through, in order |
| FixtureCache.RunIsSound | scripts/fixtures/fetch.py:353-389 | in every one of those states each destination is as before the run, absent or verified |
| FixtureCache.RunMayLeave | scripts/fixtures/fetch.py:353-389 | what a run may leave includes what it found and every state it passes through |
| FixtureCache.AbsentOrVerified | scripts/fixtures/fetch.py:272-277 | from an empty cache, over any number of runs, each finished or killed between any two disk operations and continued by the next from what it left, each destination is absent or matches its pin |
| FixtureCache.EntriesAreIndependent | scripts/fixtures/fetch.py:125-131 | with distinct names an entry's result depends on its own file and answer only |
| FixtureCache.ExitZeroExactly | scripts/fixtures/fetch.py:353-389 | exit code 0 exactly when each file matched at the start or was absent and well served |
| FixtureCache.ExitZeroMeansVerified | scripts/fixtures/fetch.py:4-7 | after exit code 0 every selected file is present and matches, unless it is called `receipt.json` |
| FixtureCache.ReceiptOverwritesFixture | scripts/fixtures/fetch.py:134-135 | a reported entry ends verified if and only if it is not called `receipt.json` or its receipt matches its pin |
| FixtureCache.ReceiptClashExample | scripts/fixtures/fetch.py:323-345 | such an entry, reported and not verified |
| FixtureCache.SecondRunRepairs | scripts/fixtures/fetch.py:370-375 | from any cache and after any first run, a second run against a correct server verifies everything |
| OrtCache.Download | scripts/ci/prepare_ort.py:50-85 | stops at the first success, else after all attempts; a refusal to resume restarts from nothing |
| OrtCache.OutputIsPrefix | scripts/ci/prepare_ort.py:50-85 | against an honest server the file is always a beginning of the body, and the whole body on success |
| OrtCache.Extract | scripts/ci/prepare_ort.py:124-135 | yields the library exactly for archives of one regular member of that name |
| OrtCache.CheckCache | scripts/ci/prepare_ort.py:88-95 | valid exactly when metadata and library are there and both sums match |
| OrtCache.RemnantStaysInvalid | scripts/ci/prepare_ort.py:88-95 | removing part of an invalid entry never makes it valid |
| OrtCache.RemoveTree | scripts/ci/prepare_ort.py:139-140 | removal in any order passes only through remnants |
| OrtCache.Prepare | scripts/ci/prepare_ort.py:98-143 | a valid entry is left alone; otherwise success exactly when the pinned archive was obtained; no state passed through is valid except the finished entry; failure changes nothing; each state passed through is one that a killed run may leave |
| OrtCache.HonestServerIsPublished | scripts/ci/prepare_ort.py:98-143 | an honest server's archive is obtained however the transfer was interrupted |
| OrtCache.YieldsOne | scripts/ci/prepare_ort.py:50-85 | a session obtains at most one library |
| OrtCache.ValidIsFinished | scripts/ci/prepare_ort.py:88-143 | from an absent destination, over any number of preparations with any pins, each finished, failed or killed between any two disk operations, a destination valid for a pin is the finished entry of a session that obtained that pin's archive |
| ScenarioCount.Count | scripts/ci/check_documented_counts.py:103-132 | the three nested loops equal a four-state machine that reads each line once |
| ScenarioCount.StartsIs | scripts/ci/check_documented_counts.py:106 | beginning with a word means: that word, then anything or nothing |
| ScenarioCount.CountIsAdditive | scripts/ci/check_documented_counts.py:81-133 | the count of two texts joined is the sum when the second begins with a heading |
| ScenarioCount.CountIsAdditiveExactly | scripts/ci/check_documented_counts.py:103-132 | it is never less than the sum, and is the sum if and only if no line of the second is a data row only by what stands in the first |
| ScenarioCount.StateIs | scripts/ci/check_documented_counts.py:103-132 | what each state of the machine means of the lines read: below an outline's table header, before it, in an outline, or outside |
| ScenarioCount.SplitTableLosesRow | scripts/ci/check_documented_counts.py:115-127 | without that condition it is not |
| ScenarioCount.DocumentExpands | scripts/ci/check_documented_counts.py:96-97 | one per scenario and one per data row of every outline's tables, whatever stands before the first heading |
| ScenarioCount.EveryTextIsADocument | scripts/ci/check_documented_counts.py:103-132 | every sequence of lines is such a document, so the count of any text is that of its parts |
| IaiCollect.ParseOutFile | scripts/perf/iai_collect.py:47-111 | raises exactly on a cost line before events or a degenerate deciding line; otherwise the instruction count of the deciding line |
| IaiCollect.Collect | scripts/perf/iai_collect.py:114-135 | each benchmark with a file has an entry that adds up its files, and a raise is never swallowed |
| IaiCollect.TotalIsMainPlusWorkers | scripts/perf/iai_collect.py:129-134 | a total is main thread plus other threads |
| IaiCollect.ZeroMeansNothingCollected | scripts/perf/iai_collect.py:86-111 | a total is zero exactly when each file's deciding line is absent, the bare zero, or zero at full width |
| Median.MedianIgnoresOrder | scripts/perf/iai_baseline.py:102-104 | the reference does not depend on sample order |
| Median.MedianIs | scripts/perf/iai_baseline.py:141 | in any listing of the samples in order, the middle one or the mean of the two middle ones rounded down |
| Median.MajorityDecides | scripts/perf/iai_baseline.py:102-104 | more than half of the samples in an interval hold the median there |
| InstructionGate.CheckUsable | scripts/perf/iai_cross_runner.py:63-91 | no problem exactly when every runner has every target and no zero sample |
| InstructionGate.Pool | scripts/perf/iai_baseline.py:105-108 | the pooled list of a target is its samples runner after runner |
| InstructionGate.ReadReasons | scripts/perf/iai_baseline.py:116-122 | fails exactly on a pair without an equals sign or without a reason; otherwise the last reason given for each target |
| InstructionGate.PairIs | scripts/perf/iai_baseline.py:117-122 | a pair is split at its first equals sign, and needs one with something after it |
| InstructionGate.MakeBaseline | scripts/perf/iai_baseline.py:84-150 | directories without samples are dropped; which inputs are refused; each reference is the median of the pooled samples, and which targets carry which reason |
| InstructionGate.ExcludedIs | scripts/perf/iai_baseline.py:146-147 | calibration targets are those whose name begins with the prefix |
| InstructionGate.ReferencesArePositive | scripts/perf/iai_baseline.py:90-100 | usable samples never give a zero reference |
| InstructionGate.OutliersCannotMoveReference | scripts/perf/iai_baseline.py:102-104 | a minority of samples cannot move a reference out of the majority's interval |
| InstructionGate.ReferenceIgnoresOrder | scripts/perf/iai_baseline.py:105-141 | the order of runners and samples is immaterial |
| InstructionGate.Gate | scripts/perf/iai_gate.py:90-202 | exit code 0 exactly when something is gated, all of it present without zero samples, nothing above the failing bound and, unless disarmed, nothing collapsed; the extremes reported |
| InstructionGate.DeltaIs | scripts/perf/iai_gate.py:144 | drift is in percent of the reference, above zero for more instructions |
| InstructionGate.AcceptsInCounts | scripts/perf/iai_gate.py:137-188 | the verdict in counts: a hundred times the median at most the reference times a hundred plus the failing bound, and, unless disarmed, no collapse below it |
| InstructionGate.PlainBounds | scripts/perf/iai_gate.py:150-158 | for non-negative bounds the collapse test is the plain lower bound |
| InstructionGate.SameSamplesPass | scripts/perf/iai_gate.py:137-159 | gating the samples a baseline was made from shows no drift and passes |
| TckReport.Aggregate | scripts/aggregate_nextest_results.py:86-116 | every result is kept in its feature's group, and each planned scenario without one becomes one crash |
| TckReport.WriteReport | scripts/aggregate_nextest_results.py:122-156 | the elements written are exactly the grouped records |
| TckReport.Analyze | scripts/analyze_tck_json.py:63-122 | the four counters are the four counts and add up to the total |
| TckReport.CountsComeThrough | scripts/aggregate_nextest_results.py:99-156 | each printed count is what the runner wrote, crashes augmented by what it never reported |
| TckReport.Compare | scripts/analyze_tck_json.py:178-192 | the lists hold exactly the regressions and the fixes, each once |
| TckReport.BuildIndex | scripts/analyze_tck_json.py:27-60 | the loop builds the index, by feature stem, name and line |
| TckReport.ListsMeans | scripts/analyze_tck_json.py:184-192 | such a list holds its set's members and no more, as many as the set has |
| TckReport.PassedDeltaExplained | scripts/analyze_tck_json.py:171-194 | the change in passing keys is fixes less regressions, plus added less removed, plus the moves from and to skipped |
| TckReport.IndexLosesOnlyDuplicates | scripts/analyze_tck_json.py:28-60 | the index is as large as the list exactly when no two scenarios share feature stem, name and line |
| TckReport.IndexCountsExactly | scripts/analyze_tck_json.py:28-60 | a status counts no more in the index than in the list, and the same if and only if no scenario with it is followed by one with its key |
| TckReport.PrintedDelta | scripts/analyze_tck_json.py:160-198 | the printed change in passing scenarios is at least what the lists explain, and equals it if and only if no passing scenario is hidden by a later one with its key |
| TckReport.StemOf | scripts/aggregate_nextest_results.py:126 | the feature name forgets the directory |
| TckReport.StemKeeps | scripts/aggregate_nextest_results.py:126 | a name without a dot, or with its last one at an end, is its own stem |
| TckReport.TwoFeaturesOneStem | scripts/aggregate_nextest_results.py:126 | two feature files in different directories that share a stem |
| TckReport.OneStemHides | scripts/aggregate_nextest_results.py:126 | of two scenarios in files with one stem the one that passes is counted and missing from the index |
| DocSymbols.MismatchIsRejected | scripts/ci/check_doc_symbols.py:238-266 | whatever is reported Python's binding rejects |
| DocSymbols.RejectedExactly | scripts/ci/check_doc_symbols.py:238-266 | a call is rejected exactly when it is reported, gives a parameter twice, or loses a positional-only one |
| DocSymbols.MismatchIs | scripts/ci/check_doc_symbols.py:238-266 | what is reported, parameter by parameter: one without a default and without a value, too many positions, an unknown keyword |
| DocSymbols.MissedMismatches | scripts/ci/check_doc_symbols.py:241-263 | two rejected calls that are not reported |
| DocSymbols.CodeBlocks | scripts/ci/check_doc_symbols.py:84-99 | a line is yielded exactly when the nearest fence above it opened a selected language |
| DocSymbols.ReportedLineIsTrue | scripts/ci/check_doc_symbols.py:361-369 | the reported number is the document line on which the call stands |

## Left out

- TxSystem.Serializable: is stated for writers; a commit with an empty write-set is never validated, and `TxSystem.SerialWhereMerged` and `TxSystem.SerialAtSnapshot` say where it fits.
- Writes outside any transaction (`crates/uni-store/src/runtime/writer.rs`, lines 4011 to 4023): they reach the main buffer without being registered, so no run here holds one.
- ORSet.MergeIdempotent: needs a well-formed state, which `ORSet.CirculatingCopiesAreWellFormed` gives for every state that can arise.
- NameTable.LongWordIsFatal: what the decoder does with one such file; `NameTable.DecodesExactly` is the statement for every file.
- NameTable.LongNameIsCut: likewise.
- FixtureCache.RunIsSound: the fixture called `receipt.json` is outside the crash claim; `FixtureCache.ReceiptOverwritesFixture` says what happens to it.
- FixtureCache.AbsentOrVerified: one process at a time; two fetchers sharing a cache are not interleaved.
- OrtCache.ValidIsFinished: one process at a time; the staging directory is a local value, and its removal after a crash is not modelled.
- TckReport.WriteReport: the order of features in the report is arbitrary here, by path in the source.
- Predicate phantoms, which the engine documents as a limitation, and the commit-time overlay checks of unique keys, merge keys, external ids and deleted edge endpoints, which only add aborts.
- The write-ahead log, flushing to storage tiers and the pin on flushed rows; the store here is one map from items to values.
- Overflow of the 64-bit commit sequence.
- ORSet.StepPreserves: each actor id has one replica, as forking and decoding give it; `ORSet.CopiesKeepBothExactly` says what clones that share one lose.
- InstructionGate.MakeBaseline: runner directories have different names; of two with one name the source keeps the later.
- TckReport.StemOf: is about paths with a directory, as feature files have.
- Runs of replicas of the remaining CRDT variants (counters, grow-only sets, vector clocks, last-writer-wins registers and maps): easier members of the same kind; their merges are in `crdts`.
- Crdts.MergeCommutesExactly: a JSON value is its serialized form, so values that compare equal and print differently are different here.
- Wire formats of CRDTs, the upgrade of older set payloads, and plug-in CRDT providers.
- Calendar parsing and printing of intervals.
- The query language, Locy, the plugin framework, indexing and search.
- The JDK's name table and its self-check, the scan of grapheme classes, and the matching engine behind the oracle. `Integer.parseInt` is modelled on ASCII digits; digits of other scripts, which it also accepts, never occur in printed escapes.
- Strength of the cryptographic digests: they are arbitrary functions. The transfer tools, archives and HTTP are the answers they give; a non-numeric `Content-Length`, which aborts the whole fetch, is not among them.
- Names of fixtures are single path components; a name with a slash could address another fixture's directory.
- Medians and percentages are exact here; the source computes them in floating point, which differs above 2^53 and by rounding. Coefficients of variation and report formatting.
- Classification of documents, type inference and configuration checks of the documentation checker, and calls with unpacked arguments, which it does not check.
- Notebook generators, data preparation scripts and the version and feature-list guards: static content or short set comparisons.

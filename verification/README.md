# Models and proofs for the beagle runtime

Beagle compiles one language to JavaScript and to C. What both sides rest on is
a small set of runtime data structures and algorithms that are much cleverer
than what they mean: a hash trie standing for a finite map, a probed slot table
standing for a scan, vectors that are written in place and still never change, a
worker pool that must behave like a loop, and several byte-level parsers and
number routines. This project models those pieces step by step and proves that
each one means the simple thing.

Files, one module each:

- `Bits32`, `Hamt`, `HamtRefinement`, `HamtMap`, `HamtRuns`, `HamtShape`: the
  persistent hash trie of the JavaScript library. Hash and key equality are
  parameters. A trie stands for a map from keys to optional values; `get`,
  `has`, the count, the walk and `reduce` agree with it. The trie shares buckets
  between keys whose hashes differ only in bits 30 and 31, and branches such a
  bucket by its label alone. `Trapped` describes the one shape in which `assoc`
  therefore loses or doubles a key, and `AssocFaithfulIff` shows that `assoc` is
  a map update exactly outside that shape. Keys are `Separated` when their
  hashes are equal or differ in the low 30 bits; over separated keys nothing is
  ever trapped, every run refines the map, and the shape is canonical.
- `AssocList`, `SlotTable`, `NativeMap`, `MapRuns`, `KeyKinds`: the native map,
  parallel key and value arrays with an optional open-addressed table. `NativeMap` works on
  heap objects with real sharing: persistent maps may share one table, a
  transient shares nothing. Its meaning is a list of entries in insertion order.
  Key equality and hash are parameters under a law. `KeyKinds` shows that the kinds
  of keys the runtime has keep it, and says of each which keys are equal.
- `NativeVec`, `VecRuns`: vector headers over shared storage with a watermark,
  and builders. An arena holds every live header and builder.
- `Tiles`, `WorkerPool`, `TiledStep`, `PairwiseSum`: the parallel runtime. Each
  lock-protected section is one step of a state machine; kernel writes happen
  between them, one at a time; any enabled step may come next. A step over a
  buffer is a transaction that means running the tiles in order.
- `Powers`, `Float64`, `HexText`, `HexFloat`: hexadecimal floats, rounded to nearest
  with ties to even (section 4.3.1 of IEEE 754-2019). `HexText` says how such a
  number is written and what it means, apart from any parser.
- `Limbs`, `Bigint`: the fixed-size limb integer of the decimal parser.
- `Regex`: matching, searching and replacing with compiled token programs.
- `Utf8`: the codec (sections 3 and 4 of RFC 3629).
- `ValueOrder`, `ValueMeaning`, `ValueHash`, `VecSort`: structural equality, hashing
  and ordering of values read through their descriptors, which of two values comes
  first, what a hash is told, and the sort built on the ordering.
- `EdnJson`, `JsonText`: the store client's one-pass EDN to node-JSON converter, and
  a reader of JSON (sections 5 and 7 of RFC 8259) that reads its output back.
- `Options`, `Seqs`, `Bytes`, `Arithmetic`: what the others share.

Code that reassigns state is a method or a class proved against a function of
its inputs or of the old state; the laws are lemmas about those functions.

One place where the code does not do what one would expect is stated as such:
`AssocFaithfulIff` gives the exact condition under which `assoc` of the trie goes
wrong, `RunFaithfulIff` the same for whole runs, and `HypothesisNeeded` a concrete
run over three texts whose hashes, computed as the JavaScript library does, differ
in bits 30 and 31 only. A corner no caller reaches is in the contract of `LongMul`: a second
operand with no limbs leaves the first as it is.

## Model

| member | source | states |
|---|---|---|
| Bits32.PopcountCorrect | beagle-lib/lib/beagle/hamt.js:35-40 | the branch-free word arithmetic counts exactly the set bits, for every 32-bit word |
| Bits32.Popcount | beagle-lib/lib/beagle/hamt.js:35-40 | the counter, reassigning one word four times, ends with the number of its bits that are set |
| Bits32.PopcountIsRank | beagle-lib/lib/beagle/hamt.js:57 | masking below a fragment and counting gives the number of smaller fragments present, the position of its slot |
| Hamt.FindIndex | beagle-lib/lib/beagle/hamt.js:90 | the position found is the first with an equal key, and -1 only when there is none |
| HamtRefinement.GetAnswers | beagle-lib/lib/beagle/hamt.js:47-59 | on a well-formed node a lookup along one path answers what all entries say: the value of an entry with an equal key, or nothing if no entry has one |
| HamtRefinement.MergeStores | beagle-lib/lib/beagle/hamt.js:64-76 | merging two entries with unequal keys gives a well-formed node holding the old entry and, inserted beside it, the new one |
| HamtRefinement.AssocStores | beagle-lib/lib/beagle/hamt.js:79-122 | outside the trap the new node is well formed and its walk is the old one with the equal key's entry replaced, or with one entry inserted; the returned flag says which |
| HamtRefinement.DissocRemoves | beagle-lib/lib/beagle/hamt.js:126-161 | the new node is well formed and its walk is the old one without the equal key's entry, or the node itself when there was none |
| HamtMap.AssocRefines | beagle-lib/lib/beagle/hamt.js:227-230 | a map that represents f, not trapped for k, represents f updated at k after assoc, and its count grows by one exactly when k was absent |
| HamtMap.DissocRefines | beagle-lib/lib/beagle/hamt.js:232-235 | a map that represents f represents f without k after dissoc, whatever the hashes, and the count follows |
| HamtMap.FindIsLookup | beagle-lib/lib/beagle/hamt.js:218-225 | get and has of a whole map agree with a scan of its walk |
| HamtMap.GetIsLookup | beagle-lib/lib/beagle/hamt.js:218-221 | a lookup with a default gives the value of an entry with an equal key, or the default just when no entry has one |
| HamtRuns.AssocFaithfulIff | beagle-lib/lib/beagle/hamt.js:79-122 | assoc updates every lookup and the count as a map does if and only if the search path does not end in a bucket of another label with the same low 30 bits that holds a key of another hash |
| HamtRuns.TrappedLoses | beagle-lib/lib/beagle/hamt.js:98-107 | when trapped, some entry is no longer found under its own key, or the key being put is counted a second time |
| HamtRuns.TrapArises | beagle-lib/lib/beagle/hamt.js:64-67 | two keys whose hashes differ in the top two bits only trap every third such key, from the empty map on |
| HamtRuns.HypothesisNeeded | beagle-lib/lib/beagle/core.js:961-1000 | without the separation of keys assoc is not a map update: under the library's own hash of texts, a map of "kobzxjzu" and "lgbnjtqi" loses a lookup or counts a key twice when "whnmlksm" is put |
| HamtRuns.SeparatedNotTrapped | beagle-lib/lib/beagle/hamt.js:98-107 | a key separated from all live keys is never trapped, in any well-formed node |
| HamtRuns.EveryRunRefines | beagle-lib/lib/beagle/hamt.js:201-245 | for every list of assoc and dissoc over a family of pairwise separated keys, lookups, walk and count of the final trie are those of the map updated in the same way |
| HamtRuns.RunFaithfulIff | beagle-lib/lib/beagle/hamt.js:201-245 | whatever the keys, every operation of a run changes all lookups and the count as on the map if and only if no assoc of the run is trapped |
| HamtRuns.NodeReduce | beagle-lib/lib/beagle/hamt.js:168-181 | the recursive walk with its loops calls the function exactly once for each entry, in walk order, each time with what the call before gave, and returns what the last call gave |
| HamtRuns.FromEntries | beagle-lib/lib/beagle/hamt.js:201-205 | building from a list of entries is the run of their assocs |
| HamtRuns.SetAddRefines | beagle-lib/lib/beagle/hamt.js:267-270 | adding a separated element makes exactly its equals members and returns the very same set when it was one already |
| HamtShape.RunCanon | beagle-lib/lib/beagle/hamt.js:126-161 | in every trie reached over separated keys each bitmap node holds keys of at least two hashes and each bucket keys of one hash |
| HamtShape.ContentsDetermineShape | beagle-lib/lib/beagle/hamt.js:64-122 | two canonical tries with the same entries have the same bitmaps and slots, and buckets that are permutations of each other; keys are compared by any symmetric relation that implies key equality, so by identity or by key equality itself |
| HamtShape.RunsAgree | beagle-lib/lib/beagle/hamt.js:201-245 | two runs from the empty map that stand for one map modulo key equality end in the same trie up to bucket order and equal keys, whatever their histories |
| HamtShape.MapUndo | beagle-lib/lib/beagle/hamt.js:227-235 | dissoc after assoc of an absent separated key gives back the structurally same map |
| AssocList.MatchIsScan | native-core/shim/native_shim.c:5102-5122 | at most one entry equals a given key although a key need not equal itself, so any match is the one the scan finds |
| AssocList.LookupAfterAssoc | native-core/shim/native_shim.c:5202-5242 | after assoc a key equal to k finds the new value and every other key finds what it found before |
| AssocList.LookupAfterDissoc | native-core/shim/native_shim.c:5291-5320 | after dissoc no key equal to k is found and every other key finds the entry it found before |
| AssocList.AssocKeepsOrder | native-core/shim/native_shim.c:5202-5242 | assoc keeps every stored key at its position, changes the value of the equal key only, and puts an absent key last |
| AssocList.DissocIsFilter | native-core/shim/native_shim.c:5291-5320 | dissoc leaves exactly the entries with keys not equal to k, in their order |
| AssocList.FromPairsOrder | native-core/shim/native_shim.c:5135-5170 | building from pairs lists the first pair of every key in order, with the value of its last pair |
| KeyKinds.BoolKeysMean | native-core/shim/native_shim.c:4646-4764 | boolean keys keep the law, and are equal exactly when they are the same |
| KeyKinds.IntKeysLawful | native-core/shim/native_shim.c:4654-4768 | integer keys keep the law the map asks of equality and hash, and are equal exactly when they are the same number |
| KeyKinds.IntScan | native-core/shim/native_shim.c:4654-4768 | a scan over integer keys finds a key exactly when that very number is stored |
| KeyKinds.FloatKeysLawful | native-core/shim/native_shim.c:4661-4783 | doubles keep the law with both zeros hashed alike, and are equal exactly when neither is NaN and they stand for the same real number |
| KeyKinds.FloatBits | native-core/shim/native_shim.c:4661-4783 | by their bits, two doubles are equal keys exactly when they are the same pattern of a number or both a zero of either sign |
| KeyKinds.TextHandlesLawful | native-core/shim/native_shim.c:4668-4803 | texts and keywords by handle keep the law: handles other than null are equal exactly when their texts are, a handle always equals itself, and null equals no other |
| KeyKinds.TextScan | native-core/shim/native_shim.c:4668-4803 | a scan over text keys finds a key exactly when some handle of the same text is stored, and then such a handle |
| KeyKinds.StructuralKeysLawful | native-core/shim/native_shim.c:4682-4811 | so do structural values under their equality, never hashed |
| KeyKinds.StructuralKeysMean | native-core/shim/native_shim.c:4682-4688 | values without NaN are one key exactly when neither comes before the other |
| KeyKinds.HashesTell | native-core/shim/native_shim.c:4750-4803 | where the mixing steps lose nothing, booleans, 64-bit integers, doubles other than NaN and texts have one hash exactly when they are equal keys |
| SlotTable.ProbeIsScan | native-core/shim/native_shim.c:5073-5100 | whatever the probe answers before its first empty slot is what the plain scan of all keys answers |
| SlotTable.Lookup | native-core/shim/native_shim.c:5073-5100 | the probe loop ends, since a table at most three quarters full has an empty slot, and returns the scan's answer |
| SlotTable.PlaceLinks | native-core/shim/native_shim.c:4853-4868 | filling the first empty slot of a key's walk keeps every entry reachable from its home without a gap |
| SlotTable.SlotCount | native-core/shim/native_shim.c:4826-4835 | the smallest allowed power of two whose three quarters hold the entries |
| NativeMap.Map.Find | native-core/shim/native_shim.c:5102-5122 | with or without a usable index, the position found is the one of the plain scan |
| NativeMap.Map.Get | native-core/shim/native_shim.c:5124-5128 | the value of the entry the scan finds, or none |
| NativeMap.Map.Contains | native-core/shim/native_shim.c:5130-5133 | true exactly when some stored key equals k |
| NativeMap.Map.IndexRebuild | native-core/shim/native_shim.c:4870-4895 | leaves a valid map, with a fresh table of exactly its keys just when the wanted size is within bounds and every key has a hash |
| NativeMap.Map.IndexAppend | native-core/shim/native_shim.c:4897-4922 | after an entry is appended the table, kept, rebuilt or dropped, is again of exactly the keys |
| NativeMap.Map.IndexAdopt | native-core/shim/native_shim.c:4924-4959 | a new map shares its source's table only when no key was appended, and never changes it |
| NativeMap.Map.AssocInPlace | native-core/shim/native_shim.c:5244-5289 | in place, growing when full, the entries become those of assoc on the list and new storage is fresh |
| NativeMap.Arena.FromArrays | native-core/shim/native_shim.c:5135-5170 | the new map holds the pairs with the last value of each key at its first position; all maps stay as they were |
| NativeMap.Arena.Assoc | native-core/shim/native_shim.c:5202-5242 | a new map with the list's assoc; every map handed out before keeps its state, its entries and its very slot table |
| NativeMap.Arena.Dissoc | native-core/shim/native_shim.c:5291-5320 | the list's dissoc, keeping the order of the rest, or the same map when the key is absent; every other map is kept |
| NativeMap.Arena.AssocTransient | native-core/shim/native_shim.c:5244-5289 | updates the transient in place and changes no other map, although arrays and tables are shared among persistent ones |
| NativeMap.Arena.PersistentClose | native-core/shim/native_shim.c:5188-5200 | the entries pass to a persistent header, the transient is retired, and no other map changes |
| MapRuns.RunFrom | native-core/shim/native_shim.c:5135-5320 | over any live maps, after any run of operations on any of them, every persistent map is the same object with the entries and the slot table it had, and every live handle stands for what the run over plain lists makes of it |
| MapRuns.RunKeepsEntries | native-core/shim/native_shim.c:5135-5320 | no run ever gives a map two equal keys |
| MapRuns.RunAll | native-core/shim/native_shim.c:5135-5320 | from an empty arena, a whole run on the heap leaves every live map with the state and entries the run over plain lists gives its handle |
| NativeVec.Copy | native-core/shim/native_shim.c:4356-4357 | copies a range between arrays and leaves the rest of the target |
| NativeVec.PushCopy | native-core/shim/native_shim.c:4382-4398 | a private vector with the value appended and room for twice as many elements, at least four |
| NativeVec.Vec.At | native-core/shim/native_shim.c:4333-4341 | reads the element of the header at the index |
| NativeVec.Arena.Push | native-core/shim/native_shim.c:4364-4399 | returns old ++ [x]; every live header and builder keeps its elements, whether the push wrote shared storage or copied, and it wrote in place exactly when the header ended at the watermark with room left |
| NativeVec.Arena.TakeTip | native-core/shim/native_shim.h:109-117 | writing the slot at the watermark changes the elements of no header over that storage |
| NativeVec.Arena.Assoc | native-core/shim/native_shim.c:4343-4362 | a private copy with one element replaced; every header and builder is kept |
| NativeVec.Arena.Slice | native-core/shim/native_shim.c:4522-4546 | a private copy of the range; every header and builder is kept |
| NativeVec.Arena.Concat | native-core/shim/native_shim.c:4496-4520 | a private copy of both in order, even of a vector with itself; every header and builder is kept |
| NativeVec.Arena.Reverse | native-core/shim/native_shim.c:4548-4566 | element i of the result is element length - 1 - i of the vector; every header and builder is kept |
| NativeVec.Arena.TransientPush | native-core/shim/native_shim.c:4433-4473 | the builder gains the element and no vector or other builder changes, whether or not its storage grew |
| NativeVec.Arena.TransientFreeze | native-core/shim/native_shim.c:4475-4494 | the builder's storage becomes a vector's with a watermark at its length, the builder is spent, and nothing else changes |
| VecRuns.RunFrom | native-core/shim/native_shim.c:4285-4566 | over any live headers and builders, after any run of operations, every header is the same object with the elements it had, and the new ones hold the sequences of the run over values |
| VecRuns.RunAll | native-core/shim/native_shim.c:4285-4566 | from an empty arena, a whole run on the heap gives every header the sequence of the run over values |
| Tiles.TilesPartition | native-core/shim/native_parallel.c:103-112 | every position of a buffer is in the tile position / width, which exists, and in no other |
| Tiles.TileInside | native-core/shim/native_parallel.c:193-204 | a tile of the job is a non-empty range inside the buffer and neither its product nor its end overflows 64 bits |
| Tiles.BoundedWindowsExact | native-core/shim/native_parallel.c:160-164 | with bounded edges the window holds exactly the positions some cell of the tile looks at within the halo |
| Tiles.PeriodicWindowsExact | native-core/shim/native_parallel.c:166-188 | with periodic edges the two windows hold exactly the positions (i + d) mod length and do not overlap |
| Tiles.WindowsFit | native-core/shim/native_parallel.c:567-593 | under the step's own checks no intermediate of the windows leaves 64 bits and both windows lie inside the buffer |
| WorkerPool.StepKeeps | native-core/shim/native_parallel.c:240-285 | every locked section and every checked write, by any thread, keeps the invariant: claims are a prefix held once each, no wake-up is lost, the lowest failure is right, and each private cell reflects its own tile's writes so far |
| WorkerPool.ReachableInv | native-core/shim/native_parallel.c:240-285 | the invariant holds after every schedule, until a write outside its tile traps |
| WorkerPool.PoolInv | native-core/shim/native_parallel.c:240-285 | the same from a newly made pool of any number of threads, whatever is called |
| WorkerPool.DoneIsQuiet | native-core/shim/native_parallel.c:233-238 | when the job is done nothing is in flight, every claimed partition has finished, and without a failure all were claimed |
| WorkerPool.ReportIsExact | native-core/shim/native_parallel.c:469-551 | whatever the schedule, the partition reported is the least failing one of the whole job, and a job without failure has completed every partition |
| WorkerPool.NotStuck | native-core/shim/native_parallel.c:240-285 | while a job is active some step of the pool is enabled |
| WorkerPool.StepUsesWork | native-core/shim/native_parallel.c:240-285 | every step of the pool uses up work |
| WorkerPool.CallIsBounded | native-core/shim/native_parallel.c:240-285 | on every schedule a call still active has taken no more pool steps than the work it started with and two for each wait that ended early |
| WorkerPool.CallReturns | native-core/shim/native_parallel.c:469-551 | from every active state pool steps alone, no more than the work left, lead to the return of the call or to a trap |
| WorkerPool.TrapsExactly | native-core/shim/native_shim.c:4117-4141 | a step traps exactly when it is a checked write to a position outside the buffer or outside the tile its partition has by number |
| WorkerPool.NeverTraps | native-core/shim/native_parallel.c:240-285 | jobs whose writes all land in their own tiles never trap, on any schedule of any calls |
| WorkerPool.CallComesBack | native-core/shim/native_parallel.c:469-551 | for such a job pool steps alone, within the work left, lead from every active state to the return of the call |
| WorkerPool.QuietIsDone | native-core/shim/native_parallel.c:538-542 | with every worker asleep an active job is done, so a waiting dispatcher has been signalled |
| TiledStep.PoolStepMeans | native-core/shim/native_parallel.c:601-625 | on a done pool the coverage check and the copy do what the job means: the least failing or least incomplete partition and an untouched next, or next as the tiles in order make it |
| TiledStep.CallMeans | native-core/shim/native_parallel.c:469-625 | for any schedule and worker count, a call that has returned was cancelled and changed nothing, or did what its job means |
| TiledStep.SchedulesAgree | native-core/shim/native_parallel.c:601-625 | pools of any size on any schedules end one job with the same outcome, failing partition and contents, whatever their private cells held before |
| TiledStep.CallsAgree | native-core/shim/native_parallel.c:469-625 | two whole calls of one job, on any two pools at any time, are answered alike whatever scratch contents each pool had left |
| TiledStep.ScratchForgotten | native-core/shim/native_parallel.c:601-623 | where every cell is covered by its own tile, nothing of the uncleared scratch cells reaches the result |
| TiledStep.StepTransactional | native-core/shim/native_parallel.c:613-624 | next ends as it was, or as the tiles in order make it, and as it was whenever the outcome is a failure |
| TiledStep.StepMeansUnique | native-core/shim/native_parallel.c:601-625 | the meaning of a job leaves one outcome, one failing partition and one next, independent of the scratch contents |
| TiledStep.InOrderCell | native-core/shim/native_shim.c:4117-4141 | since checked writes stay in their tile, a cell after the first n tiles is as its own tile left it |
| TiledStep.RunAlone | native-core/shim/native_parallel.c:522-535 | the loop of a one-worker runtime traps exactly when a tile reached before any failure writes outside its range, and otherwise stops at the least failure with the cells the tiles so far make in order |
| TiledStep.Commit | native-core/shim/native_parallel.c:613-624 | next becomes the private cells only when nothing failed and every cell was written; else the first gap names the partition |
| TiledStep.StepAlone | native-core/shim/native_parallel.c:554-625 | a step on one worker traps exactly as its loop does, leaving next alone, and otherwise is the step its job means |
| TiledStep.Runtime.Begin | native-core/shim/native_parallel.c:483-512 | the shared counters and the report follow the state machine through the start of a call: cancelled, over no partition, or handed to the pool |
| TiledStep.Runtime.Claim | native-core/shim/native_parallel.c:256-264 | the shared counters follow the state machine through a claim, and a partition is returned exactly when the worker got one |
| TiledStep.Runtime.Record | native-core/shim/native_parallel.c:268-279 | the counters follow the recording of a status, and the signal goes out exactly when a waiting dispatcher should wake |
| PairwiseSum.TreeOfPairs | native-core/shim/native_parallel.c:666-680 | one round of pairing leaves the value of the balanced tree unchanged |
| PairwiseSum.ReduceInPlace | native-core/shim/native_parallel.c:666-682 | rounds written over the front of the array compute the fixed balanced tree over the original partials, for any binary operation |
| PairwiseSum.TilePartial | native-core/shim/native_parallel.c:214-231 | the loop over one tile computes the left fold of its cells |
| PairwiseSum.SumJobPartials | native-core/shim/native_parallel.c:214-231 | on every schedule a done sum job has stored each tile's own sum, so the result depends on cells and tile width only |
| PairwiseSum.SumCallMeans | native-core/shim/native_parallel.c:628-663 | a whole sum call that returns uncancelled and without a trap has finished with each tile's own sum as its partials, on any pool and any schedule |
| PairwiseSum.SumCall | native-core/shim/native_parallel.c:628-690 | the value returned at the end of a sum call is zero for an empty buffer and else the fixed balanced tree over the tile sums; for an associative operation with a neutral zero it is the left-to-right sum of the buffer, empty or not |
| PairwiseSum.SumIsFold | native-core/shim/native_parallel.c:628-690 | for an associative operation with a neutral zero the result is the plain left-to-right sum, for every tile width |
| Float64.NearestByNeighbours | native-core/shim/native_shim.c:7779-7872 | a pattern on the right side of the midpoints to both neighbours is the nearest one, ties to even |
| Float64.NearestUnique | native-core/shim/native_shim.c:7779-7872 | no value has two nearest patterns |
| HexFloat.AppendBits | native-core/shim/native_shim.c:7704-7717 | the 64-bit prefix and the tail flag stay an exact account of the whole number as digits of any number are appended |
| HexFloat.RoundPrefix | native-core/shim/native_shim.c:7719-7741 | guard and sticky bits round the whole number, not just the prefix, to the bits kept, ties to even |
| HexFloat.ParseExponent | native-core/shim/native_shim.c:7743-7777 | accepts exactly an optional sign and decimal digits, and gives the true exponent or the cap |
| HexFloat.ReadDigits | native-core/shim/native_shim.c:7795-7829 | accepts exactly hexadecimal digits with at most one point before the marker, and accounts for their number, place and leading bits |
| HexFloat.CapIsSafe | native-core/shim/native_shim.c:7839-7846 | for texts up to 2147483647 bytes the capped exponent decides overflow, underflow and everything between as the true one does |
| HexFloat.RoundedIsNearest | native-core/shim/native_shim.c:7847-7866 | the rounded bits placed in their binade are the nearest pattern, over subnormals, carries into the next binade and overflow |
| HexFloat.HexDigitMeans | native-core/shim/native_shim.c:7678-7689 | a digit is worth its place among the characters 0123456789abcdef or 0123456789ABCDEF, and every other byte is no digit |
| HexFloat.PiecesMean | native-core/shim/native_shim.c:7779-7838 | every number written in pieces is well formed, and what the parser takes it for is its digits as one number in base 16, divided by 16 for each digit behind the point, times two to the power |
| HexFloat.TakeApart | native-core/shim/native_shim.c:7779-7838 | every text the parser takes for well formed can be taken apart into such pieces |
| HexText.WholeNumber | native-core/shim/native_shim.c:7779-7872 | the digits of any whole number, written in either case and followed by p0, mean that number |
| HexFloat.ParseHex | native-core/shim/native_shim.c:7779-7872 | a text is accepted exactly when it can be written as hexadecimal digits with at most one point, a marker, an optional sign and decimal digits; the result is the pattern nearest what those digits mean, ties to even, with the sign asked for |
| Limbs.FitsByLength | native-core/shim/native_shim.c:1913-1917 | a normalized number fits n limbs exactly when it has no more than n |
| Bigint.Bigint.SmallAddFrom | native-core/shim/native_shim.c:2011-2025 | adds a limb at a place exactly, and fails exactly when the sum needs more limbs than there are |
| Bigint.Bigint.SmallMul | native-core/shim/native_shim.c:2034-2042 | multiplies by a limb exactly, fails exactly when the product needs more limbs, and keeps the number normalized |
| Bigint.Bigint.LargeAddFrom | native-core/shim/native_shim.c:2048-2077 | adds a whole number at a place exactly, or fails exactly for lack of room |
| Bigint.Bigint.LongMul | native-core/shim/native_shim.c:2086-2120 | the normalized exact product (the number itself when the second operand has no limbs); it fails exactly when one limb's product has no room at its place or the whole needs more limbs than there are, which for a normalized number other than zero is the latter alone |
| Bigint.RoomyIfFits | native-core/shim/native_shim.c:2086-2120 | for a normalized number other than zero, a product that fits leaves room for each limb's product |
| Bigint.Bigint.ShlBits | native-core/shim/native_shim.c:2276-2299 | multiplies by a power of two below a limb exactly, and fails exactly for lack of room |
| Bigint.Bigint.Shl | native-core/shim/native_shim.c:2329-2339 | multiplies by any power of two exactly; it fails exactly when the widened limbs moved up are too many, which for a normalized number other than zero means that the result needs more limbs than there are |
| Bigint.ShiftFitsExactly | native-core/shim/native_shim.c:2329-2339 | for a normalized number other than zero, counting limbs decides exactly whether the shifted number fits |
| Bigint.Bigint.Compare | native-core/shim/native_shim.c:2254-2271 | on normalized numbers the sign returned is the order of the values |
| Bigint.Bigint.Hi64 | native-core/shim/native_shim.c:2213-2245 | on normalized numbers the top 64 bits with the first one set, and a flag that is set exactly when a bit below them is |
| Bigint.Bigint.PowFive | native-core/shim/native_shim.c:2376-2406 | multiplies by five to any exponent exactly through the two tables; a normalized number, zero included, fails exactly for lack of room |
| Bigint.Bigint.PowTen | native-core/shim/native_shim.c:2410-2413 | multiplies by ten to any exponent exactly; a normalized number other than zero fails exactly for lack of room, and zero exactly when the exponent asks for more whole limbs than there are |
| Bigint.LargestFits | native-core/shim/native_shim.c:1796-1807 | the buffer has room for every number of d decimal digits times ten to the n with d + n up to 767 + 342, so the multiplication by ten never fails on those |
| Bigint.SmallPower | native-core/shim/native_shim.c:2133-2175 | entry e of the table of small powers is five to the e |
| Bigint.LargePower | native-core/shim/native_shim.c:2133-2175 | the five limbs of the large entry are five to the 135 |
| Regex.ClassMember | native-core/shim/native_shim.c:8567-8588 | the loop over a class accepts exactly the bytes its ranges and single bytes list, or exactly the others when negated |
| Regex.AtomMatches | native-core/shim/native_shim.c:8561-8606 | which byte an atom takes, by number: a digit is 48 to 57, white space 9 to 13 or 32, a literal its own byte, and a class its listed ranges and single bytes, negated or not |
| Regex.MatchesCross | native-core/shim/native_shim.c:8753-8817 | two ways through the same tokens cross: a match that starts earlier and ends later can be joined from the later start |
| Regex.GreedyIsLongest | native-core/shim/native_shim.c:8790-8817 | taking the longest repetition that leads anywhere leads to the longest match |
| Regex.MatchTokens | native-core/shim/native_shim.c:8753-8817 | finds a match whenever the tokens match the text from there by their declarative meaning, and always the longest |
| Regex.AnchoredAtZero | native-core/shim/native_shim.c:8831-8856 | a program with a start assertion anywhere in it matches at 0 only |
| Regex.Search | native-core/shim/native_shim.c:8831-8856 | the first place at or after the offset where the program matches, with the longest match there, or none when there is none, anchored or not |
| Regex.TextMatches | native-core/shim/native_shim.c:8858-8868 | looking only at the first match found decides whether the whole text matches |
| Regex.Measure | native-core/shim/native_shim.c:8870-8909 | the measuring pass counts exactly the matches and bytes of the replaced text, and gives up exactly when it exceeds 64 bits |
| Regex.Replace | native-core/shim/native_shim.c:8870-8951 | the writing pass fills the buffer the measuring pass sized exactly, with the source in which each successive match is replaced |
| Regex.ReplacedSplices | native-core/shim/native_shim.c:8870-8951 | the replaced text is the source with the successive first and longest matches, one behind the other, taken out and the replacement put in, and nothing else changed |
| Regex.SpliceItself | native-core/shim/native_shim.c:8911-8951 | replacing every match by its own text gives the source back |
| Utf8.SequenceStarts | native-core/shim/native_shim.c:7485-7531 | every well-formed byte sequence is the encoding of its value, which is a scalar |
| Utf8.StartsSequence | native-core/shim/native_shim.c:8337-8384 | the encoding of every scalar is a well-formed sequence with that value |
| Utf8.ChecksAreExact | native-core/shim/native_shim.c:7485-7531 | behind a leading byte the range checks on the decoded value accept exactly the well-formed sequences |
| Utf8.OneAt | native-core/shim/native_shim.c:7485-7531 | at most one scalar is encoded at a place |
| Utf8.Next | native-core/shim/native_shim.c:7485-7531 | decodes the scalar encoded at the offset and the place behind it, or nothing exactly when none is |
| Utf8.Previous | native-core/shim/native_shim.c:8131-8151 | decodes the scalar whose encoding ends at the offset, or nothing exactly when none does |
| Utf8.PreviousUndoesNext | native-core/shim/native_shim.c:8131-8151 | two encodings that end at one place start at one place and are of one scalar |
| Utf8.CodepointLength | native-core/shim/native_shim.c:8337-8351 | the length announced is that of the encoding |
| Utf8.WriteCodepoint | native-core/shim/native_shim.c:8353-8384 | writes exactly the encoding and leaves the bytes around it |
| Utf8.Valid | native-core/shim/native_shim.c:9176-9223 | accepts exactly the texts that are encodings of scalars one after another |
| Utf8.DecodeAll | native-core/shim/native_shim.c:7485-7531 | decoding reaches the end exactly on the texts the validator accepts, what it decodes encodes to the text again, and from the encoding of any scalars it gives exactly those scalars back |
| Utf8.EncodedIsValid | native-core/shim/native_shim.c:8353-8384 | the encoding of any scalars is a valid text |
| Utf8.EncodeAllInjective | native-core/shim/native_shim.c:8353-8384 | different scalars have different encodings |
| ValueOrder.ShortcutsAgree | native-core/shim/native_shim.c:6502-6639 | answering level for two pointers to one place without reading them changes no comparison |
| ValueOrder.Transitive | native-core/shim/native_shim.c:6502-6639 | three comparisons of values of one shape fit together and the comparison is antisymmetric, over floats, texts, records, unions, vectors and references |
| ValueOrder.TotalPreorder | native-core/shim/native_shim.c:6641-6651 | the comparison as the code does it is a total preorder, NaN included |
| ValueOrder.EqualValues | native-core/shim/native_shim.c:5790-5943 | values found equal, by reading or by pointer, compare as level and have one hash, signed zeros and shared NaN included |
| ValueOrder.EqualSymmetric | native-core/shim/native_shim.c:5790-5943 | structural equality is symmetric, over every shape |
| ValueOrder.EqualTransitive | native-core/shim/native_shim.c:5790-5943 | structural equality is transitive on stored values, although pointers to one place are equal unread |
| ValueOrder.EqualIffLevel | native-core/shim/native_shim.c:6395-6448 | a value without NaN equals exactly the values it is level with |
| ValueMeaning.CompareMeans | native-core/shim/native_shim.c:6502-6651 | the comparison answers -1 exactly when the left value comes first: smaller numbers, false, smaller floats by real value with NaN last, bytes by the first that differs and a prefix first, unions by tag, null before a reference |
| ValueMeaning.RecordsDecided | native-core/shim/native_shim.c:6540-6560 | the first field that is not level decides which of two records comes first |
| ValueMeaning.VectorsDecided | native-core/shim/native_shim.c:6589-6625 | the first item that is not level decides between two vectors, and a shorter vector with level items comes first |
| ValueMeaning.FloatEqualMeans | native-core/shim/native_shim.c:5790-5943 | two floats are equal exactly when neither is NaN and they stand for the same real number |
| ValueMeaning.NanIsUnequal | native-core/shim/native_shim.c:5790-5943 | a value that holds NaN in a place that is read equals nothing |
| ValueHash.HashTells | native-core/shim/native_shim.c:6164-6371 | the hash is told all that equality looks at: where the mixing steps lose nothing, stored values without NaN have one hash exactly when they are equal |
| ValueHash.KeepingSteps | native-core/shim/native_shim.c:6164-6371 | there are mixing steps that lose nothing, so the law above is about some hash |
| VecSort.SortSorts | native-core/shim/native_shim.c:6653-6700 | insertion sort under a total preorder is sorted |
| VecSort.SortStable | native-core/shim/native_shim.c:6684-6695 | elements level with each other keep their order |
| VecSort.SortsValues | native-core/shim/native_shim.c:6653-6700 | sorting values of one shape gives a sorted, stable permutation |
| VecSort.InsertInPlace | native-core/shim/native_shim.c:6679-6697 | shifting elements up and writing the held one is the insertion, and the elements behind it stay |
| VecSort.Sort | native-core/shim/native_shim.c:6653-6700 | the in-place loop on a private slice computes the insertion sort of the source, which is not written |
| VecSort.SortValues | native-core/shim/native_shim.c:6653-6700 | on stored values of one shape the copy is a permutation in which no value comes before one in front of it and level values keep their order; signed integers end up nondecreasing as numbers |
| EdnJson.TokenEnd | store/bin/beagle-store-cli.js:8-12 | stops at the first of the five separators and six brackets, or at the end |
| EdnJson.QuotedTokenEnd | store/bin/beagle-store-cli.js:18-22 | stops behind the first quote that is not escaped or at the end |
| EdnJson.QuotedExactly | store/bin/beagle-store-cli.js:18-22 | a string that ends exactly at the quote behind it has every quote and backslash inside it escaped |
| EdnJson.EdnToJson | store/bin/beagle-store-cli.js:52-56 | the loop writes what the converter, defined turn by turn, makes of the text from an empty stack |
| EdnJson.NodeFeeds | store/bin/beagle-store-cli.js:24-46 | in any position of any stack, a node's tokens write its JSON between what its container wants before and after an item |
| EdnJson.ConvertsTrees | store/bin/beagle-store-cli.js:24-56 | for every list of trees printed with any white space and commas, the output is exactly the recursive encoding |
| EdnJson.LayoutIsLost | store/bin/beagle-store-cli.js:24-56 | two prints of the same trees give the same output |
| EdnJson.SpacedIsPrinted | store/bin/beagle-store-cli.js:24-56 | every list of writable tokens has a print, so the law above is about every tree |
| JsonText.ReadsBack | store/bin/beagle-store-cli.js:24-56 | the output for any print of trees, read as JSON, is an array for each tree: its kind and its text, its items, or its entries as arrays of key and value |
| JsonText.OutputTells | store/bin/beagle-store-cli.js:24-56 | texts with one output are prints of the same trees, but for the brackets of their vectors |

## Left out

- HamtRuns.EveryRunRefines: holds for separated keys; without that the code loses keys, and the exact condition is `HamtRuns.AssocFaithfulIff` for one assoc and `HamtRuns.RunFaithfulIff` for a run.
- Traps on invalid arguments (null pointers, negative lengths, broken headers, retired maps, capacities beyond 64 bits, code points out of range) are preconditions.
- `equiv` and `hash` of the JavaScript library are parameters under the laws they promise, but for the hash of texts; the mixing steps of the native hashes are arbitrary functions, and the last mask or mix of a finished hash is left out.
- The kind check of a shared native index is dropped: one map arena has one key equality, and a flag says whether its kind is hashed at all.
- `hash & (slots - 1)` on a table of a power of two is written as a remainder, and the bit operations of the float and limb code as products, quotients and remainders of powers of two.
- The generation counter of the worker pool does not wrap at two to the 64; one thread dispatches at a time; a kernel's writes and status depend on its partition alone; thread creation, scratch reservation and the default runtime are not modelled.
- The additions of the sum are an arbitrary binary operation; IEEE rounding of sums is not part of this model.
- The decimal float path other than its big integer (the fast path, the power table of Eisel and Lemire, digit comparison) rests on tables and proofs outside the repository.
- Compiling regular expressions, capture positions, `find` and `split`: matching starts from a token program, and programs are taken as the compiler marks them, anchored exactly when they contain a start assertion.
- Surrounding white space, signs and the names of special values around hexadecimal floats; integer parsing and formatting.
- EDN texts are sequences of characters rather than of UTF-16 code units; every character the converter looks for is one unit.
- Malformed EDN, the validity of string escapes, and `JSON.stringify`, which is a parameter.
- Coercion of native objects to tries, conj with a malformed entry, and removal from sets, which is removal from the map underneath.
- The order of floats is modelled on their bit patterns and Unicode tables, word boundaries and case mapping are data outside this model.
- Operating-system calls, arenas, alignment and struct layout: allocation is fresh disjoint storage.

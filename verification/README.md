# kineticio, modelled and verified in Dafny

kineticio stores files as erasure-coded stripes on drives that offer one atomic operation, a conditional put. This
project models its core and proves what that core is for. `dafny verify dfyconfig.toml` checks all of it.

The main results, from the stripe up to the file:

* **Competing writers** (`StripeProtocol`, `StripeProgress`, `StripeGuard`). A transition system in which any number of
  clients write the same stripe, one drive operation per step, with non-atomic polls. In every run at most one PUT
  returns OK, exactly one once all have returned, and only the elected first writer repairs. It is done within 3n + 3
  steps of its own, and every other client within as many after that; one that returns an error has left nothing on any
  drive. At most one PUT succeeds in every run *if and only if* there are more data chunks than parities, the rule the
  cluster map enforces.
* **Generations of writers** (`StripeGenerations`, `StripeHistories`, `StripeLatePoll`, `StripeEarlyStart`). Any number
  of generations, each expecting the version with which the winner of the one before has replaced its own. If each starts
  on a stripe that is all of that version, and no poll goes on into a later generation, every generation has at most one
  OK. Both conditions are exact: with polls that go on, this holds in every run *if and only if* the stripe has at most
  two chunks; and with timely polls it holds, whatever number of drives lets a client start from the version on them, *if
  and only if* that number is all drives. A GET lets a client start from a data quorum, so there it holds *if and only
  if* there are no parities.
* **Erasure coding and striping** (`LinearAlgebra`, `Redundancy`, `Striping`). Over an arbitrary commutative ring,
  whatever numParity blocks are missing, `compute` gives back the code word; and `reconstructValue` gives back the value
  exactly if numData chunks of it are intact, short values with elided chunks included.
* **Reading and repairing** (`StripeAccess`, `ClusterAccess`, `ClusterSafety`, `ClusterHomes`, `XorParity`). On the drives
  of a cluster: if the drives a GET asks are those written, it returns the value of the last PUT or fails, never anything
  else, and tolerates any numParity silent drives; repair restores every chunk. The drives are the same *if and only if*
  the 32-bit sum of hash and offset does not wrap on the way to the parities or the number of drives divides 2^32. Exactly
  then are numParity losses tolerated, and exactly then does a GET never return another value, another version or
  NOT_FOUND, whatever the other drives hold. If they hold nothing under the key, it is also safe where the wrap sends all
  parities to such drives and there are more than twice as many data chunks as parities, and nowhere else.
* **The two joined** (`StripeEndToEnd`). In every run, once a PUT returned OK, a GET returns exactly its version and
  value, whatever others do meanwhile, whenever each drive is read and whichever numParity drives are silent, under the
  same condition on the hash.
* **CRC-32C** (`ShiftRegister`, `Crc32c`, `Crc32cValues`, `Crc32cLanes`). Slicing-by-8 and the three-lane loop with its
  GF(2) matrices both equal the bit-at-a-time CRC of section 12.1 of RFC 3720, which has the published generator, check
  value and residue. The algebra is done over any register with a linear step; words are sequences of bits.
* **Blocks and files** (`DataBlocks`, `FileAccess`, `LastBlock`). No lost updates and read-your-writes under foreign
  puts; a file cut into such blocks reads and writes like a flat one, as far as its last block is found.
* **Listing** (`Paging`). Page by page, every key stored on more than numParity drives is visited exactly once, and the
  listing ends if and only if no key equals the end of the range.
* **Bookkeeping** (`CacheState`, `CacheSweeps`, `DataCache`, `Callbacks`, `Placement`, `Prefetch`, `Keys`). Conservation
  and eviction of the cache, oldest first and no more than needed; first-result-wins accounting, whatever answers arrive
  when; placement in 32 bits, the read-ahead predictor, and key codecs.

Some properties do not hold of the code without a condition. Each has an exact one, or an instance that shows it fails:

* `Placement.TwoPhasesAgree`, `ClusterAccess.ToleranceIsExact`, `ClusterSafety.SafetyIsExact`,
  `ClusterHomes.SafetyAtHomeIsExact`: a wrap of the 32-bit sum sends the parities of a two-phase GET to other drives,
  which costs both tolerance and safety, for every code and layout. The three ways a GET then goes wrong have an instance
  each: `XorParity.WrongValue` (another value with status OK), `XorParity.WrongVersion` (an older version) and
  `XorParity.WronglyNotFound` (NOT_FOUND), the last two with every drive answering.
* `StripeLatePoll.ApartExactly`: a poll that goes on into the next generation lets a loser overwrite and return OK.
* `StripeEarlyStart.StartExactly`, `StripeEarlyStart.QuorumStartExactly`: two clients that start from a version which is
  still being repaired can both return OK.
* `FileAccess.LengthIsExact`, `FileAccess.ReadCutShort`: a read ends with the block that the client takes for the last
  one, which is short of the file's end if that is not the true one.
* `LastBlock.LastBlockExactly`, `LastBlock.MoreDrivesThanChunks`: the last block of a file is found exactly if every
  answering drive that holds any block of it holds the last one, which need not be with more drives than chunks.
* `LastBlock.ForeignLastBlock`: a file named like a block of another file can be taken for that file's last block.
* `Paging.ListingEndsExactly`: a stored key equal to the end of a listed range makes the listing go on for ever.
* `DataBlocks.MergeKeepsSizeExactly`, `DataBlocks.DataBlock.EmptyWriteTruncates`: a pending write of length 0 acts as a
  truncation in the next merge.
* `Keys.UrlRoundTrip`, `Keys.SizeRecovered`: urls and sizes that survive their encodings.
* `Callbacks.PayloadStays`: a late success replaces the payload of a finished callback, although not its status.

The source is imperative almost throughout, and so is the model: classes with the source's fields, loops with invariants,
arrays changed in place. Each method is tied to a specification function, and the results are lemmas about that.
Networks, clocks, hashes and other clients are parameters: a list of answers, of foreign puts, of expired items.
Where a proof about many objects need not look into each of them, a predicate is put behind a few steps of recursion.

## Model

| member | source | states |
|---|---|---|
| `Election.MostFrequentVersion` | src/KineticClusterStripeOperation.cc:588-622 | the loop returns the elected version: the one found most often, at its earliest position among equals, with its frequency |
| `Election.ElectionUnique` | src/KineticClusterStripeOperation.cc:588-622 | frequency and position determine the elected version; no tie is left open |
| `Election.ElectionExists` | src/KineticClusterStripeOperation.cc:588-622 | every set of answers has an elected version, or none was found at all |
| `Election.MajorityWins` | src/KineticClusterStripeOperation.cc:588-622 | a version on more than half of the drives is elected whatever the others hold |
| `StripeProtocol.MixElectsWinner` | src/KineticClusterStripeOperation.cc:273-290 | a non-atomic poll that sees each drive before or after its repair still elects the original winner, and absence does not outvote it |
| `StripeProtocol.QuorumIsWinner` | src/KineticClusterStripeOperation.cc:211-218 | a client first on numData drives is the winner of the election |
| `StripeProtocol.PollDecides` | src/KineticClusterStripeOperation.cc:273-306 | a completed poll makes the winner repair and makes nobody else do so |
| `StripeProtocol.WritesDoneKeeps` | src/KineticClusterStripeOperation.cc:197-208 | evaluating the first round of writes keeps the invariant: settled drives, returned OK only for the winner |
| `StripeProtocol.DecideKeeps` | src/KineticClusterStripeOperation.cc:273-306 | every outcome of a poll (repair, poll again, give up) keeps the invariant |
| `StripeProtocol.CasWriteKeeps` | src/KineticClusterStripeOperation.cc:154-177 | a conditional write on one drive keeps the invariant whatever the other clients are doing |
| `StripeProtocol.CasRepairKeeps` | src/KineticClusterStripeOperation.cc:244-258 | a repair write on one drive succeeds and keeps the invariant |
| `StripeProtocol.NextKeeps` | src/KineticClusterStripeOperation.cc:197-325 | every step of every client keeps the invariant |
| `StripeProtocol.RunKeeps` | src/KineticClusterStripeOperation.cc:197-325 | the invariant holds in every state of every run |
| `StripeProtocol.AtMostOnePutSucceeds` | src/KineticClusterStripeOperation.cc:197-325 | in every state of every run at most one PUT has returned OK, only the winner repairs, and once it has returned every drive holds its version |
| `StripeProtocol.LoserStatus` | src/KineticClusterStripeOperation.cc:211-219 | which error a PUT returns that did not win: a version mismatch if and only if it was first on at most numParity drives, an I/O error if and only if on more |
| `StripeProtocol.FailedPutIsGone` | src/KineticClusterStripeOperation.cc:292-306 | a PUT that returned an error has left nothing behind: its version is on no drive, then and in all later states |
| `StripeProtocol.TargetIs` | src/KineticClusterStripeOperation.cc:273-281 | a poll is taken to show absence if and only if strictly more drives lack the key than hold any one version, and else the elected version |
| `StripeProtocol.ReturnsOnlyIf` | src/KineticClusterStripeOperation.cc:197-220 | under any interleaving a PUT returns only if all its writes took effect, or none did, or its last poll did not show its version |
| `StripeProtocol.ReturnIsFinal` | src/KineticClusterStripeOperation.cc:197-220 | a returned status never changes in the rest of the run |
| `StripeProgress.WinnerProgresses` | src/KineticClusterStripeOperation.cc:273-284 | each own step of the winner reduces what it has left to do, and no step of others changes that |
| `StripeProgress.NeverBlocked` | src/KineticClusterStripeOperation.cc:273-306 | until it has returned, a client can take a step on its own |
| `StripeProgress.WinnerStepsAreBounded` | src/KineticClusterStripeOperation.cc:197-284 | however the steps are interleaved, the winner takes at most 3n + 3 steps once the stripe is settled |
| `StripeProgress.LoserProgresses` | src/KineticClusterStripeOperation.cc:292-317 | once all drives hold the winner's version, each own step of another client reduces what it has left to do: one stale poll at most, then one that ends it |
| `StripeProgress.LoserStepsAreBounded` | src/KineticClusterStripeOperation.cc:273-317 | once the winner has returned, every other client takes at most 3n + 3 more steps, however they are interleaved |
| `StripeProgress.ExactlyOnePutSucceeds` | src/KineticClusterStripeOperation.cc:197-325 | once every client has returned, exactly one has returned OK, and its version is on every drive |
| `StripeGuard.GuardIsExact` | src/ClusterMap.cc:76-79 | at most one PUT succeeds in every run if and only if numData > numParity |
| `StripeGuard.Race.BothSucceed` | src/ClusterMap.cc:76-79 | for every configuration that breaks the rule, a run that ends with two PUTs returned OK |
| `StripeGenerations.GenerationsStayApart` | src/KineticClusterStripeOperation.cc:273-306 | any number of generations, each starting on a stripe that is all of the version it expects: as long as no late poll elects its own client, each has at most one PUT that returns OK, in every state of every run |
| `StripeGenerations.InTimeIsEnough` | src/KineticClusterStripeOperation.cc:273-306 | polls that end before a later generation begins are enough for that |
| `StripeGenerations.StepKeeps` | src/KineticClusterStripeOperation.cc:197-325 | a step of any generation keeps the invariant of the present one and, as if nothing later had ever been written, of every past one |
| `StripeHistories.RunIsHistory` | src/KineticClusterStripeOperation.cc:197-325 | every run of the protocol is a history whose later generations have not begun |
| `StripeLatePoll.ApartExactly` | src/KineticClusterStripeOperation.cc:273-306 | however long polls take, no generation has two PUTs that return OK, in every run, if and only if the stripe has at most two chunks |
| `StripeLatePoll.LatePollSucceeds` | src/KineticClusterStripeOperation.cc:273-306 | for every accepted configuration of three chunks or more, a run in which a loser polls on, sees a mixture of both generations, overwrites and returns OK like the winner before it |
| `StripeEarlyStart.StartExactly` | src/KineticClusterStripeOperation.cc:273-306 | if clients may start from a version that a given number of drives hold, then no generation has two PUTs that return OK, in every run with timely polls, if and only if that number is all drives |
| `StripeEarlyStart.EverywhereExactly` | src/KineticClusterStripeOperation.cc:197-325 | exactly then an OK of the latest generation means that all drives hold its version |
| `StripeEarlyStart.QuorumStartExactly` | src/KineticClusterStripeOperation.cc:625-648 | for the start that a GET allows, at numData drives, both hold if and only if there are no parities |
| `StripeEarlyStart.EarlyIsUnsafe` | src/KineticClusterStripeOperation.cc:273-306 | for every accepted configuration of three chunks or more and every smaller number, a run with timely polls in which two clients of one generation return OK |
| `StripeEndToEnd.OkIsLasting` | src/KineticClusterStripeOperation.cc:197-325 | the version of a PUT that returned OK stays on every drive for the rest of the run |
| `StripeEndToEnd.GetAfterOkPut` | src/KineticClusterStripeOperation.cc:651-669 | once a PUT returned OK, any later GET, non-atomic and with numParity drives silent, returns its version and value, if the drives asked are those written |
| `LinearAlgebra.SumExchange` | src/RedundancyProvider.cc:85-101 | (uM)x = u(Mx): the order of summation in the parity rows does not matter |
| `LinearAlgebra.InverseRecovers` | src/RedundancyProvider.cc:85-89 | a row of a left inverse applied to the surviving symbols gives the original symbol |
| `LinearAlgebra.InverseRow` | src/RedundancyProvider.cc:90-101 | an encode row times the inverse, applied to the surviving symbols, gives the symbol of that row |
| `Redundancy.RedundancyProvider.GetErrorPattern` | src/RedundancyProvider.cc:113-154 | the pattern of missing blocks and the common size, or the reason for refusal; which of the three it is, is decided by conditions that exclude each other |
| `Redundancy.RedundancyProvider.RemoveErrorRows` | src/RedundancyProvider.cc:51-60 | the encode rows and numbers of the first numData surviving blocks |
| `Redundancy.RedundancyProvider.GenDecodeMatrix` | src/RedundancyProvider.cc:28-103 | the decode rows of all missing blocks, data blocks first, in ascending order |
| `Redundancy.RedundancyProvider.GetCodingTable` | src/RedundancyProvider.cc:156-203 | the table of a pattern, whether cached or built; the cache only ever holds correct tables |
| `Redundancy.RedundancyProvider.Replicate` | src/RedundancyProvider.cc:205-220 | with one data block every missing block is a copy of a present one |
| `Redundancy.RedundancyProvider.Decode` | src/RedundancyProvider.cc:240-271 | each decoded block is written back to the position it belongs to |
| `Redundancy.RedundancyProvider.Compute` | src/RedundancyProvider.cc:222-271 | in place, the completed stripe; or the stripe untouched and an error, exactly if it is not solvable |
| `Redundancy.Code.RebuildsBlock` | src/RedundancyProvider.cc:85-101 | any missing block, data or parity, is rebuilt symbol by symbol from the survivors |
| `Redundancy.Code.CompletedIsCodeword` | src/RedundancyProvider.cc:222-271 | for every pattern of at most numParity missing blocks the completed stripe is the code word of the data |
| `Redundancy.Code.DataIsPrefix` | src/RedundancyProvider.cc:105-111 | the code is systematic: the code word starts with the data |
| `Striping.ValueToStripe` | src/KineticCluster.cc:160-199 | the stored stripe of a value: padded data chunks, parities, unused chunks elided; never throws |
| `Striping.EncodedStripe` | src/KineticCluster.cc:166-191 | chunks and computed parities form the code word of the padded value |
| `Striping.LayoutIs` | src/KineticCluster.cc:160-199 | the stored chunks symbol by symbol: chunk i holds the value from i chunk sizes on, filled up with zeros; a data chunk is elided if and only if it begins behind the value |
| `Striping.ReconstructValue` | src/KineticClusterStripeOperation.cc:484-562 | the rebuilt value, or an exception where none can be rebuilt |
| `Striping.GatherChunks` | src/KineticClusterStripeOperation.cc:493-531 | keeps exactly the chunks of the wanted version with a matching checksum, and notes elided ones |
| `Striping.FillZeroed` | src/KineticClusterStripeOperation.cc:533-547 | puts zero chunks of the common size where chunks were elided |
| `Striping.Merge` | src/KineticClusterStripeOperation.cc:551-561 | concatenation cut to the size in the version |
| `Striping.RoundTripDirect` | src/KineticClusterStripeOperation.cc:551-561 | a value comes back without decoding if no chunk is bad |
| `Striping.RoundTripDecoded` | src/KineticClusterStripeOperation.cc:484-562 | a value comes back through the decoder with at most numParity chunks lost, outdated or corrupt |
| `Striping.RebuiltExactly` | src/KineticClusterStripeOperation.cc:484-562 | reconstruction succeeds if and only if numData chunks are intact, and then yields the stored value |
| `StripeAccess.DoExecute` | src/KineticClusterStripeOperation.cc:625-648 | one attempt: a status needs numData answers, a success a rebuilt value |
| `StripeAccess.QuorumIntersects` | src/KineticClusterStripeOperation.cc:625-648 | among the answers of one expansion after a completed write, no other version and no absence is found numData times |
| `StripeAccess.AttemptAfterPut` | src/KineticClusterStripeOperation.cc:625-648 | one attempt on the answers of one expansion, for the data chunks or for all: the written value if numData chunks are intact, no result otherwise |
| `StripeAccess.NotFoundExactly` | src/KineticClusterStripeOperation.cc:625-648 | an attempt says NOT_FOUND if and only if no version is found numData times and absence is |
| `StripeAccess.ScanKey` | src/KineticAdminCluster.cc:189-220 | no action, action or unfixable, by elected frequency and absences; incomplete exactly if a drive did not answer |
| `StripeAccess.ScanForetellsRepair` | src/KineticAdminCluster.cc:189-256 | no action exactly if all drives hold one version; unfixable only if repair can do nothing |
| `StripeAccess.ScanExactly` | src/KineticAdminCluster.cc:189-220 | all three outcomes, whichever drives answer: no action if and only if all that answer hold one version and are numData at least; unfixable if and only if neither a version nor absence is found numData times |
| `StripeAccess.CompareAndPut` | src/KineticClusterStripeOperation.cc:154-177 | a put takes effect exactly if the drive holds the expected version |
| `StripeAccess.QuickRepair` | src/KineticClusterStripeOperation.cc:179-195 | rewrites exactly the chunks seen with another version and unchanged since |
| `StripeAccess.RepairKey` | src/KineticAdminCluster.cc:222-256 | repaired, removed or unrepairable, with the new contents of all drives, as RepairExactly and RepairRestores describe them |
| `StripeAccess.RepairExactly` | src/KineticAdminCluster.cc:222-256 | the key is removed if and only if no version is found numData times and absence is, and then no drive holds it; otherwise all drives come to hold one version that numData of them held, chunks of it untouched, or nothing changes |
| `StripeAccess.RemovedIsGone` | src/KineticAdminCluster.cc:243-250 | after a removal a GET returns NOT_FOUND with any numParity drives silent |
| `ClusterAccess.Layout.AskedAreHomes` | src/KineticClusterStripeOperation.cc:661-664 | a GET asks the drives the stripe was written to if and only if the sum does not wrap in between or the drive count divides 2^32 |
| `ClusterAccess.Execute` | src/KineticClusterStripeOperation.cc:651-669 | data chunks first, from the drives that their expansion gives, and the drives of the parities only if that gives no result |
| `ClusterAccess.DataChunksSuffice` | src/KineticClusterStripeOperation.cc:651-657 | after a completed PUT the data chunks alone give the value if and only if all of them can be read intact, or the value is empty and their drives answer; then no parity is asked for |
| `ClusterAccess.GetOfNoKey` | src/KineticClusterStripeOperation.cc:625-669 | a GET of a key that no drive holds returns NOT_FOUND if numData of the drives asked answer, and fails otherwise |
| `ClusterAccess.GetAfterPut` | src/KineticClusterStripeOperation.cc:625-669 | if these are the drives written, a GET after a PUT returns its version and value if numData chunks can be reached intact, and fails otherwise; never another version or NOT_FOUND |
| `ClusterAccess.ToleratesLosses` | src/KineticClusterStripeOperation.cc:651-669 | if they are, any numParity unreachable drives of the cluster are tolerated |
| `ClusterAccess.WrapLosesTolerance` | src/KineticClusterStripeOperation.cc:661-664 | after a harmful wrap, for every code and layout, a complete stripe and numParity silent drives for which the GET fails |
| `ClusterAccess.ToleranceIsExact` | src/KineticClusterStripeOperation.cc:651-669 | numParity losses are tolerated for every value if and only if there is no harmful wrap |
| `ClusterSafety.WrapLosesSafety` | src/KineticClusterStripeOperation.cc:661-664 | after a harmful wrap, for every code, layout and chunk size, a completed PUT and silent drives for which the GET returns another value with status OK |
| `ClusterSafety.SafetyIsExact` | src/KineticClusterStripeOperation.cc:651-669 | a GET after a completed PUT returns its version and value or fails, whatever drives are silent, if and only if there is no harmful wrap |
| `ClusterHomes.SafetyAtHomeIsExact` | src/KineticClusterStripeOperation.cc:651-669 | if only the homes of the chunks hold the key, so it is if and only if there is no harmful wrap, or the wrap sends all parities to other drives and there are more than twice as many data chunks as parities |
| `ClusterHomes.Misread` | src/KineticClusterStripeOperation.cc:661-664 | a parity looked up at the home of a data chunk or of another parity: a complete PUT and silent drives for which the GET returns another value with status OK |
| `ClusterHomes.FoundAbsent` | src/KineticClusterStripeOperation.cc:625-648 | all parities looked up on other drives and half of the data chunks missing: the GET returns NOT_FOUND for every value, with every drive answering |
| `ClusterHomes.RowsDiffer` | src/RedundancyProvider.cc:105-111 | no two parity rows of a code that recovers all losses of numParity blocks are equal |
| `ClusterAccess.RepairRestores` | src/KineticAdminCluster.cc:222-241 | every chunk is in place afterwards, a scan finds nothing to do, and without a harmful wrap any numParity later losses are tolerated |
| `XorParity.XorIsValid` | src/RedundancyProvider.cc:105-111 | a code with a parity that meets all conditions on codes |
| `XorParity.WrongValue` | src/KineticClusterStripeOperation.cc:661-664 | a complete PUT, one silent drive and a wrapped hash: the GET returns another value with status OK |
| `XorParity.WrongVersion` | src/KineticClusterStripeOperation.cc:661-664 | a PUT that missed one drive, all drives answering and a wrapped hash: the GET returns the older version |
| `XorParity.WronglyNotFound` | src/KineticClusterStripeOperation.cc:625-648 | a PUT of a fresh key that missed one drive, all drives answering and a wrapped hash: the GET returns NOT_FOUND |
| `ShiftRegister.Peel` | src/outside/crc32c.c:84-87 | a byte can be taken out of the register and fed from a table |
| `ShiftRegister.LaneJoin` | src/outside/crc32c.c:273-274 | a lane started at zero is joined by shifting the lane before it over its length |
| `ShiftRegister.RunLanes` | src/outside/crc32c.c:262-272 | the interleaved loop runs each lane over its own bytes |
| `Crc32c.CrcLaws` | src/outside/crc32c.c:40-41 | the bit step with the CRC-32C polynomial is linear over exclusive or |
| `Crc32cValues.GeneratorIs` | src/outside/crc32c.c:40-42 | bit i of the polynomial is set if and only if 31 - i is an exponent of the CRC-32C generator polynomial |
| `Crc32cValues.PolyValue` | src/outside/crc32c.c:42 | the polynomial, bit by bit, is 0x82f63b78 |
| `Crc32cValues.CheckValue` | src/outside/crc32c.c:77-106 | the CRC of the bytes 123456789 is 0xe3069283 |
| `Crc32cValues.CrcContinues` | src/outside/crc32c.c:77-106 | the CRC of a message can be continued: two calls in a row give that of the whole |
| `Crc32cValues.Residue` | src/outside/crc32c.c:77-106 | every message followed by its own CRC has the CRC 0x48674bc7 |
| `Crc32c.RunIsBitwise` | src/outside/crc32c.c:77-106 | byte-wise running equals feeding the message bit by bit |
| `Crc32c.InitFirst` | src/outside/crc32c.c:53-64 | row 0 holds each byte value run through eight steps |
| `Crc32c.InitSw` | src/outside/crc32c.c:49-72 | row k of the table holds each byte value followed by k zero bytes |
| `Crc32c.SlicingIsRunning` | src/outside/crc32c.c:89-98 | the exclusive or of table entries equals running the bytes one by one |
| `Crc32c.SliceEight` | src/outside/crc32c.c:89-98 | the eight lookups of one quadword, with the register folded into its low half |
| `Crc32c.SwByte` | src/outside/crc32c.c:84-87 | one table step equals one byte of the reference |
| `Crc32c.SwQuad` | src/outside/crc32c.c:88-100 | one quadword step equals eight bytes of the reference |
| `Crc32c.CrcSw` | src/outside/crc32c.c:77-106 | crc32c_sw equals the bit-at-a-time CRC for every start value, buffer, length and alignment |
| `Crc32cLanes.TimesAppends` | src/outside/crc32c.c:112-124 | a matrix of appended unit vectors, times a register, appends the zeros to it |
| `Crc32cLanes.MatrixTimes` | src/outside/crc32c.c:112-124 | the shift-and-add loop computes the combination of rows selected by the vector |
| `Crc32cLanes.MatrixSquare` | src/outside/crc32c.c:128-134 | the square of the operator for n zero bits is the operator for 2n |
| `Crc32cLanes.OneZeroBit` | src/outside/crc32c.c:146-153 | the first matrix is the operator for one zero bit |
| `Crc32cLanes.ZerosOp` | src/outside/crc32c.c:141-176 | for every length, the operator that appends as many zero bytes as the largest power of two in it; so exactly the length if it is one |
| `Crc32cLanes.ZerosTables` | src/outside/crc32c.c:180-192 | the tables split the operator by the four bytes of a register |
| `Crc32cLanes.Shift` | src/outside/crc32c.c:195-199 | four lookups append the zero bytes to any register |
| `Crc32cLanes.JoinLanes` | src/outside/crc32c.c:273-274 | two shifts join three lanes |
| `Crc32cLanes.Rounds` | src/outside/crc32c.c:261-297 | rounds of three lanes leave the register of the sequential run |
| `Crc32cLanes.CrcHw` | src/outside/crc32c.c:235-336 | crc32c_hw equals the bit-at-a-time CRC for every start value, buffer, length and alignment |
| `Crc32cLanes.Crc32cOf` | src/outside/crc32c.c:342-348 | with or without the instruction, the same reference value |
| `DataBlocks.MergeUpdates` | src/DataBlock.cc:143-161 | for any updates the size the loop arrives at; for pending writes the fetched value overlaid by them, with every foreign byte outside them kept |
| `DataBlocks.MergeKeepsSizeExactly` | src/DataBlock.cc:150-153 | that size leaves foreign data of every size whole if and only if no update has length 0 |
| `DataBlocks.DataBlock.EmptyWriteTruncates` | src/DataBlock.cc:150-153 | a write of length 0 and then a fetch: the block shows no more than the offset, whatever others have stored |
| `DataBlocks.WriteShows` | src/DataBlock.cc:192-221 | a write adds itself to the overlay, whatever string it goes to |
| `DataBlocks.DataBlock.ValidateVersion` | src/DataBlock.cc:75-106 | checking the version changes nothing that is shown; unless the last check is recent it says yes only if the block is based on the newest version, and, if no request fails, always then; the time is remembered exactly on a yes |
| `DataBlocks.DataBlock.GetRemoteValue` | src/DataBlock.cc:108-162 | afterwards the block is based on the newest version, with the same pending writes on top, and of the size the merge gives |
| `DataBlocks.DataBlock.Read` | src/DataBlock.cc:164-190 | the bytes of the overlay, NUL behind its end; unless the block was verified less than a second ago, the overlay of the newest value, whoever stored it; refused exactly beyond the capacity |
| `DataBlocks.DataBlock.Write` | src/DataBlock.cc:192-221 | one more pending write, on top of exactly what was shown before; refused exactly beyond the capacity; a length of 0 is only recorded |
| `DataBlocks.DataBlock.Flush` | src/DataBlock.cc:235-267 | no lost update: what is stored is the version it replaces overlaid by the pending writes, after any number of foreign puts; on an error the same or nothing is stored, and the writes stay pending; ends, and with success if no request fails |
| `DataBlocks.DataBlock.FlushOnce` | src/DataBlock.cc:239-266 | one round, and a second mismatch in a row needs another foreign put |
| `DataBlocks.DataBlock.Dirty` | src/DataBlock.cc:269-283 | dirty exactly if there are pending writes or the block was created and never stored |
| `DataBlocks.DataBlock.Size` | src/DataBlock.cc:290-299 | the maximum of the base size and the ends of the pending writes, the base being the newest value unless the block was verified less than a second ago |
| `DataBlocks.DataBlock.ForeignPutsKeep` | src/DataBlock.cc:108-162 | puts of others between calls do not disturb what the block shows |
| `FileAccess.LocateIsDivision` | src/FileIo.cc:184-185 | division by the capacity gives the block a position falls into and the offset there |
| `FileAccess.File.NextPiece` | src/FileIo.cc:183-186 | a nonempty piece that stays in one block and ends the block unless it ends the request |
| `FileAccess.File.WriteBlock` | src/FileIo.cc:188-199 | the data block of that number, created if need be, has one more pending write, and no other block changes |
| `FileAccess.File.WritePiece` | src/FileIo.cc:188-199 | one piece updates exactly its positions and the end of the file; a new block is in CREATE mode exactly if it lies behind the known last one |
| `FileAccess.File.Write` | src/FileIo.cc:179-229 | the pieces tile the request once: every position of it holds its byte, all others are as before |
| `FileAccess.File.FlushBlock` | src/FileIo.cc:146-151 | flushing a data block changes no written byte and no size, on errors neither, whether the put has taken effect or not |
| `FileAccess.File.VerifyEof` | src/FileIo.cc:361-383 | the known last block after a verification, from what the drives hold at its one or two looks and from unflushed changes |
| `FileAccess.VerifiedExactly` | src/FileIo.cc:361-383 | a verification finds the true last block if and only if the first look shows it or, where that shows less than is known, the known one is right and unflushed, or the second look shows it |
| `FileAccess.File.ReadNext` | src/FileIo.cc:206-226 | one turn: a full piece, another try after the end moved, or the cut last piece |
| `FileAccess.File.Read` | src/FileIo.cc:179-229 | what the file shows, exactly up to the end of the largest of three blocks: the one the verifications settle on, the one known before, and the one the read begins in; so exactly min(length, max(0, size - offset)) bytes if the first is the true last block and the second not beyond it; succeeds if no request fails |
| `FileAccess.EndsWithBlock` | src/FileIo.cc:210-223 | at the block taken for the last one the read ends where that block does |
| `FileAccess.LengthIsExact` | src/FileIo.cc:206-223 | that is as much as the flat file has to offer if and only if the block is the true last one, or the request ends within what lies before both ends, or begins behind a false one |
| `FileAccess.ReadCutShort` | src/FileIo.cc:206-223 | two stored blocks on four drives that all answer, and no request fails: a client that wrote three bytes reads two of them |
| `FileAccess.File.WrittenIsRead` | src/FileIo.cc:179-229 | every position ever written reads back as its last byte |
| `FileAccess.File.Stat` | src/FileIo.cc:385-399 | the size reported, and that it is the size of the file if and only if the block found is the last one, or the next one and the last is full |
| `LastBlock.GetEofBackend` | src/FileIo.cc:330-359 | the trailing number of the key found, block 0 or an exception |
| `LastBlock.ErrorsExactly` | src/FileIo.cc:337-358 | an I/O error if and only if more than numParity drives are silent; no such file if and only if otherwise no answering drive holds a key of the range and the metadata key cannot be read |
| `LastBlock.BackendKeyIs` | src/KineticClusterOperation.cc:154-203 | the key found is the smallest of the largest keys that the answering drives hold in the range |
| `LastBlock.TopKeyFound` | src/FileIo.cc:332-348 | the last key of the range is found if and only if every answering drive that holds any key of it holds that one |
| `LastBlock.LastBlockExactly` | src/FileIo.cc:330-359 | without foreign keys the answer is the last block if and only if every answering drive that holds any block holds the last, and too small otherwise |
| `LastBlock.ForeignLastBlock` | src/FileIo.cc:332-348 | exactly when the last key of a file named like a block is taken, and the wrong number then answered |
| `LastBlock.MoreDrivesThanChunks` | src/FileIo.cc:332-348 | two blocks on four drives for which the answer is block 0 |
| `Paging.SuccessorIsNext` | src/KineticAdminCluster.cc:362 | nothing fits between a key and the key with NUL appended |
| `Paging.GetKeys` | src/KineticClusterOperation.cc:188-203 | the ascending start of the union of all answers |
| `Paging.Range` | src/KineticCluster.cc:110-130 | fails exactly without a quorum; otherwise the merged and cut keys of the drives, in the direction of the bounds |
| `Paging.AscendingIsPage` | src/KineticClusterOperation.cc:148-203 | an ascending request yields a page: quorum keys are on it or behind all of it |
| `Paging.MergedIsPage` | src/KineticClusterOperation.cc:176-203 | a key on more than numParity drives is seen by an answering drive or lies behind a full page |
| `Paging.VisitAll` | src/KineticAdminCluster.cc:352-378 | the pages visited and whether the listing has ended, after any number of turns |
| `Paging.Listing.VisitsAll` | src/KineticAdminCluster.cc:352-378 | if no stored key equals the end, an ended listing has visited every quorum key of the range exactly once, in ascending order |
| `Paging.Listing.EndsInTime` | src/KineticAdminCluster.cc:352-378 | it then ends after at most one page per stored key, whoever answers |
| `Paging.Listing.NeverEnds` | src/KineticAdminCluster.cc:352-378 | a drive that holds a key equal to the end and always answers keeps it going for ever, whatever else is stored |
| `Paging.ListingEndsExactly` | src/KineticAdminCluster.cc:352-378 | a listing ends under every schedule of answers with a quorum if and only if no drive holds a key equal to the end |
| `CacheState.RemovedIsConsistent` | src/DataCache.cc:75-95 | removing an item keeps sizes, lookup and ownership consistent |
| `CacheState.HitIsConsistent` | src/DataCache.cc:165-177 | serving from the cache keeps them and evicts nothing |
| `CacheState.AdmittedIsConsistent` | src/DataCache.cc:185-208 | admitting a reused or new item keeps them |
| `CacheState.PoolIsBounded` | src/DataCache.cc:84-95 | a removed item goes to the pool exactly while that holds no more than a tenth of the capacity, so the pool never exceeds that by more than one item |
| `CacheSweeps.OldestFirst` | src/DataCache.cc:124-153 | in a sweep no item that stays although it may go is older than one that goes |
| `CacheSweeps.OnlyIdleGo` | src/DataCache.cc:106-121 | in the first sweep no item goes that is shared, unflushed, or owned and accessed within five seconds, and at most a tenth of the items, rounded up |
| `DataCache.DataCache.RemoveItem` | src/DataCache.cc:75-95 | the whole new state; tables of all owners, lookup, sizes and the unused pool |
| `DataCache.DataCache.TryShrink` | src/DataCache.cc:106-154 | the three sweeps, each from the tail: which items go, in which order, and that a forced sweep ends as soon as the rest fits and not before; never an item that is shared or unflushed, nor the newest; over capacity afterwards only if nothing else may go |
| `DataCache.DataCache.GetDataKey` | src/DataCache.cc:156-209 | a hit moves the item to the front and evicts nothing; a miss admits a new item there, behind which nothing is gone up to 70% of the capacity, no item in use within it, and above it only what may go, until the rest fits or nothing else may |
| `DataCache.DataCache.Drop` | src/DataCache.cc:36-51 | no item knows the owner, other ownership is unchanged, exactly its items go if forced and none otherwise |
| `Callbacks.FirstStays` | src/KineticCallbacks.cc:50-63 | whatever arrives later, the first answer of a callback stays |
| `Callbacks.FirstIs` | src/KineticCallbacks.cc:50-63 | it is an answer to the callback with none before it, and missing if and only if there is none |
| `Callbacks.WaitingZero` | src/KineticCallbacks.cc:28-34 | the counter is zero exactly if every callback is finished |
| `Callbacks.PayloadStays` | src/KineticCallbacks.cc:95-99 | the payload survives later answers if and only if they bring none, or the same one last |
| `Callbacks.TimedOutWithPayload` | src/KineticCallbacks.cc:119-123 | a timed out or finished callback takes the payload of a late success |
| `Callbacks.Operations.Deliver` | src/KineticCallbacks.cc:50-63 | one answer more in the history, counter and callbacks in step with it |
| `Callbacks.Operations.Refill` | src/KineticCallbacks.cc:39-45 | a new callback for an operation; no unfinished one is left behind if and only if the old one was finished |
| `Callbacks.Operations.Execute` | src/KineticClusterOperation.cc:43-92 | every operation ends with the first answer to it if one arrives before it is failed for want of a connection or timed out, and with CLIENT_IO_ERROR if and only if none does or that answer is one; callbacks outside the vector and payloads are as the answers make them; nothing is outstanding if and only if no unfinished callback was left behind; what is sent, and the histogram of the results |
| `Callbacks.RequestsAre` | src/KineticClusterOperation.cc:50-71 | every operation with a connection that is unfinished when its turn comes is sent, once, and nothing else is |
| `Callbacks.CodesAre` | src/KineticClusterOperation.cc:88-92 | what the histogram counts of an operation is the status of its callback |
| `Placement.ModIsRemainder` | src/KineticClusterStripeOperation.cc:48 | the remainder used in the model is the usual one |
| `Placement.StripeIsSpread` | src/KineticClusterStripeOperation.cc:41-58 | the drives of a stripe are pairwise distinct if and only if it is no larger than the drive count |
| `Placement.TwoPhasesAgree` | src/KineticClusterStripeOperation.cc:661-664 | both phases give the drives of one phase if and only if the sum does not wrap in between or the drive count divides 2^32 |
| `Placement.ParityOnWrongDrive` | src/KineticClusterStripeOperation.cc:661-664 | three drives and a hash for which the parity is looked up on a wrong drive |
| `Placement.FallbackVisitsAll` | src/KineticClusterStripeOperation.cc:93-116 | n attempts visit every drive once if and only if the sum does not wrap within them or n divides 2^32 |
| `Placement.StripeOperation.ExpandOperationVector` | src/KineticClusterStripeOperation.cc:41-58 | appends the drives that follow the hash around the ring |
| `Placement.StripeOperation.CreateSingleKey` | src/KineticClusterStripeOperation.cc:85-116 | stops at the first drive that answers; without a wrap it succeeds exactly if some drive answers |
| `Prefetch.PrefetchOracle.Add` | src/PrefetchOracle.cc:41-48 | the history without duplicates, newest first, within its capacity |
| `Prefetch.PrefetchOracle.Distances` | src/PrefetchOracle.cc:63-74 | the table notes every number under its two distances |
| `Prefetch.PrefetchOracle.PickDistance` | src/PrefetchOracle.cc:77-81 | a most frequent distance, in whatever order the table is visited |
| `Prefetch.PrefetchOracle.Predict` | src/PrefetchOracle.cc:50-108 | distinct positive numbers along a most frequent distance, none remembered when continuing, all remembered afterwards |
| `Prefetch.ProgressionDistance` | src/PrefetchOracle.cc:63-85 | in a progression of three or more numbers the distance is the only most frequent one |
| `Prefetch.ProgressionIsContinued` | src/PrefetchOracle.cc:50-108 | for such a history the prediction is the first positive ones of the next n - 1 terms |
| `Prefetch.ConfidentExactly` | src/PrefetchOracle.cc:83-93 | there is a prediction if and only if the distance was noted for three quarters of the history, rounded down, and leads to a positive number |
| `Prefetch.PrefetchOracle.PredictProgression` | src/PrefetchOracle.cc:41-108 | adding a progression to a new oracle and asking yields its continuation |
| `Keys.DataKeyOrder` | src/Utility.cc:116-122 | data keys of a path are ordered as their block numbers |
| `Keys.DataKeyUnique` | src/Utility.cc:116-122 | different blocks or paths have different keys |
| `Keys.KindsApart` | src/Utility.cc:116-127 | no data key is a metadata key, whatever clusters without colons they belong to |
| `Keys.KeyFormats` | src/Utility.cc:116-127 | the data and metadata keys of a file, by way of example |
| `Keys.BlockNumberRecovered` | src/FileIo.cc:344-348 | the trailing number of a data key is its block number, for every path |
| `Keys.OwnBlocksInRange` | src/FileIo.cc:332-336 | the range asked for holds the blocks of the path up to its bound |
| `Keys.OtherBlocksInRange` | src/FileIo.cc:332-336 | exactly which blocks of other paths the range holds too |
| `Keys.NamedLikeBlock` | src/FileIo.cc:332-348 | the blocks of a file named like a block of another one are in that one's range, right behind the block, with numbers of their own |
| `Keys.UrlRoundTrip` | src/Utility.cc:69-86 | url to id and path to metadata key to url is the identity if and only if the id is nonempty without colon and slash |
| `Keys.SizeRecovered` | src/Utility.cc:99-114 | the size in a version is read back if and only if it fits in an int |

## Left out

- The overwrite after the polling period (src/KineticClusterStripeOperation.cc:318-323) and handoff chunks (:222-235, :447-481): they trade safety for availability. Indicator keys, which only hint at repairs, and DEL are not modelled either.
- `StripeProtocol.AtMostOnePutSucceeds`: for runs in which every drive answers and no client crashes, and all clients expect the same version on a uniform stripe; `StripeGenerations` is about clients that expect different ones.
- `StripeProtocol.FailedPutIsGone`: for the same runs, as `StripeProtocol.LoserStatus`; a PUT whose drives fall silent may leave chunks behind.
- `StripeGenerations.GenerationsStayApart`: each generation starts from one version, and once all drives hold it, which is exactly the condition on the start (`StripeEarlyStart.StartExactly`). Forced writes and clients that expect a version nobody wrote are not modelled.
- `StripeEarlyStart.StartExactly`: for stripes of three chunks or more; smaller ones have no parities, so the data quorum is all drives.
- `StripeAccess.RepairKey`: without the attempt of its GET to use handoff chunks.
- `ClusterAccess.RepairRestores`: without concurrent writers and with all drives answering, as the source promises it; a stripe whose chunks carry the version but fail their checksum is left as it is.
- `Redundancy.RedundancyProvider.GenDecodeMatrix`: the first inversion succeeds, a condition on the encode matrix; the retry with other rows (src/RedundancyProvider.cc:62-83) is not modelled. Galois field tables and Cauchy matrices of isa-l are an arbitrary ring with a systematic matrix whose row selections are invertible.
- Stripes of 256 chunks or more, for which the 8-bit loop counters of src/RedundancyProvider.cc would wrap.
- Versions are numbers or records that carry their size; their text form is `Keys.EncodeSize`.
- The crc32 instruction is given by its specification (one or eight more bytes), and so is the little-endian load.
- `DataBlocks.DataBlock.Write`: a write of length 0 leaves the runs the block results speak about. Truncate and reassign are not modelled for the same reason, and foreign deletes are not.
- `DataBlocks.DataBlock.Flush`: a put that is reported as an error takes effect before the next request or never. Flushing ends because the foreign puts during one call are finite.
- Gaps in a block are filled with '0' by the source; results speak of written bytes and of the size.
- `FileAccess.File.Read`: one client, who created the file; requests may fail. The blocks touched stay in the cache: eviction and opening a file that exists are not modelled. Background flushes and read-ahead do not change what is shown.
- `Paging.VisitAll`: an unchanging cluster; attribute lists and ListFiles work differently.
- `DataCache.DataCache.TryShrink`: the forced sweeps visit list positions from the tail to the front; the iterator arithmetic after a removal is not modelled. Background flushes of expired blocks only make blocks clean. The share of a tenth is computed in integers.
- `Callbacks.Operations.Execute`: time passes in steps, one per operation sent or timed out; what arrives in a step counts before the step is taken.
- KineticCallback::reset has no caller and is not modelled.
- `Prefetch.PrefetchOracle.Predict`: block numbers are unbounded, so sums do not wrap 32 bits.
- `Keys.BlockNumberRecovered`: non-negative block numbers; strings with signs or spaces are not parsed.
- Hashing (MurmurHash3), clocks, sleeps, statistics and random uuids are parameters.
- KineticAutoConnection, SocketListener, BackgroundOperationHandler, logging, configuration and the command line tool: network, threads and printing.

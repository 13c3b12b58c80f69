# Verified model of the OpenMV OTA tooling

Dafny model of the parts of the OpenMV OTA repository whose correctness rests on an argument over
every input or every run, with proofs of what those parts promise.

| area | modules |
|---|---|
| OCDL binary delta codec: varints, patch format, builder, applier | `Varint`, `Delta`, `DeltaFormat`, `DeltaSummary`, `MakeDelta`, `DeltaTheorems` |
| Dominators and the lines a fired marker proves | `Dominators`, `ProvableLines` |
| Keykeeper chain of key generations and the ring on disk | `Chain`, `ChainTheorems`, `Ring`, `RingTheorems` |
| Anti-rollback floor and status sector on NOR flash | `Rollback`, `FloorLog`, `Status` |
| Signed binary formats, image layout, verification and slots | `Struct`, `Certificate`, `Trailer`, `TrailerTheorems`, `Manifest`, `InstallRecord`, `Layouts`, `Components`, `VerifyImage`, `Partition` |
| Console de-duplication and version codes | `ConsoleDedup`, `Version` |

`Wrappers` and `Bytes` hold what these share. Code that works step by step (the delta builder and
applier, the dominator loops, the ring, the scanners, the de-duplicator) is a method or a class,
proved against a function of its inputs or of the old state; the theorems are about those
functions. Code made of expressions is functions. What a function means is then stated without it: as a
grammar, as byte positions, as offsets in numbers, or as a condition on the inputs.

Cryptography, JSON, CRC-32 and LZMA are function-valued fields of a datatype (`Chain.Crypto`,
`Trailer.Codec`, `Components.Prims`). Only what a theorem names is required of them: that own
signatures verify, that own JSON loads back, that compression is lossless. No theorem asks that
signatures cannot be forged: those about authenticity ask, of the signatures actually presented, that
the ones that verify were made by the key they verify under. `struct` packing is
modelled byte by byte. Flash bytes are 8-bit vectors, and a torn program leaves any bits between
the old contents and the intended ones. A crash is a disk in `Ring.history`, which records the
disk after every file write.

## What the proofs found

- A patch is applied back to its target exactly when the target's length and every seek fit a
  ten-byte varint (`DeltaTheorems.RoundTrip`); a base of up to 2^69 bytes never makes a seek too long.
- `verify_chain` checks nothing on the pinned entry but its id and sign key, so another record with
  these can stand in its place (`ChainTheorems.PinnedRecordUnchecked`). Agreement on whole records
  starts at the generation after the pin.
- `extend` comes to an end exactly when the newest generation is still to come or the period is
  positive (`Ring.ExtensionEnds`); nothing in the code refuses a period of zero or less.
- The record layout of a status sector holds together for strides 16 to 57 and no other
  (`Status.LayoutSound`).
- A patch can summarize and still be malformed: `DeltaSummary.SummarizedButRefused` is one, and
  `DeltaSummary.SummaryMeaning` says exactly what a summary leaves unchecked.
- The module documentation of `rollback.py` (lines 21-22) has callers pass
  `sector[floor_offset(stride):]` to `floor_of`. That slice also reads the certificate-epoch
  entries, as `status.py` lines 107-110 imply: it gives the floor exactly when nothing in the rest
  of the sector is above it (`Status.OpenSliceFloor`), on a built sector exactly when its epoch is
  not above its floor (`Status.OpenSliceReadsEpoch`). The theorems use the bounded region.
- `pack_trailer`, `pack_manifest` and the install record's `pack` accept a version field their
  parsers refuse; the round trips say so, in both directions.
- The parsers accept data no packer writes: any pad in a certificate, any number in an install
  record's reserved field, any form of a trailer's or manifest's JSON, any length. The four
  `AcceptsOther...` lemmas give such data, the `AcceptsExactlyWritten` lemmas say exactly what is
  accepted, and the `AcceptsExactlyPacked` lemmas when it is what the packer wrote.

## Model

| member | source | states |
|---|---|---|
| Varint.WriteUvarint | src/openmv_ota/ota/delta.py:53-61 | appends the unsigned LEB128 form, and changes nothing before it |
| Varint.ReadUvarint | src/openmv_ota/ota/delta.py:64-77 | the shift-and-accumulate loop ends, and returns the value, position or error of the recursive reader |
| Varint.ReadBounds | src/openmv_ota/ota/delta.py:64-77 | a value read is below 2^70, after at most ten bytes, all inside the buffer |
| Varint.UvarintRoundTrip | src/openmv_ota/ota/delta.py:53-77 | a written value reads back, with the position after it, if and only if it is below 2^70; otherwise "too long" |
| Varint.UvarintIs | src/openmv_ota/ota/delta.py:53-61 | the bytes written are the value's seven-bit groups, the lowest first, only the last with its top bit clear, and no zero group at the end |
| Varint.ReadIs | src/openmv_ota/ota/delta.py:64-77 | the reader accepts exactly the flagged groups of at most ten bytes, as the value they spell |
| Varint.ZigzagOrder | src/openmv_ota/ota/delta.py:80-81 | signed values are numbered by size, the negative one first, for all pairs of values |
| Varint.ZigzagOnto | src/openmv_ota/ota/delta.py:80-85 | and every number is taken, so order fixes the whole code: 0 is 0, -1 is 1, 1 is 2 |
| Varint.SvarintRoundTrip | src/openmv_ota/ota/delta.py:80-94 | zigzag and varint together give a signed value back |
| Delta.ApplyDelta | src/openmv_ota/ota/delta.py:192-231 | for arbitrary base and patch the loop ends, equals the reference applier with its error, and an accepted output has exactly the header's size |
| Delta.ApplyMeaning | src/openmv_ota/ota/delta.py:192-231 | a patch is accepted if and only if it parses into operations that replay inside the base; the output is that replay |
| Delta.RunIsReplay | src/openmv_ota/ota/delta.py:201-230 | checking and replaying operation by operation refines parsing all and then replaying |
| Delta.ParsePrinted | src/openmv_ota/ota/delta.py:192-220 | parsing a printed list of operations gives the list back, whatever follows; a declared size past 2^70 is refused |
| Delta.LongSeekStops | src/openmv_ota/ota/delta.py:204-206 | the first seek past the varint cap stops the applier, however valid the operations before it |
| DeltaFormat.ParsesByGrammar | src/openmv_ota/ota/delta.py:192-220 | a patch parses if and only if it is the four letters, a varint of the size, and ops that add up to it, each the varints of its two lengths and its seek, its literals and its differences; as those ops |
| DeltaFormat.PrintedIs | src/openmv_ota/ota/delta.py:137-153 | a printed patch is in that grammar from its first byte to its last |
| DeltaFormat.AppliesByGrammar | src/openmv_ota/ota/delta.py:192-231 | the applier returns an output if and only if the grammar reads the patch and the output is what its ops say, byte by byte: literals, and base bytes from where the last copy ended plus the seek, differences added modulo 256 |
| DeltaSummary.Summarize | src/openmv_ota/ota/delta.py:165-189 | for any patch the loop ends and equals the recursive statistics, errors included |
| DeltaSummary.CountsZeros | src/openmv_ota/ota/delta.py:182 | the zeros counted are those in the slice |
| DeltaSummary.SummaryMeaning | src/openmv_ota/ota/delta.py:165-231 | a patch parses if and only if it summarizes, no op read is empty, extra plus diff is the declared size and the last op's bytes end inside the patch; the figures are then those of the parsed operations |
| DeltaSummary.SummarizedButRefused | src/openmv_ota/ota/delta.py:165-231 | a malformed patch of eight bytes that summarizes and that the applier refuses on every base |
| DeltaSummary.SummaryOfAccepted | src/openmv_ota/ota/delta.py:165-231 | every patch the applier accepts summarizes, and its extra plus diff bytes are the output's length |
| MakeDelta.BuildIndex | src/openmv_ota/ota/delta.py:103-105 | every aligned 32-byte block is indexed, at its first place |
| MakeDelta.ExtendBack | src/openmv_ota/ota/delta.py:117-120 | backward extension is exact and maximal |
| MakeDelta.ExtendForward | src/openmv_ota/ota/delta.py:121-136 | forward extension ends on a match, spans gaps of at most 64 mismatches, and is maximal |
| MakeDelta.MakeDelta | src/openmv_ota/ota/delta.py:97-153 | the patch is the printed operations for the greedy choice of regions, through to the target's end |
| DeltaTheorems.GreedyUnique | src/openmv_ota/ota/delta.py:112-146 | one base and one target have one greedy choice of regions |
| DeltaTheorems.BuiltPatch | src/openmv_ota/ota/delta.py:97-231 | the builder's contract fixes every byte of the patch, gives the target back whatever follows it, and bounds its size |
| DeltaTheorems.CopiesReplay | src/openmv_ota/ota/delta.py:137-146 | the operations tile the target in order: they replay to its bytes up to the last region's end, with the cursor the builder tracked |
| DeltaTheorems.RoundTrip | src/openmv_ota/ota/delta.py:97-231 | applying a built patch gives the target back if and only if its length and every seek fit their varints, whatever follows the patch; a base of at most 2^69 bytes leaves every seek room |
| DeltaTheorems.CopyShape | src/openmv_ota/ota/delta.py:121-136 | a copied region has at least 32 bytes, ends on a zero difference, and has a zero in any 65 differences |
| DeltaTheorems.PatchSize | src/openmv_ota/ota/delta.py:107-153 | the patch for an n-byte target is at most 44 + n + 30 * (n / 32) bytes |
| Dominators.Dominators | ci/hil/static_coverage.py:52-70 | for every finite graph and visiting order the loop ends, with d in the set of n if and only if every path to n goes through d |
| Dominators.FixedDominates | ci/hil/static_coverage.py:52-70 | at any fixpoint, what is left in a node's set is on every path to it |
| ProvableLines.RootedGraph | ci/hil/static_coverage.py:101-114 | the root is fresh, and precedes exactly the nodes nothing precedes |
| ProvableLines.RootedEdge | ci/hil/static_coverage.py:101-114 | the rooted graph's edges are the arcs, and one from the root to each node no arc leads to |
| ProvableLines.DominatesIsWitnessed | ci/hil/static_coverage.py:101-116 | dominance in the rooted graph is: every activation that gets to the one has been at the other |
| ProvableLines.ProvableLines | ci/hil/static_coverage.py:119-137 | a line is returned if and only if it is executable, positive, and for some fired marker has the same owner in the owner map, or like it none, and has been run by every activation that reaches the marker |
| ProvableLines.ProvedLinesRan | ci/hil/static_coverage.py:119-137 | in any run in which every marker fired, every returned line ran |
| Chain.VerifyChain | src/openmv_ota/keykeeper/ring.py:158-193 | the walk, with its errors, is the recursive one |
| Chain.VerifiedMeaning | src/openmv_ota/keykeeper/ring.py:103-193 | a list is returned if and only if the chain ends in it: each what its record loads as, with a positive id and two keys that are points; the first the first entry with the pinned id, and with the pinned sign key; each later one the next id, signed by the one before |
| ChainTheorems.Agreement | src/openmv_ota/keykeeper/ring.py:158-193 | if each sign key made one of the checked signatures for an id, two chains accepted from one pin agree on the pinned id and sign key and every whole record after: one list extends the other |
| ChainTheorems.RingSignsOnce | src/openmv_ota/keykeeper/ring.py:256-291 | the announcements of a well-built chain are such: no key signs two records for one id |
| ChainTheorems.FollowersStayOnTheRing | src/openmv_ota/keykeeper/ring.py:158-193 | whatever chain is served with no signature of the ring's keys but on its announcements, a follower pinned at one of its generations accepts the pinned id and sign key and then a part of the ring's generations, in order and without a gap |
| ChainTheorems.OwnChainIsAnnounced | src/openmv_ota/keykeeper/ring.py:267-277 | any part of the ring's own chain is such a chain, where a signature verifies under one key only |
| ChainTheorems.PinnedRecordUnchecked | src/openmv_ota/keykeeper/ring.py:172-180 | any record with the pinned id and sign key can replace the pinned entry of an accepted chain, under any signature |
| ChainTheorems.VerifiesFromEveryPin | src/openmv_ota/keykeeper/ring.py:158-193 | a well-built chain verifies from the pin of each generation, giving exactly that one to the newest, with consecutive ids |
| ChainTheorems.GenesisVerifies | src/openmv_ota/keykeeper/ring.py:134-140 | a chain verifies from its own first generation if and only if it is well built |
| ChainTheorems.CurrentMeaning | src/openmv_ota/keykeeper/ring.py:196-202 | `current` succeeds if and only if some generation is in effect, and returns one in effect with none in effect after it |
| ChainTheorems.CurrentNeverGoesDown | src/openmv_ota/keykeeper/ring.py:196-202 | the id `current` returns never goes down as time passes or the chain grows |
| Ring.Ring.Generations | src/openmv_ota/keykeeper/ring.py:225-228 | succeeds if and only if the chain on disk is well built, with its generations |
| Ring.Ring.MintNext | src/openmv_ota/keykeeper/ring.py:245-259 | the next generation's keys are on the disk, every write to it leaves a safe disk, and the longer chain returned is signed and ready to be written |
| Ring.Ring.Init | src/openmv_ota/keykeeper/ring.py:267-277 | refuses an existing ring untouched; otherwise two generations, a period of days apart, the first signed by the key it announces, and every disk on the way safe |
| Ring.Ring.Extend | src/openmv_ota/keykeeper/ring.py:279-291 | adds exactly floor((now - last) / period) + 1 generations, a period apart, when the last is in effect and none otherwise; every disk on the way has both matching keys of every listed generation |
| Ring.ExtensionEnds | src/openmv_ota/keykeeper/ring.py:282-288 | some number of periods reaches past now if and only if the newest is still to come or the period is positive |
| Ring.NextIsAnnounced | src/openmv_ota/keykeeper/ring.py:279-291 | after an extension the newest generation is still to come; nothing is added if and only if it was before |
| Ring.Ring.RotateNow | src/openmv_ota/keykeeper/ring.py:293-302 | exactly two generations are added, the next id in effect at once and the one after it a period of days later; the new one is `current` at that time, and every disk on the way is safe |
| Ring.CheckBackup | src/openmv_ota/keykeeper/ring.py:375-409 | passes if and only if there are only ring files, all encrypted and opening, the chain verifies from its genesis, and every generation's keys are the announced ones |
| Ring.SafeArchive | src/openmv_ota/keykeeper/ring.py:306-319 | whatever moment a crash left, the ring on disk makes a good backup with the same generations |
| Ring.SafeMeans | src/openmv_ota/keykeeper/ring.py:245-265 | a disk is safe if and only if no key file is stray or plaintext, and with a chain it holds all a backup needs: both private halves of each announced generation, opening to the announced keys |
| Ring.BackupOkMeans | src/openmv_ota/keykeeper/ring.py:375-409 | what the check of a backup asks, in terms of its files |
| Ring.Ring.Backup | src/openmv_ota/keykeeper/ring.py:306-319 | succeeds if and only if every PEM file on the disk is an encrypted ring key, the chain verifies from its genesis and every generation's keys are there; so always on a safe disk |
| Ring.Ring.Restore | src/openmv_ota/keykeeper/ring.py:321-340 | over anything but an empty directory, or from a bad archive, nothing is written; otherwise the ring is reproduced file for file, and every disk on the way is safe |
| RingTheorems.BackupAndRestore | src/openmv_ota/keykeeper/ring.py:306-340 | restoring a safe ring's backup into an empty directory succeeds and reproduces its files, its generations and its safety |
| RingTheorems.SafeVerifies | src/openmv_ota/keykeeper/ring.py:158-193 | any safe disk's chain verifies from the pin of each of its generations, giving exactly that one to the newest |
| RingTheorems.RunVerifies | src/openmv_ota/keykeeper/ring.py:256-302 | at every point between the writes of a run, the chain on disk verifies for a follower pinned at any generation listed before the run |
| RingTheorems.FollowersAreSafe | src/openmv_ota/keykeeper/ring.py:158-302 | a follower pinned at a generation the ring once listed accepts, however the ring's chain has grown since, nothing it did not announce |
| Rollback.EntryBytes | src/openmv_ota/ota/rollback.py:37-39 | an entry is the key's eight bytes, the lowest first, and then each of them complemented |
| Rollback.EntryKeyMeaning | src/openmv_ota/ota/rollback.py:42-45 | sixteen bytes read as a key if and only if they are that key's entry |
| Rollback.EncodedKey | src/openmv_ota/ota/rollback.py:37-45 | an entry reads back its key, modulo 2^64 |
| Rollback.TornEntryReads | src/openmv_ota/ota/rollback.py:37-45 | whatever bits of an entry were programmed, it reads as its key if whole and as no key if not |
| FloorLog.FloorOf | src/openmv_ota/ota/rollback.py:48-56 | the running maximum is the recursive floor, for any region and stride |
| FloorLog.FloorMeaning | src/openmv_ota/ota/rollback.py:48-56 | a number is the floor if and only if no slot's key is above it and some slot's key is it, or it is 0 |
| FloorLog.AppendOffset | src/openmv_ota/ota/rollback.py:59-65 | the scan is the recursive first blank slot |
| FloorLog.FirstBlankMeaning | src/openmv_ota/ota/rollback.py:59-65 | the result is the one blank slot with no blank slot before it; none if and only if no slot is blank |
| FloorLog.SlotIs | src/openmv_ota/ota/rollback.py:48-65 | the slots are the multiples of the stride with sixteen bytes after them |
| FloorLog.AppendFloor | src/openmv_ota/ota/rollback.py:37-65 | one append, whole or cut anywhere, raises the floor to its key exactly if it was completed in a free slot |
| FloorLog.RunFloor | src/openmv_ota/ota/rollback.py:37-65 | over any run of appends, whole or cut, the floor is the maximum of the first one and the completed keys |
| FloorLog.RunFloorWithRoom | src/openmv_ota/ota/rollback.py:37-65 | with a blank slot for each append, the floor after a run is the first one or the highest key whose append was completed, whatever the others left |
| FloorLog.ErasedRunFloor | src/openmv_ota/ota/rollback.py:37-65 | from erased flash the floor is exactly the highest completed key |
| FloorLog.FloorNeverDecreases | src/openmv_ota/ota/rollback.py:48-65 | at every point of a run the floor is at most what it ends at |
| Status.LayoutSound | src/openmv_ota/ota/status.py:50-128 | all markers, the counter, 64 attempts and both floor regions' entries fit 4096 bytes, pairwise disjoint, with room in each region, if and only if the stride is 16 to 57 |
| Status.StartsAt | src/openmv_ota/ota/status.py:50-128 | each record's place in numbers, for all markers, the counter, 64 attempts and every floor entry |
| Status.RegionsAt | src/openmv_ota/ota/status.py:98-128 | the two floor regions, by offsets in numbers |
| Status.BuildStatusSector | src/openmv_ota/ota/status.py:163-200 | the array holds, by offsets in numbers: the markers at 0, one and two strides, the counter at four, the floor's entry at 69, and the epoch's min(64, (4096 - 69 * stride) / (2 * stride)) strides after it, each if asked for; every other byte is erased |
| Status.CounterReads | src/openmv_ota/ota/status.py:153-160 | the counter field reads back its value modulo 2^32; an erased one reads as none |
| Status.CounterBytes | src/openmv_ota/ota/status.py:153-160 | the counter is four bytes, the lowest first, and then each of them complemented |
| Status.ReadsBack | src/openmv_ota/ota/status.py:153-200 | a built sector reads back as exactly the flags, counter, floor and epoch asked for, with no attempt and no provenance |
| Status.OthersUnchanged | src/openmv_ota/ota/status.py:50-128 | whatever is programmed into one record, every other record and both floor regions it is not in read as before |
| Status.OpenSliceFloor | src/openmv_ota/ota/rollback.py:20-22 | the floor read from the whole tail is the floor if and only if nothing from the epoch region on is above it |
| Status.OpenSliceReadsEpoch | src/openmv_ota/ota/status.py:107-128 | on a built sector it gives the floor asked for if and only if the epoch asked for is not above it |
| Struct.UnpackPacked | src/openmv_ota/ota/trailer.py:153-160 | `struct` packing reads back, wherever it is in the data |
| Struct.PackUnpacked | src/openmv_ota/ota/trailer.py:256-260 | what was unpacked packs to the bytes it was read from |
| Layouts.CertificatePacks | src/openmv_ota/ota/certificate.py:60-117 | a certificate packs if and only if its fields are in the stated ranges, to exactly the stated bytes |
| Layouts.ComponentsLaid | src/openmv_ota/ota/trailer.py:153-160 | components pack if and only if their numbers are 32 bits wide and their digests 32 bytes long, to exactly the stated bytes |
| Layouts.TrailerPacks | src/openmv_ota/ota/trailer.py:163-246 | a trailer packs if and only if its 17 header fields are in range, its parts of their sizes and the whole at most 4096 bytes, to exactly the stated bytes |
| Layouts.ManifestPacks | src/openmv_ota/ota/manifest.py:118-155 | a manifest packs if and only if its fields are in range, its signature of its algorithm's size and the whole at most 8192 bytes, to exactly the stated bytes |
| Layouts.RecordWrites | src/openmv_ota/ota/install_record.py:74-88 | a record packs if and only if its slot is 0 or 1, its reason 0 to 3, its components at most sixteen and its numbers in range, to exactly the stated bytes |
| Certificate.CertificateRoundTrip | src/openmv_ota/ota/certificate.py:99-135 | parsing gives every packed certificate back, whatever follows; slicing gives the region built for the signer |
| Certificate.AcceptsExactlyPacked | src/openmv_ota/ota/certificate.py:111-135 | data are accepted as a certificate with a zero pad if and only if they begin with that certificate, packed |
| Certificate.AcceptsExactlyWritten | src/openmv_ota/ota/certificate.py:120-135 | data are accepted as a certificate if and only if, with the pad zeroed, they begin with it, packed |
| Certificate.AcceptsOtherPads | src/openmv_ota/ota/certificate.py:120-135 | a packed certificate with any other pad is accepted as that certificate, though no packer wrote it |
| Certificate.SameRegionSameCertificate | src/openmv_ota/ota/certificate.py:99-135 | two accepted certificates with equal signed regions differ at most in the signature |
| TrailerTheorems.TrailerRoundTrip | src/openmv_ota/ota/trailer.py:163-311 | parsing gives a packed trailer back, whatever follows, if and only if its version is the one read; slicing gives the region built for the signer |
| TrailerTheorems.AcceptsExactlyPacked | src/openmv_ota/ota/trailer.py:226-311 | data are accepted as a trailer, in canonical form and within an erase block, if and only if it is of the version read and they begin with it, packed |
| TrailerTheorems.AcceptsExactlyWritten | src/openmv_ota/ota/trailer.py:249-311 | data are accepted as a trailer if and only if it is of the version read and they begin with it, written with some form of its meta: magic, framing, certificate and CRC all have to be right |
| TrailerTheorems.AcceptsOtherForms | src/openmv_ota/ota/trailer.py:249-311 | a trailer written with its meta in another form than the packer's, or longer than a block, is accepted, though no packer wrote it |
| TrailerTheorems.FramingSame | src/openmv_ota/ota/trailer.py:196-223 | equal signed regions are framed alike: same header, components, certificate and meta bytes |
| TrailerTheorems.SameRegionSameTrailer | src/openmv_ota/ota/trailer.py:249-311 | two accepted trailers with equal signed regions differ at most in the signature |
| Manifest.ManifestRoundTrip | src/openmv_ota/ota/manifest.py:118-201 | parsing gives a packed manifest back, whatever follows, if and only if its version is the one read; slicing gives the region built for the signer |
| Manifest.AcceptsExactlyPacked | src/openmv_ota/ota/manifest.py:141-201 | data are accepted as a manifest, in canonical form and within the size limit, if and only if it is of the version read and they begin with it, packed |
| Manifest.AcceptsExactlyWritten | src/openmv_ota/ota/manifest.py:158-201 | data are accepted as a manifest if and only if it is of the version read and they begin with it, written with some form of its body |
| Manifest.AcceptsOtherForms | src/openmv_ota/ota/manifest.py:158-201 | a manifest written with its body in another form than the packer's, or over the size limit, is accepted, though no packer wrote it |
| Manifest.SameRegionSameManifest | src/openmv_ota/ota/manifest.py:118-201 | two accepted manifests with equal signed regions differ at most in the signature |
| Manifest.SelectRepresentation | src/openmv_ota/ota/manifest.py:240-261 | the first of the cheapest usable representations; none if and only if none is usable |
| InstallRecord.Parse | src/openmv_ota/ota/install_record.py:91-119 | on arbitrary bytes the loop stays inside them and equals the recursive parser, errors included |
| InstallRecord.RecordRoundTrip | src/openmv_ota/ota/install_record.py:74-119 | parsing gives a packed record back, with any number of components a record can carry and whatever follows, if and only if its version is the one read |
| InstallRecord.AcceptsExactlyPacked | src/openmv_ota/ota/install_record.py:74-119 | data are accepted as a record with zero reserved bytes if and only if it is of the version read and they begin with it, packed |
| InstallRecord.AcceptsExactlyWritten | src/openmv_ota/ota/install_record.py:91-119 | data are accepted as a record if and only if it is of the version read and they begin with it, written with some number reserved |
| InstallRecord.AcceptsOtherReserved | src/openmv_ota/ota/install_record.py:91-119 | a record written with any other number reserved is accepted as that record, though no packer wrote it |
| Components.Append | src/openmv_ota/ota/components.py:53-69 | the image is the body and then each compressed blob, padded to its boundary, with components that describe them |
| Components.LayoutMeaning | src/openmv_ota/ota/components.py:53-69 | the body stays a prefix; blobs sit at ascending, 16-aligned offsets, none over another, each where and as its component says; all else is gaps of fewer than sixteen 0xFF bytes |
| Components.Check | src/openmv_ota/ota/components.py:72-89 | the early-return loop gives the first component's fault, and none if and only if each passes |
| Components.LaidOutChecks | src/openmv_ota/ota/components.py:53-89 | what was laid out passes the check, with any padding after it |
| VerifyImage.VerifiedCertificate | src/openmv_ota/ota/certificate.py:160-179 | a certificate is accepted if and only if it parses, a trusted root's signature over its first 96 bytes verifies, and its kind is taken: 0 or 1 for images, 2 for an issuer, 3 for a desk |
| VerifyImage.VerifiedDesk | src/openmv_ota/ota/certificate.py:182-192 | a desk chain is accepted if and only if a trusted root signed the issuer's certificate, the issuer the desk's, and both name that root |
| VerifyImage.VerifiedImage | src/openmv_ota/ota/verify.py:30-61 | an image is accepted if and only if its trailer parses, its certificate verifies, the certified key's signature does, and the body and every blob have the sizes and digests it lists |
| VerifyImage.BuiltImageVerifies | src/openmv_ota/ota/verify.py:30-61 | an image laid out by `append`, with any padding, a packed certificate of an update or factory key that a trusted root signed, and a packed trailer that key signed, is accepted |
| VerifyImage.SignedRegionFixesImage | src/openmv_ota/ota/verify.py:30-61 | two images accepted with one signed region have a filesystem, and bytes to install at each address, of the same SHA-256 digest: the same ones, but for a collision |
| VerifyImage.AcceptedIsSigned | src/openmv_ota/ota/verify.py:30-61 | if the two signatures an image presents were made by the keys they verify under, a trusted root signed the certificate of a release key, and that key the trailer's signed region |
| VerifyImage.AcceptedIsReleased | src/openmv_ota/ota/verify.py:30-61 | under a key that signs only releases, every accepted image is one of them, by the SHA-256 digests of its filesystem and of all it installs |
| VerifyImage.DeskChainIsSigned | src/openmv_ota/ota/certificate.py:182-192 | likewise for an accepted desk chain: the root signed the issuer's certificate and the issuer the desk's, naming the same root |
| VerifyImage.DeskChainSignsNoImage | src/openmv_ota/ota/certificate.py:160-192 | neither certificate of an accepted desk chain is accepted for a release, whatever the roots |
| Partition.FindTrailers | src/openmv_ota/ota/partition.py:21-35 | the stepping loop is the recursive scan, for any image and step |
| Partition.Slots | src/openmv_ota/ota/partition.py:48-63 | the loop is the recursive view of the trailers found, Python's negative slice bounds included |
| Partition.FoundIs | src/openmv_ota/ota/partition.py:21-35 | whatever parses as a trailer at a multiple of the step is found |
| Partition.OnlyFound | src/openmv_ota/ota/partition.py:21-35 | nothing else is found, and what is found is in ascending order |
| Partition.PySliceIs | src/openmv_ota/ota/partition.py:61 | Python's slice byte by byte, negative and far bounds included |
| Partition.SlotsFound | src/openmv_ota/ota/partition.py:21-63 | in an image of whole slots, of any erase block that is a multiple of 4 KiB, with no other aligned trailer, exactly the slots' trailers are found, and each slot's body is returned without its control blocks, in order, labelled A and B when there are two and "image" otherwise |
| ConsoleDedup.ConsoleDedup.Fresh | src/openmv_ota/client/watch.py:61-73 | the printed text and the new table, in order, for any table and batch |
| ConsoleDedup.Unremembered | src/openmv_ota/client/watch.py:62-66 | an unnumbered batch prints all its text and an empty one nothing, and neither changes what is remembered |
| ConsoleDedup.PrintsNewLines | src/openmv_ota/client/watch.py:66-68 | a numbered batch prints exactly its lines above the highest seen of its session |
| ConsoleDedup.Remembers | src/openmv_ota/client/watch.py:69-72 | and makes its session the last of at most eight, with the highest of the line seen before and its own last |
| ConsoleDedup.RemembersTheLastSeen | src/openmv_ota/client/watch.py:69-72 | over any history at most eight sessions are kept, and they are the eight seen last |
| ConsoleDedup.RecencyIsLastSeen | src/openmv_ota/client/watch.py:69-72 | the table's order is the order of last sighting, so the one dropped is the least recently seen |
| ConsoleDedup.PrintsTheLogOnce | src/openmv_ota/client/watch.py:51-73 | for a session that stays remembered, through windows that leave no gap, the text printed is its log from the first line seen to the highest, each line once |
| Version.MatchesForm | src/openmv_ota/ota/version.py:25-37 | every string of the promised form is matched, with its numerals' values and a missing build as 0, whatever Unicode counts as digits and spaces |
| Version.MatchedForm | src/openmv_ota/ota/version.py:25-37 | only strings of that form are matched |
| Version.DecodeIs | src/openmv_ota/ota/version.py:50-57 | a code is printed as its four bytes, the highest first, without leading zeros; the fourth is left out if and only if it is zero |
| Version.EncodesForm | src/openmv_ota/ota/version.py:28-47 | a string of the form encodes its four numerals, a byte each, or is refused when one is over 255 |
| Version.RefusesOthers | src/openmv_ota/ota/version.py:33-35 | a string that is not matched is refused |
| Version.EncodeDecoded | src/openmv_ota/ota/version.py:44-57 | encoding a printed version gives the code back, modulo 2^32 |
| Version.OrderPreserved | src/openmv_ota/ota/version.py:28-47 | codes order, and are equal, exactly as the versions do component by component |

## Left out

- DeltaTheorems.PatchSize: for targets below 2^70 bytes and bases up to 2^69, whose lengths and seeks all take at most ten bytes.
- Status.BuildStatusSector: asks for a block of at least 4096 bytes and a stride of 16 to 57; outside these the records overlap or the source's slice assignments grow the sector.
- FloorLog.AppendFloor: for strides of at least 16; with a smaller one entries overlap.
- Ring.Ring.RotateNow: asks for a positive period, without which its own extension never ends.
- Ring.Ring.Restore: files are whole-file atomic writes; two processes on one directory, and what a torn single file reads as, are not modelled.
- Version.MatchesForm: the interpreter's own limit on the digits of `int` (4300 by default) is not modelled.
- ConsoleDedup.ConsoleDedup.Fresh: a batch carries its text as split lines; splitting a string into lines is not modelled.
- RingTheorems.FollowersAreSafe: is about signatures on what chain.json announces; a record signed in memory, or left in chain.tmp by a crash and signed anew by the next run, counts as never served.
- Timestamps as text: times are integer seconds, whose order the fixed format keeps; years past 9999 are not modelled.
- Pins and signatures as text: a pin is an id and a key, a signature an opaque value, so malformed hexadecimal is not modelled.
- Bit operations on unbounded integers: `|`, `&` and `<<` in the varint and version code are sums, remainders and products; the bits or-ed never overlap.
- Key file names as text: a name is its id and role, which its format determines.
- JSON, tar, gzip, PEM, LZMA, CRC-32, SHA-256 and ECDSA internals: abstract functions, with the laws each theorem names.
- `verify_manifest` (verify.py): the straight line of `verify_image` over a manifest.
- `update_reject_reason` (manifest.py): a list of independent comparisons.
- Coverage's arc graph, its repaired edges and the function owners: arbitrary inputs of `ProvableLines`.
- `issue`, `issue_with`, key ids, `payload.py`, `lockbox.py`, `sign.py`, `keys.py` and the signer backends: thin wrappers over a cryptography library.
- `geometry.py`, `flash/`, the client and service networking, and the hardware side of `ci/hil`: short arithmetic, timing and input/output.
- boot.py, the installer and the C stub are not part of this model.

# Verified model of the HDD bootstrap manager's storage core

This project models, in Dafny, the parts of the PS2 HDD bootstrap manager that
can damage a disk if they are wrong, and proves what they are for.
`dafny verify dfyconfig.toml` checks the whole project.

**APA forensic reconstruction and repair.** A header is its 256 little-endian
words; a disk is a map from LBA to sector, where an absent sector cannot be
read. `Forensic*.dfy` follow the scan (sorted index, reference worklist, three
candidate orders, scoring), the repair plan, and the transaction that commits
it. The orders a scan builds are described by relations, not by the code that
builds them, and the builders are proved against those relations. On top stand
the theorems about the whole: `ExactRecovery` (damage, scan, plan and patch give
back the original disk, with the exact bound of both gates), `ForwardRecovers`
and `ReverseRecovers` (with one direction of links in place, exactly which values
of the other still let the walk infer the chain),
`RepairHeals` (a rescan after any repair finds the repaired chain and nothing
left to patch), `RepairableMapShape`, and, over a drive with a write-back cache
that may settle in any order, `NewMasterMeansInteriorDurable` and
`SnapshotUndoes`. `ForensicDevice` carries both roads over to the drive:
`RecoveryOnDevice` (the plan is not refused, succeeds on a working drive, and
then the drive shows the original disk), `TransactionHeals` (scan, plan, apply,
scan again), `ApplyRecovery` (refused exactly when no word, more than five or a
misleading one was changed; otherwise success is the original disk) and
`ApplyPlanned` (how the transaction ends, for every plan made for the disk as it
is). `ForensicScore` turns the score of a map into a budget; `ApaLayout` pins the
header fields to their bytes and the evidence to what it allows. `ForensicExample` gives a smallest disk to which exact
recovery applies, `ForensicNeighbours` one whose plan cannot succeed.

**HDL installs.** `HdlPartition` plans slices and proves the plan optimal among
all layouts; `HdlMetadata` builds and parses the metadata block; `HdlStream` is
the flat payload stream over several partitions, with fallible requests;
`HdlPlacement` joins them: what is written at a stream position is on the sector
the metadata advertises. `SourceMap` is the fragment cursor. `Prefetch` is the
double-buffered pipeline, as a transition system of two threads whose every
interleaving is covered; `PrefetchProgress` shows that it loses no command and
that every proper one can be completed. `HdlInstall` puts the pipeline on top of the stream: it
is the transition system in which pumps write to the partitions, requests fail
half-way and the position is moved, and `InstalledImage` says where every byte
of the installed file then is. `HdlTransaction` is the resumable record with its
digest; `HdlIso` and `SystemCnf` find the game's startup name, and `HdlIsoWritten`
says what is found on directories written as the standard has them.

**SHA-256.** `Sha256` states the hash of FIPS 180-4 over whole messages;
`Sha256Stream` is the streaming code with its 64-byte buffer and its rolling
16-word schedule. The hash itself is pinned from outside: `Sha256Constants` derives
its constants from the first primes, `Sha256Bits` says where its functions take
bits, and `Sha256Example` follows "abc" through all 64 rounds to the published
digest.

**Guarded repair and activation.** `ApaRepair` restores one known field of the
master header; `Bootstrap` writes a payload and only then points the master at
it; `Kelf` is the container format that lets an installed payload be sized
again.

`CachedDisk` is the drive all write paths share: commands may fail, a failed
write may leave part of its data in the cache, cached sectors may reach the
medium at any time and in any order, and a crash keeps the durable part with any
part of the rest. Arrays and classes stand where the C code updates buffers and
structures in place. Unsigned wrap-around, truncation and 32-bit counters are
written out where the C code has them.

## What the proofs found

- `iop/hdl_stream/hdl_stream.c:974-996`: a target command reads into staging
  buffer 0 without waiting for an active prefetch into it. `TargetHazard` is a
  run in which a later source command then succeeds with the wrong bytes;
  `TargetNeedsGuard` shows this from every state with a prefetch into buffer 0
  that has not failed. `PipelineRefines` covers all runs in which no target
  command starts in such a state, and `GuardIsExact` says that this is the whole
  condition: a failed prefetch does no harm.
- `src/hdl_iso.c:86-129`: the directory counter has 32 bits. It reaches the end
  of the directory exactly for sizes up to 2^32 - 2048 (`CounterReachesEnd`).
  For larger ones the walk ends exactly if the first pass over the directory is
  stopped, or some read fails sooner or later (`WalkEnds`).
- `src/apa_forensic.c:478-524`: the backward walk never marks the master as
  seen, so a reverse order can repeat it, at position 1 and nowhere else.
  `LoneMasterRepeats` is a least case, and `ReverseRepeatsWhenInferred` says when
  it happens: exactly when the master was inferred as the only node that points
  at the place where a `prev` link was lost. A repairable map with that repeat is
  the master taken twice. Its plan is empty or patches the master twice
  (`RepeatedMasterPlan`), and such a plan ends on a working drive with the report
  that the source changed, after its first write (`ApplyVerified`). `RepairHeals`
  and the order theorems are about maps without the repeat.
- `src/hdd_forensic_repair_ps2.c:174-239`: a planner's plan may hold two headers
  one sector apart, and then it cannot succeed, because the sector they share was
  to stay and to change. `NeighboursArePlanned` is a disk of which every scan
  makes such a plan, with confidence 96 and not blocked. `ApplyPlanned` is exact: on
  a working drive a plan for the disk as it is succeeds if and only if no two of
  its headers share a sector; if the master is patched twice, or lies under
  another patched header, the transaction stops with a changed source, and
  otherwise the final comparison fails. `ApartMeansRoom` and `ExtentsGiveRoom` say
  which repairable maps are free of that. A header that needed no patch is
  destroyed exactly if a patched one begins on its second sector
  (`SuccessRepairs`); even then its links and extent survive, and the chain heals
  (`TransactionHeals`).
- `src/apa_repair.c:57-177`: damage to one field that leaves the checksum as it
  was (two Sony words exchanged, say) is refused; `RepairInverts` gives
  acceptance exactly when the checksum changes.
- `src/hdl_partition.c:81-131`: the planner's other two error returns cannot be
  reached; `PlanPartitions` accounts for every outcome.
- `src/hdl_partition.c:177-196`: with 65 slices of 4 GiB every image offset still
  fits its 32-bit field, so a planner-produced plan fails to build only for data
  starts or texts that do not fit.

## Model

| member | source | states |
|---|---|---|
| `Apa.ApaChecksum` | src/apa.c:28-36 | adding words 1 to 255 with 32-bit wrap-around gives the sum of those words modulo 2^32 |
| `Apa.ChecksumIgnoresItself` | src/apa.c:27-36 | the checksum does not depend on the word it is stored in |
| `Forensic.CheckId` | src/apa_forensic.c:59-72 | an identifier is accepted exactly when it starts with a non-empty run of printable bytes that the first zero or the end of the field ends; what comes after that zero does not matter |
| `Forensic.InspectHeader` | src/apa_forensic.c:83-167 | evidence, checksum and confidence of a header are those of the scoring table; a header on the grid with neither magic nor self-start gets no confidence and no further evidence, and its checksum is not computed |
| `ApaLayout.FieldOffsets` | include/apa.h:6-27 | every number of a header is read at the byte offset of its field, low byte first |
| `ApaLayout.TableOffsets` | include/apa.h:10-27 | the identifier is bytes 16 to 47, and sub-partition k starts at the word at 512 + 8k |
| `ApaLayout.EvidenceOfBytes` | src/apa_forensic.c:42-167 | the evidence of a header in terms of its bytes, and its score as 100 less what is lost for evidence it does not show, or 0 if it shows neither magic, length nor identifier |
| `ApaLayout.IdOfBytes` | src/apa_forensic.c:59-72 | an identifier is plausible exactly if its bytes are one to 32 printable ones, then a zero or the end of the field |
| `ApaLayout.WhatEvidenceAllows` | src/apa_forensic.c:216-361 | which evidence lets a scanned node be admitted, its references be followed, a link be inferred from it, a place in the geometry and a strong vote |
| `ApaLayout.ReferencesAreFollowed` | src/apa_forensic.c:307-338 | a complete scan has a node for every admissible header that next, prev, main or a listed sub-partition of a node with enough evidence names |
| `ApaLayout.ChecksumMoves` | src/apa.c:27-36 | a blank header has checksum 0, and a changed word moves the checksum by just as much, modulo 2^32 |
| `Forensic.OnGridMeansMultiple` | src/apa_forensic.c:709-730 | the grid the scan steps along is exactly the multiples of the grid step |
| `Forensic.NothingBetweenGrid` | src/apa_forensic.c:709-730 | between a grid point and the next one lies no other grid point, so the scan skips none |
| `ForensicScanner.FindNode` | src/apa_forensic.c:169-190 | binary search over the index returns exactly what a linear search over all nodes returns |
| `ForensicScanner.IndexNode` | src/apa_forensic.c:192-214 | inserting the newest node keeps the index a strictly LBA-sorted permutation of the nodes |
| `ForensicScanner.InsertionKeepsIndex` | src/apa_forensic.c:192-214 | the index with the new node at its lower bound is sorted and lists every node once |
| `ForensicScanner.Scanner.AddCandidate` | src/apa_forensic.c:216-277 | after looking at an address every admissible header there is a node, no address twice, every node still backed by the disk |
| `ForensicScanner.Scanner.ChaseReferences` | src/apa_forensic.c:307-338 | the worklist ends, and unless the node table is full every followed reference that leads to an admissible header leads to a node |
| `ForensicScanner.Scanner.ScanGrid` | src/apa_forensic.c:709-730 | every admissible header on the grid becomes a node, unless the node table is full |
| `ForensicScanner.Scanner.Discover` | src/apa_forensic.c:709-735 | an untruncated discovery is complete on the grid and closed under references |
| `ForensicBuilder.FindUniqueLink` | src/apa_forensic.c:340-361 | returns the only node outside the excluded ones that links to an address, or nothing if there is none or more than one |
| `ForensicBuilder.BuildForwardMap` | src/apa_forensic.c:363-400 | the order starts at the master, each next node is the one the last links to or else the only one linking back, and it stops exactly where neither exists; what this recovers is stated by ForwardInfers and ForwardRecovers |
| `ForensicBuilder.BuildReverseMap` | src/apa_forensic.c:478-524 | the order is the reversal of the walk along prev links from the master, stopped where no unvisited node follows; what this recovers is stated by ReverseInfers and ReverseRecovers |
| `ForensicBuilder.SortByLba` | src/apa_forensic.c:526-543 | insertion sort in place: the same elements, ascending by LBA |
| `ForensicBuilder.BuildGeometryMap` | src/apa_forensic.c:545-566 | exactly the eligible nodes, ascending by LBA |
| `ForensicBuilder.ClassifyDormant` | src/apa_forensic.c:417-465 | marks exactly the canonical empty nodes that lie inside an active empty extent of the forward chain, changes nothing else, and counts the marks |
| `ApaLayout.CoversMeansInside` | src/apa_forensic.c:417-465 | a remnant lies, sector by sector, inside a canonical empty extent that starts elsewhere |
| `ApaLayout.EmptySpelled` | src/apa_forensic.c:402-415 | the identifier of free space is the bytes of __empty with its terminator |
| `ForensicBuilder.EvaluateMap` | src/apa_forensic.c:582-677 | reciprocal, inferred, conflicting, overlapping and weak counts, the score and the repairable flag are those of the order |
| `ForensicScore.RepairableBudget` | src/apa_forensic.c:582-677 | a map is repairable exactly if it is a complete chain from LBA 0 without conflicts and overlaps that spends at most 15 points on changed links (2), weak members (4) and surplus strong nodes (5); it has confidence 90 exactly if it spends at most 10; and the confidence of every map |
| `ForensicScore.FewLeftOut` | src/apa_forensic.c:582-677 | a repairable forward or geometry map leaves out at most three strong nodes, one of confidence 90 or more at most two |
| `ForensicScore.AllReciprocal` | src/apa_forensic.c:582-677 | the reciprocal count is the number of neighbouring pairs exactly if all of them link to each other |
| `ApaLayout.LinksFormRing` | src/apa_forensic.c:568-677 | the links that a chain from LBA 0 should hold form a ring through its members |
| `ForensicBuilder.AddMapIfUnique` | src/apa_forensic.c:679-692 | a candidate is kept unless its order is empty or already there |
| `ForensicScore.MapsAreTheOrders` | src/apa_forensic.c:679-692 | the retained maps are the different ones among the three orders, without the empty ones, each once |
| `ForensicBuilder.Scan` | src/apa_forensic.c:694-753 | the result is sound for the disk, its maps are the retained forward, reverse and geometry maps of its nodes, and its dormant count is right |
| `ForensicShape.ForwardNeverRepeats` | src/apa_forensic.c:363-400 | a forward order never repeats a node |
| `ForensicShape.GeometryNeverRepeats` | src/apa_forensic.c:545-566 | a geometry order never repeats a node |
| `ForensicShape.MasterEndsWalk` | src/apa_forensic.c:478-524 | once the backward walk returns the master it cannot go on |
| `ForensicShape.ReverseRepeatsOnlyMaster` | src/apa_forensic.c:478-524 | the only repeat in a reverse order is the master, and only at position 1 |
| `ForensicShape.ReverseRepeatsWhenInferred` | src/apa_forensic.c:491-513 | the repeat occurs exactly when a step of the walk inferred the master: at the start, its prev being zero or naming no node, or at a node whose non-zero prev names none, with the master as the only unvisited confident node whose next is that place |
| `ForensicShape.LoneMasterRepeats` | src/apa_forensic.c:491-513 | a lone master without links has the reverse order master, master |
| `ForensicShape.RepairableRepeat` | src/apa_forensic.c:582-677 | a repairable map with a repeat is the master taken twice |
| `ForensicShape.RepairableMapShape` | src/apa_forensic.c:582-677 | every repairable map of a scan starts at LBA 0, lists strictly ascending disjoint in-disk extents from position 1 on, and repeats nothing unless it is the master twice |
| `ForensicPlan.BuildRepairPlan` | src/apa_forensic.c:766-836 | the plan is the patches of exactly the unlinked positions with their counts and gates; an unknown map is refused; when the gates open for a damaged chain is stated by ChainPlanRecovers |
| `ForensicPlan.PatchesAre` | src/apa_forensic.c:791-829 | a plan holds a patch for each position whose links are not the desired ones, and no others |
| `ForensicPlan.AllCorroborated` | src/apa_forensic.c:755-764 | a plan counts as fully corroborated exactly when every patch explains its stored checksum |
| `ForensicPlan.BuildPatchedHeader` | src/apa_forensic.c:838-858 | a header is rebuilt exactly when the patch still fits its node |
| `ForensicPlan.PatchChangesOnlyLinks` | src/apa_forensic.c:838-858 | a patched header has the new links, a valid checksum, and every other word unchanged |
| `ForensicHeal.RepairMakesGoodChain` | src/apa_forensic.c:766-858 | once the first sectors of the patched headers of a repairable repeat-free map are on the disk, its members form a fully linked chain; with the whole headers there, every one that was patched has a valid checksum |
| `ForensicHeal.ForwardIsChain` | src/apa_forensic.c:363-400 | on a disk that holds a good chain the forward order is that chain, whatever else the disk holds |
| `ForensicInference.ForwardInfers` | src/apa_forensic.c:363-400 | when every prev of a chain is intact, its forward order is the chain exactly if no next jumps past the next member and none but the master's has become zero |
| `ForensicInference.ReverseInfers` | src/apa_forensic.c:478-524 | when every next is intact, its reverse order is the chain exactly if the master's prev does not name a middle member, that of member 1 is zero or names a member (or the walk is full), and every other one is right or names no member |
| `ForensicInference.ForwardRecovers` | src/apa_forensic.c:340-400 | the same on a scanned disk with lost next words: its first map is the forward map, and has the original order exactly under that condition |
| `ForensicInference.ReverseRecovers` | src/apa_forensic.c:478-524 | the same on a scanned disk with lost prev words |
| `ForensicHeal.RepairHeals` | src/apa_forensic.c:307-400 | once the first sector of every member of a repeat-free map is repaired, every complete rescan has a forward map with exactly the repaired LBA order, all links in place, and a plan for it with no patch |
| `ForensicRecovery.ScanFindsExactly` | src/apa_forensic.c:216-338 | a scan of the damaged disk finds exactly the members of the chain |
| `ForensicRecovery.GeometryIsChain` | src/apa_forensic.c:545-566 | the geometry order of that scan is the original order |
| `ForensicRecovery.FalseLinkBlocks` | src/apa_forensic.c:582-677 | a changed word that names a chain member makes the map of the original order unrepairable |
| `ForensicRecovery.MatchEvaluation` | src/apa_forensic.c:582-677 | the score of that map falls with the number of damaged words and nothing else |
| `ForensicRecovery.PlanIsCorroborated` | src/apa_forensic.c:755-836 | every patch of that map's plan explains the stored checksum |
| `ForensicRecovery.ChainPlanRecovers` | src/apa_forensic.c:766-858 | the plan of any map with the original order is automatic, and allowed at all, exactly when 1 to 5 words changed and none names a chain member; with up to 7 changed, none of them such, its patched headers restore the disk |
| `ForensicRecovery.ExactRecovery` | src/apa_forensic.c:545-858 | link words of a healthy chain overwritten with any values: some map has the original order; its plan is automatic, and allowed at all, exactly when 1 to 5 words changed and none names a chain member; with up to 7 changed, none of them such, its patched headers restore the disk exactly |
| `CachedDisk.SettledCrash` | src/hdd_forensic_repair_ps2.c:83-148 | a sector that was not written can only hold after a crash what it could hold before |
| `ForensicRepair.WriteFlushVerify` | src/hdd_forensic_repair_ps2.c:83-148 | success means the header is durable and nothing is waiting to overwrite it; in any case only its two sectors are touched; on a working drive that has them it succeeds |
| `ForensicRepair.CheckSafe` | src/hdd_forensic_repair_ps2.c:60-81 | a header is written only if it still fits its node and has magic, self-start, length and checksum |
| `ForensicRepair.CommitInterior` | src/hdd_forensic_repair_ps2.c:205-215 | all headers but the master are committed one after the other; if none of them touches the sectors of the master, neither does this; a plan without shared sectors, or in ascending order for the disk as it is, gets through on a working drive, and the latter rewrites exactly the first sectors |
| `ForensicRepair.CommitMaster` | src/hdd_forensic_repair_ps2.c:216-226 | the master is written only with every interior header durable; on a working drive this ends in success or in a changed source, the latter exactly if the master no longer reads as scanned |
| `ForensicRepair.VerifyAll` | src/hdd_forensic_repair_ps2.c:150-172 | success means every touched header reads back as planned; on a working drive on which they can be read it is success exactly then, and a failed comparison otherwise |
| `ForensicRepair.ApplyVerified` | src/hdd_forensic_repair_ps2.c:174-239 | over the whole history no sector outside the plan changes, and the master changes last if no header of the plan shares a sector with another or with the master; success means all read back; a well-built plan is never refused as invalid; on a working drive the outcome is fixed for plans without shared sectors, for ascending plans, and for plans that change the master twice |
| `ForensicSafety.NewMasterMeansInteriorDurable` | src/hdd_forensic_repair_ps2.c:174-239 | at every crash point a changed master means that every other patched header is on the medium, complete |
| `ForensicSafety.PlannerBuildsWell` | src/hdd_forensic_repair_ps2.c:60-81 | every patch of a planner-built plan passes the writer's checks |
| `ForensicSafety.SuccessRepairs` | src/hdd_forensic_repair_ps2.c:174-239 | a transaction that succeeded leaves the first sector of every member of the map repaired, patched or not, and the whole headers exactly if no patched header begins on the second sector of an unpatched one |
| `ForensicSafety.ApartMeansRoom` | src/hdd_forensic_repair_ps2.c:174-239 | the headers of a repairable repeat-free map share no sector exactly when each one leaves room for its second sector before the next |
| `ForensicSafety.ExtentsGiveRoom` | src/hdd_forensic_repair_ps2.c:174-239 | extents of at least two sectors, the first of them beginning past the master, give that room, and the plan then touches no sector twice and none of the master but by its own patch |
| `ForensicSafety.RepeatedMasterPlan` | src/apa_forensic.c:766-836 | the plan of a repairable map that takes the master twice has no patch, or two of which the second no longer fits once the first is written |
| `ForensicSafety.PlanIsUpToDate` | src/apa_forensic.c:766-836 | the plan of a repeat-free map ascends, fits the disk it was made for, and every patch changes the first sector of its header |
| `ForensicSafety.SnapshotRestores` | src/hdd_forensic_repair_ps2.c:174-239 | from any crash point, writing back the scanned headers gives a disk that could have been there before, or the very disk if nothing was cached |
| `ForensicDevice.TransactionApplies` | src/hdd_forensic_repair_ps2.c:174-239 | a transaction that succeeded, on headers that share no sector, did to the disk exactly what applying the patches does |
| `ForensicDevice.RecoveryOnDevice` | src/hdd_forensic_repair_ps2.c:174-239 | with 1 to 5 link words of a healthy chain changed and none naming a chain member, some plan is automatic, is not blocked, succeeds on a working drive, and after any success the drive shows the original disk |
| `ForensicDevice.RecoveryIsGated` | src/hdd_forensic_repair_ps2.c:188-192 | a plan of the original order is blocked exactly when no word, or more than 5 words, or a word that names a chain member was changed |
| `ForensicDevice.ApplyRecovery` | src/hdd_forensic_repair_ps2.c:174-239 | applying such a plan is refused, with the drive left alone, exactly in those cases; otherwise success means the drive shows the original disk, and a working drive gives success |
| `ForensicDevice.TransactionHeals` | src/hdd_forensic_repair_ps2.c:174-239 | after a successful transaction on a repeat-free map the next complete scan starts with the planned chain and has nothing left to patch |
| `ForensicDevice.ApplyPlanned` | src/forensic_controller_ps2.c:335-360 | for an unblocked plan made for the disk as it is, on a working drive: success exactly if no two patches share a sector; a changed source exactly if the master is patched twice or covered by another patched header; a failed comparison otherwise |
| `ForensicNeighbours.NeighboursArePlanned` | src/apa_forensic.c:363-836 | a disk of which every scan makes an unblocked plan, of confidence 96, with two patches one sector apart |
| `SnapshotFile.ReadSaved` | src/forensic_snapshot.c:92-116 | reading an entry of the image gives the saved address and header, with a digest that fits |
| `SnapshotFile.ImageSealed` | src/forensic_snapshot.c:117-118 | the last 32 bytes are the digest of everything before them |
| `Snapshot.BuildImage` | src/forensic_snapshot.c:42-122 | an image is built exactly for plans with 1 to 2048 patches that all belong to the scan, and holds the scanned header of every patch in order |
| `Snapshot.HeadFields` | src/forensic_snapshot.c:78-90 | each field of the head is read back at its offset, and the reserved bytes are zero |
| `SnapshotUndo.WriteBackIsRestore` | src/forensic_snapshot.c:93-116 | writing back the entries of the file is writing back the scanned headers |
| `SnapshotUndo.SnapshotUndoes` | src/forensic_snapshot.c:42-122 | from any crash point of the repair, writing the entries of the file back restores the disk as it was |
| `HdlPartition.ChooseAllocation` | src/hdl_partition.c:65-79 | the least standard size that fits, or else the largest allowed, or 0 if none is allowed |
| `HdlPartition.StandardSizes` | src/hdl_partition.c:17-24 | the standard sizes are 128 MiB to 4 GiB, doubling |
| `HdlPartition.PlanPartitions` | src/hdl_partition.c:81-131 | a plan exists exactly when the aligned image is at most 65 times the largest size minus 68 MiB, and then it is greedy and tiles the image; also for images near 2^64 |
| `HdlPartition.GreedyIsFewest` | src/hdl_partition.c:104-127 | no layout of the image has fewer slices |
| `HdlPartition.GreedyIsLeast` | src/hdl_partition.c:104-127 | no layout with as many slices allocates less |
| `HdlPartition.PlanIsOptimal` | src/hdl_partition.c:81-131 | the plan is a layout of its image, has the fewest slices and among those the least allocation, and every image with a layout meets the planner's limit |
| `HdlMetadata.Build` | src/hdl_partition.c:147-200 | a block is written exactly when the plan, the starts and the texts allow it, and is then the specified block, byte for byte |
| `HdlMetadata.BlockEntry` | src/hdl_partition.c:177-196 | entry k gives the image offset where the slices before it end, its data start and its length |
| `HdlMetadata.BlockBytes` | src/hdl_partition.c:147-200 | the bytes of a built block: mark, texts, flags, layer break, disc type and count at their offsets, and for every slice its place in the image, the sector 4 MiB or 1 MiB into its partition, and its length |
| `HdlMetadata.ReadText` | src/hdl_partition.c:46-63 | a text field is its bytes up to the first zero, refused if empty or with control characters |
| `HdlMetadata.Parse` | src/hdl_partition.c:202-230 | a block is parsed exactly when it is valid |
| `HdlMetadata.BuildParseRoundTrip` | src/hdl_partition.c:147-230 | parsing a built block gives back title, startup, flags, layer, type and count, exactly when the texts and the disc type are acceptable |
| `HdlMetadata.PlannerPlansBuild` | src/hdl_partition.c:81-196 | every planner-produced plan whose data starts fit 32 bits can be built |
| `HdlStream.IndexIsInjective` | iop/hdl_stream/hdl_stream.c:718-737 | data sectors and stream positions correspond one to one |
| `HdlStream.RunIsContiguous` | iop/hdl_stream/hdl_stream.c:739-798 | a run of sectors of one partition is a run of stream positions and nothing else |
| `HdlStream.PlaceOf` | iop/hdl_stream/hdl_stream.c:718-737 | every stream position has its data sector, within the data area of its partition |
| `HdlStream.Stream.constructor` | iop/hdl_stream/hdl_stream.c:663-692 | the capacity is the sum of the data areas, without 64-bit overflow |
| `HdlStream.Stream.LocatePosition` | iop/hdl_stream/hdl_stream.c:718-737 | finds the partition, the sector and the bytes left there exactly for positions before the end, without 32-bit truncation |
| `HdlStream.Stream.Transfer` | iop/hdl_stream/hdl_stream.c:739-798 | a write changes exactly the addressed run of the stream and a read returns it, chunk by chunk; it fails exactly when a request does, leaving a completed prefix; every request stays in the data area of its partition; the position stays aligned and in range |
| `HdlStream.Stream.Seek64` | iop/hdl_stream/hdl_stream.c:810-847 | the position moves exactly when the requested place is a whole sector within the stream |
| `HdlPlacement.PlacementAgrees` | src/hdl_partition.c:177-196 | every image byte is covered by one metadata entry, and the sector the stream writes for it is the one that entry advertises |
| `HdlPlacement.ImageIsWhereAdvertised` | iop/hdl_stream/hdl_stream.c:718-798 | after a planned image is written to the stream by any number of transfers one after another, the advertised sector of any image byte holds that byte's sector |
| `HdlPlacement.TransfersJoin` | iop/hdl_stream/hdl_stream.c:739-798 | writes that go on where the last one ended are one write of all their data |
| `SourceMap.Source.Locate` | iop/hdl_stream/hdl_stream.c:280-305 | from any cursor the fragment found is the one a scan from fragment 0 finds; nothing is found exactly past the end |
| `SourceMap.Source.Read` | iop/hdl_stream/hdl_stream.c:307-343 | fills the buffer with exactly the requested run of the concatenated fragments and nothing beyond; fails only past the end or when the device fails |
| `SourceMap.PhysicalIn` | iop/hdl_stream/hdl_stream.c:294-331 | a logical sector inside a fragment is at its offset from the fragment's device sector |
| `Prefetch.WorkerAlone` | iop/hdl_stream/hdl_stream.c:412-556 | a worker that is fetching has its staging buffer and the fragment cursor to itself |
| `Prefetch.StepKeeps` | iop/hdl_stream/hdl_stream.c:412-574 | every step of either thread keeps the agreement of semaphores, flags, buffers and deliveries |
| `Prefetch.PipelineRefines` | iop/hdl_stream/hdl_stream.c:905-972 | under every interleaving each successful command delivers exactly the bytes at its own offset, the worker never has the buffer in use, the cursor is never shared, and a closed stream has a stopped worker, as long as no target command starts with an unfailed prefetch into buffer 0; that no command is lost is stated by NothingIsLost |
| `Prefetch.SequentialHits` | iop/hdl_stream/hdl_stream.c:947-957 | a reader that goes through a file in full blocks always asks for what was prefetched for it, in the other buffer |
| `Prefetch.NeverStuck` | iop/hdl_stream/hdl_stream.c:497-513 | a command thread that waits for the worker is always woken: the worker can move or has finished |
| `PrefetchProgress.StepDropsNothing` | iop/hdl_stream/hdl_stream.c:515-556 | a step that does not fail drops no command, and adds the one it begins; a command fails only where a read, a write or a transfer fails, or its own prefetch did |
| `PrefetchProgress.FailureDropsOne` | iop/hdl_stream/hdl_stream.c:905-996 | a step that fails gives up the command at work and delivers nothing |
| `PrefetchProgress.NothingIsLost` | iop/hdl_stream/hdl_stream.c:905-996 | in a run without errors every command that was begun and is not refused is delivered, once and in order, or still at work |
| `PrefetchProgress.SourceCompletes` | iop/hdl_stream/hdl_stream.c:905-972 | between commands every source command of whole sectors, up to 64 KiB, within its file can be carried to its delivery, hit or miss; if the prefetch of just that block has failed the command ends with an error and can then be repeated |
| `PrefetchProgress.TargetCompletes` | iop/hdl_stream/hdl_stream.c:974-996 | between commands every allowed target command can be carried to its delivery |
| `Prefetch.TargetNeedsGuard` | iop/hdl_stream/hdl_stream.c:974-996 | wherever a prefetch into buffer 0 is pending or complete, a target command lets a later source command succeed with wrong bytes |
| `Prefetch.GuardIsExact` | iop/hdl_stream/hdl_stream.c:974-996 | between commands, a target command keeps the invariant exactly if no unfailed prefetch into buffer 0 is active; otherwise a run to a wrong delivery exists |
| `Prefetch.TargetHazard` | iop/hdl_stream/hdl_stream.c:974-996 | such a run from a fresh stream: two blocks read in order, a target command, the third block read wrongly |
| `HdlInstall.StepKeeps` | iop/hdl_stream/hdl_stream.c:905-996 | every step of the pipeline over the stream, failed and partial writes included, keeps what pumps have delivered in its place |
| `HdlInstall.InstallHolds` | src/hdl_tools/transaction.inc:350-378 | over every install whose pumps start where file and stream stand at the same offset, under every interleaving and whatever fails, is retried or read back: each sector a pump delivered is in the stream at its file position |
| `HdlInstall.InstalledImage` | src/hdl_tools/transaction.inc:350-378 | once pumps have delivered a whole planned image, the sector the metadata advertises for an image byte holds that byte of the file |
| `HdlInstall.ReadBackIsFile` | src/hdl_tools/transaction.inc:404-445 | reading delivered sectors back, as the verification pass does, gives the bytes of the file |
| `Sha256.ScheduleIsSchedule` | src/sha256.c:53-130 | the message schedule is that of section 6.2.2 of FIPS 180-4 |
| `Sha256Constants.FirstPrimes` | src/sha256.c:12-30 | the list used next holds the first 64 primes in order |
| `Sha256Constants.RoundConstantsAre` | src/sha256.c:12-30 | round constant i is the first 32 bits of the fractional part of the cube root of prime i (section 4.2.2) |
| `Sha256Constants.InitialValueIs` | src/sha256.c:132-143 | the initial hash value is the first 32 bits of the fractional parts of the square roots of the first eight primes (section 5.3.3) |
| `Sha256Bits.BigSigmasOfBit` | src/sha256.c:53-130 | the large sigmas take a bit to the three places that section 4.1.2 gives, around the word |
| `Sha256Bits.SmallSigmasOfBit` | src/sha256.c:53-130 | the small sigmas take a bit to two places around the word and to a third that is lost beyond the end |
| `Sha256Bits.ChooseTakes` | src/sha256.c:53-130 | choose takes the bits of its second argument where the first has ones, and of the third elsewhere |
| `Sha256Bits.MajorityTakes` | src/sha256.c:53-130 | majority has a one where at least two of its arguments have |
| `Sha256Example.AbcDigest` | src/sha256.c:53-212 | the digest of "abc" is the published one, through padding, schedule and all rounds |
| `Sha256Stream.NextWord` | src/sha256.c:81-103 | the rolling 16-word buffer yields schedule word i |
| `Sha256Stream.Transform` | src/sha256.c:53-130 | one block is compressed as section 6.2.2 says; RoundConstantsAre, the bit lemmas and AbcDigest fix what that is |
| `Sha256Stream.Context.Update` | src/sha256.c:145-181 | the context stands for the concatenation of all data added, whatever the sizes |
| `Sha256Stream.PaddedIs` | src/sha256.c:183-198 | the bytes hashed at the end are the padded message of section 5.1.1 |
| `Sha256Stream.Context.Final` | src/sha256.c:183-203 | the digest is that of the whole message |
| `Sha256Stream.DigestOfParts` | src/sha256.c:145-212 | any split of a message over updates gives the digest of the whole message |
| `Sha256Stream.DigestOf` | src/sha256.c:205-212 | the one-call form gives the digest of its data |
| `ApaRepair.BitCount32` | src/apa_repair.c:25-34 | counts the set bits |
| `ApaRepair.FixedIsUnique` | src/apa_repair.c:36-55 | only one header has a given field canonical and agrees elsewhere |
| `ApaLayout.MasterBytes` | src/apa_repair.c:57-130 | what the six known fields hold, byte by byte, and the two marks that are also looked at |
| `ApaRepair.OthersUntouched` | src/apa_repair.c:36-55 | damage to one field leaves the other five, the pointers and the signature alone |
| `ApaRepair.ApplyKnownFixes` | src/apa_repair.c:36-55 | restores in place exactly the fields whose bits are set |
| `ApaRepair.AppliedOne` | src/apa_repair.c:36-55 | a one-bit mask restores that field only |
| `ApaRepair.Analyze` | src/apa_repair.c:57-177 | a header may be patched exactly when it is no hybrid, one known field alone is damaged, the checksum disagrees, and restoring the field explains it |
| `ApaRepair.BuildHeader` | src/apa_repair.c:179-194 | builds the repaired header exactly for plans that are safe and unblocked |
| `ApaRepair.RepairInverts` | src/apa_repair.c:57-194 | damage confined to one field of a valid master is accepted exactly when it changes the checksum, and the repair gives back the original |
| `ApaRepair.RepairIsClean` | src/apa_repair.c:113-194 | an accepted repair changes one field, keeps the stored checksum word, and analyses again with no header issue |
| `Bootstrap.FillPacket` | src/hdd_write.c:141-151 | the packet is the next piece of the payload and zeros |
| `Bootstrap.BlockBytes` | src/hdd_write.c:139-151 | every payload byte has its place in the blocks, the rest of the last one is zero, and there are no more blocks than needed |
| `Bootstrap.WriteBlocks` | src/hdd_write.c:139-175 | all zero-padded sectors of the payload are written and no sector outside their range |
| `Bootstrap.VerifyBlocks` | src/hdd_write.c:189-213 | success means that every sector of the payload reads back as written, and if they do so on a working drive it is success |
| `Bootstrap.WritePayloadVerified` | src/hdd_write.c:129-216 | success means nothing is cached and, for an area that does not wrap past 2^32, the whole payload is durable; on a working drive that has its sectors it then succeeds |
| `Bootstrap.VerifyOsdMbr` | src/hdd_write.c:81-127 | the pointer counts as set exactly when the read works and shows a standard master that points at the payload |
| `Bootstrap.PointsBytes` | src/hdd_write.c:81-127 | what a standard master that points at a payload is, byte by byte |
| `Bootstrap.SetPointer` | src/bootstrap_transaction.c:25-49 | only the two master sectors are written; success means the pointer is durable and verified; on a working drive a right master succeeds |
| `Bootstrap.Activate` | src/bootstrap_transaction.c:51-77 | for a payload past the master whose area does not wrap, at every moment either the master is untouched or the whole payload is durable, and nothing else on the disk changes; on a working drive that has the sectors, a right master is activated; an activated pointer is always durable |
| `Bootstrap.ValidateBounds` | src/hdd_bounds.c:6-31 | a pointer is accepted exactly if its area lies in the reserved part of the master partition, and then it lies past the master and does not wrap |
| `Bootstrap.PointerMeansPayload` | src/bootstrap_transaction.c:51-77 | at every crash point a new master means the whole payload is on the medium, and no other sector can hold anything new |
| `Bootstrap.ReadPayloadImage` | src/hdd_read.c:78-126 | an image has the requested length, at most 4 MiB, and for an area that does not wrap it is the concatenation of its sectors; a working drive that has them gives it |
| `Bootstrap.InstalledLength` | src/kelf.c:98-126 | reading an installed container back gives an image whose only well-formed prefix is that container |
| `Kelf.ValidateLayout` | src/kelf.c:39-96 | accepts exactly the containers whose header and payload make up the file and whose header has room for all areas it announces |
| `Kelf.WrittenHeader` | src/kelf.c:39-96 | which numbers written in the header make a file a container: the sizes add up, and table, sections and key area fit |
| `Kelf.KelfLength` | src/kelf.c:98-126 | an image has at most one prefix that is a container, of the length written in it |
| `Kelf.SizeFromDiskImage` | src/kelf.c:98-126 | returns n exactly when the first n bytes are a container |
| `HdlTransaction.Journal.SetStage` | src/hdl_transaction.c:104-123 | a stage is set exactly when the transition is allowed and the progress fits it; otherwise the record is unchanged |
| `HdlTransaction.AdvancedValid` | src/hdl_transaction.c:55-80 | which progress a stage accepts |
| `HdlTransaction.RunContinues` | src/hdl_transaction.c:82-123 | over every run the record stays valid, its identity is fixed, progress and stage never go back, and a committed install is never aborted |
| `HdlTransaction.VerifiedIsComplete` | src/hdl_transaction.c:55-123 | from payload verified to complete every sector of the source has been copied |
| `HdlTransaction.TransitionsAre` | src/hdl_transaction.c:82-102 | the ten allowed changes of stage |
| `HdlTransaction.CanBeCompleted` | src/hdl_transaction.c:82-123 | every run that has not been aborted can be continued to complete, with all sectors copied |
| `HdlTransaction.NoStageSkipped` | src/hdl_transaction.c:82-123 | no run reaches a stage without having been through every stage before it |
| `HdlTransaction.Journal.Encode` | src/hdl_transaction.c:125-160 | a valid record is encoded, an invalid one refused with nothing written |
| `HdlTransaction.HeadWords` | src/hdl_transaction.c:133-139 | the mark, version, stage, sizes, progress and count of a record stand at their offsets |
| `HdlTransaction.Journal.Decode` | src/hdl_transaction.c:162-201 | a record is taken over exactly when magic, version and digest match and it is valid |
| `HdlTransaction.DecodeEncoded` | src/hdl_transaction.c:125-201 | decoding an encoded record gives it back up to the bytes after the terminators of its texts |
| `HdlIso.FindInSector` | src/hdl_iso.c:99-126 | one sector is walked record by record |
| `HdlIso.WalkFindsFirst` | src/hdl_iso.c:99-126 | in a well-formed sector the walk finds the first record that names SYSTEM.CNF;1, in any case |
| `HdlIso.FindSystemCnf` | src/hdl_iso.c:80-131 | whenever some pass of the loop, with its 32-bit counter, would end it, the walk ends in the first one that does, with what that pass comes to; on written directories that is stated by SearchOfDirectory |
| `HdlIso.CounterReachesEnd` | src/hdl_iso.c:86-129 | the counter reaches the end of the directory exactly for sizes up to 2^32 - 2048 |
| `HdlIso.WalkEnds` | src/hdl_iso.c:86-129 | the loop ends exactly if the counter can reach the end of the directory, or the first pass over it is stopped, or some read ever fails |
| `HdlIso.StopIsWalk` | src/hdl_iso.c:80-131 | for every size the counter can reach, and whenever the first pass is stopped, that is what one walk over the whole directory finds |
| `HdlIso.DirectoryFindsFirst` | src/hdl_iso.c:80-131 | on a well-formed directory the walk returns the first SYSTEM.CNF;1 in directory order, if its two byte orders agree |
| `HdlIso.DirectoryLacks` | src/hdl_iso.c:80-131 | a well-formed directory is reported to lack SYSTEM.CNF;1 exactly when no sector has it |
| `HdlIsoWritten.WrittenFits` | src/hdl_iso.c:99-126 | a record written as section 9.1 of ECMA-119 has it is read back: extent and size from their own fields, both byte orders, and its name |
| `HdlIsoWritten.WalkOfWritten` | src/hdl_iso.c:99-126 | on a sector of written records the walk gives the extent and size of the first one named SYSTEM.CNF;1, in any case, refuses it if the file is empty, and misses it if there is none |
| `HdlIsoWritten.SearchOfDirectory` | src/hdl_iso.c:80-131 | on a written directory the search ends, and gives that of the first such record of all sectors, except that nothing is promised about a directory longer than 2^32 - 2048 bytes without one |
| `SystemCnf.CheckStartup` | src/hdl_iso.c:133-150 | a startup name is four letters or digits, an underscore, three digits, a dot and two digits |
| `SystemCnf.ParseLine` | src/hdl_iso.c:166-217 | one line is a boot line or not, with a valid startup name or not |
| `SystemCnf.BootLineParses` | src/hdl_iso.c:166-217 | any boot line gives its startup name in upper case, whatever the keyword's case, the spacing, quotes, path and version |
| `SystemCnf.BootLinesAre` | src/hdl_iso.c:166-217 | a line is a boot line exactly if it has the keyword and an equals sign, and names a startup exactly if its value has the described form; any other value is refused |
| `SystemCnf.Characters` | src/hdl_iso.c:133-217 | the characters that the parser tells apart |
| `SystemCnf.DiscIdIs` | src/hdl_iso.c:212-217 | the disc identifier is the startup name with a dash for the underscore and without the dot |
| `SystemCnf.FirstLineDecides` | src/hdl_iso.c:152-220 | the first boot line decides the result, whatever its value is |
| `SystemCnf.ParseSystemCnf` | src/hdl_iso.c:152-220 | the first boot line decides, and the disc identifier is made from its name |
| `SystemCnf.StartupFound` | src/hdl_iso.c:152-220 | a boot line after any lines that are none gives its startup name; what follows does not matter |
| `SystemCnf.UsualForm` | src/hdl_iso.c:166-217 | BOOT2 = cdrom0:, a backslash, X and ;1 is such a line, for every valid X |

## Left out

- ForensicRepair.ApplyVerified: the master-last order over the history is for plans whose headers share no sector with each other or the master; for other plans the footprint, result and validity clauses hold. The error codes of failed commands are told apart but not tied to the failing command.
- ForensicBuilder.Scan: the disk does not change during a scan, and a sector that can be read once can be read again; what progress callbacks do is not modelled.
- ForensicSafety.SnapshotRestores: needs the scanned headers to be on the medium when the transaction begins.
- ForensicRecovery.ExactRecovery: damage is to link words of a chain whose headers all lie on the scan grid, and no other header on the disk would be admitted.
- ForensicInference.ForwardRecovers: for damage to link words of one direction, on the disks of ExactRecovery; where both directions are damaged, only the geometry is promised to give the order.
- PrefetchProgress.SourceCompletes: says that a run to the delivery exists; that the threads are scheduled fairly is not modelled.
- Prefetch.PipelineRefines: semaphores are reliable, a source file reads the same every time, and the stream starts with two buffers and a running worker; low-memory and failed-start paths are not modelled.
- Prefetch.StepKeeps: the direct path and its fallback are one source read that may start over after leaving arbitrary bytes; which of the two served a read is not recorded.
- HdlInstall.InstallHolds: pumps go through the pipeline; plain writes to the stream between commands are covered by ImageIsWhereAdvertised only.
- HdlStream.Stream.Transfer: sectors are opaque values and the driver's error number is not modelled; a failed request may have moved any of its sectors.
- SourceMap.Source.Locate: the map has at least one fragment, as the code insists before using it.
- Snapshot.BuildImage: the number of one- and two-bit patches in the head is an argument; it is a statistic.
- Bootstrap.SetOsdMbr: the ps2hdd driver is not part of this model; the two sectors it writes are an argument, and what matters about them is checked by the read-back.
- Bootstrap.Activate: for areas that wrap past 2^32 or cover the master only the pointer clauses are promised, and for ReadPayloadImage only the length; callers exclude such areas first, see ValidateBounds.
- Device and file input and output, DEV9, BDM and SIF calls: replaced by the abstract drive, a source image and fallible reads and writes.
- Null-pointer checks, allocation failures, progress and status display, error logging, latency histograms and counters.
- `hdl_partition_id`, `copy_volume_title`, `hdl_iso_probe` beyond its two parsers, `headers_match_same_disk`: flat field checks.
- Rescue capsules, header backups, session logs, boot-chain classification, MagicGate signing and the user interface.
- The snapshot's file handling (slots, write and read-back of the file): only its image is modelled.
- `stream_seek`: the 32-bit seek, which moves the position as `stream_seek64` does and then reports an overflow for positions above 2^31 - 1.
- Cryptographic strength of SHA-256: the digest is a function, and no collision claim is made.

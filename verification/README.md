# ZenovOS host tools: a verified model

A Dafny model of the storage, integrity and packaging logic in ZenovOS's host tools, with proofs
about it. `dafny verify dfyconfig.toml` checks everything.

- **ZenovFS1 copy-on-write and ZenPkg transport** (`EntryTable`, `Volume`, `TreePaths`, `CowCommit`,
  `Disk`, `CowPlan`, `FilePlanner`, `StepPlans`, `CrashStages`, `Persist`, `Checksum`,
  `TransportFormat`, `Transport`). A disk is a sequence of sectors, a plan a list of whole-sector writes, a crash any
  prefix of it. Recovery after every prefix of a file replacement gives exactly the old or exactly
  the new tree; a whole transfer goes from old through resumable to new and never fails closed, and
  its journal is at every crash point one the kernel accepts and true of what is durable. One
  damaged byte of a file or of a journal is always detected.
- **Live images** (`Lzss`, `LzssSearch`, `LzssRuns`, `LiveImage`). The sparse chunker and the LZSS
  compressor with its hash chains, against the decoder their format implies; what the chains find.
- **Audit ring** (`AuditLog`) and **Merkle root** (`Merkle`). SHA-256 is an arbitrary function to
  32 bytes; binding results say "equal, or here are two distinct inputs with the same hash".
- **RSA-PSS** (`ModArith`, `Limbs`, `ModExp`, `Octets`, `Pss`). The limb loops against RFC 8017; a
  signature is accepted iff its power is an encoding of the digest.
- **Capability resolver** (`Ranking`, `Versions`, `Catalogue`, `Resolver`). Mutual recursion with
  trial copies; the version order in decimal numbers.
- **Streaming SHA-256** (`ShaStream`, `ShaStandard`). Two buffering contexts around one compression
  function, against FIPS 180-4.
- **Packages** (`Manifests`, `Canonical`, `Validation`, `SafeNames`, `Package`) and **ELF import**
  (`ElfImport`, `ElfLayout`).
- **Notes editor** (`Notes`) and **boot floppy** (`Fat12`).

Words are mathematical integers; every wrap-around or truncation of the C++ types that can occur
is written out. Where a promised property fails, the model keeps the code, gives the failing input
and states the exact condition:

- the slot capacity `slot_sectors * 512` wraps at 32 bits, and nothing looks for the directory of
  a new path, so a replacement shows its new content iff the data fits the wrapped capacity and
  the directory is there (`CowPlan.CrashAtomic`, failing at `CowPlan.CapacityWraps` and
  `CowPlan.OrphanPlanned`);
- `1 + entry_sectors` wraps in the geometry check (`Disk.GeometryKeepsTableClear`, failing at
  `Disk.WrappedGeometryAccepted`);
- chunk offsets are truncated to 32 bits (`LiveImage.UnpackSparse`, failing at
  `LiveImage.TruncationOccurs`);
- the Merkle path length is one byte: two path lengths can clash iff they differ by a nonzero
  multiple of 256 below 4096 (`Merkle.ClashLengths`, failing at `Merkle.LongPathsClash`);
- verification does not ask where an audit journal's numbering starts: until it rotates, a verified
  journal is the ring of some log iff it starts at 1 (`AuditLog.VerifiedIsLog`, failing at
  `AuditLog.GapVerifies`);
- a valid manifest whose entrypoint, license or source begins or ends with a space builds a
  package that the parser refuses (`Package.BuildThenParse`, failing at `Package.UntrimmedPackage`);
- blockers are recorded once, so a satisfied alternative can name an option that is not there: iff
  none was there before and one is unobtainable with its refusal on record (`Resolver.Stale`, stated
  by `Resolver.ResolveAlternative`, failing at `Resolver.StaleDecision`).

## Model

| member | source | states |
|---|---|---|
| `EntryTable.RecoverTable` | tools/zenovfs_fault_test.cpp:86-100 | the two in-place passes leave exactly the recovered table; `changed` is true iff a transaction entry or a committed flag was there |
| `EntryTable.RecoveredIsSettled` | tools/zenpkg_transport_fault_test.cpp:392-406 | for every table, nothing pending and no committed flag is left |
| `EntryTable.RestartInFirstPass` | tools/zenpkg_transport_fault_test.cpp:392-406 | stopping after any number of entries of the first pass and recovering again gives the table of one full run |
| `EntryTable.RestartInSecondPass` | tools/zenpkg_transport_fault_test.cpp:392-406 | the same for the second pass, also between clearing the replaced entry and cleaning the committed one |
| `EntryTable.RecoveredIdempotent` | tools/zenpkg_transport_fault_test.cpp:392-406 | recovering twice is recovering once |
| `Volume.PathFromPadded` | tools/zenpkg_transport_fault_test.cpp:119-132 | a path stored NUL-padded reads back |
| `Volume.AgreeSameTree` | tools/zenpkg_transport_fault_test.cpp:408-445 | bytes of unused slots and unused entries do not affect validity or the files shown |
| `Volume.FileChangeView` | tools/zenpkg_transport_fault_test.cpp:408-445 | replacing one entry by another changes exactly those two paths of the view |
| `Volume.FileChangeValid` | tools/zenpkg_transport_fault_test.cpp:408-445 | such a change keeps the tree valid when the new entry is valid and its parent directory is there |
| `Volume.FileChangeParent` | tools/zenpkg_transport_fault_test.cpp:408-445 | a changed tree that is valid has the new file's directory, which was there before |
| `Checksum.OneByteDetected` | tools/zenov_audit_format.hpp:123-127 | changing one byte of any string changes its FNV-1a checksum |
| `Checksum.PublishedValues` | tools/zenov_audit_format.hpp:123-127 | the published checksums of the empty string and of "a" |
| `Volume.DamagedByteRefused` | tools/zenpkg_transport_fault_test.cpp:408-445 | a valid tree with one byte of one file changed is refused |
| `TreePaths.SafeExact` | tools/zenpkg_transport_fault_test.cpp:419-421 | a path is accepted iff it is a list of names without slashes, none empty, each after a slash |
| `TreePaths.ParentOfSlashed` | tools/zenpkg_transport_fault_test.cpp:433-439 | the parent looked up for a path is the path of its names without the last |
| `TreePaths.ClosedUpwards` | tools/zenpkg_transport_fault_test.cpp:408-445 | in a valid tree every proper prefix of every path shown is a directory shown |
| `Disk.GeometryKeepsTableClear` | tools/zenpkg_transport_fault_test.cpp:104-117 | an accepted geometry keeps the metadata clear of the data area iff `entry_sectors` is not 0xFFFFFFFF (where 1 + entry_sectors wraps) |
| `Disk.WrappedGeometryAccepted` | tools/zenpkg_transport_fault_test.cpp:104-117 | the wrapping geometry is accepted: a concrete image |
| `Disk.GeometryExact` | tools/zenpkg_transport_fault_test.cpp:104-117 | for tables of less than 2^32 bytes: accepted iff superblock, table and slots follow one another inside the image and the table holds every entry |
| `Disk.SlotStartProduct` | tools/zenpkg_transport_fault_test.cpp:100-102 | where each data slot begins |
| `Disk.SetEntryVolume` | tools/zenpkg_transport_fault_test.cpp:228-234 | rewriting one metadata sector changes one table entry, and no other entry or data slot |
| `Disk.ReplayPrefixConcat` | tools/zenpkg_transport_fault_test.cpp:567-573 | a crash in a concatenation of plans is a crash in the first, or in the second after all of the first |
| `CowPlan.PayloadStored` | tools/zenpkg_transport_fault_test.cpp:259-268 | after the payload writes the staging slot holds the bytes |
| `CowPlan.StagingGarbageRecoversOld` | tools/zenpkg_transport_fault_test.cpp:248-288 | any bytes at all in the staging slot before the transaction entry still recover to the old tree |
| `CowCommit.TransactionRecoversOld` | tools/zenpkg_transport_fault_test.cpp:392-406 | a transaction entry is dropped: the old tree |
| `CowCommit.CommittedRecoversFinal` | tools/zenpkg_transport_fault_test.cpp:392-406 | from the committed entry on, recovery gives the final table whether or not the old entry was cleared |
| `CowCommit.FinalShowsNew` | tools/zenpkg_transport_fault_test.cpp:248-288 | the final table is a valid tree showing the old one with the path replaced, iff the data fits the 32-bit slot capacity and the path's directory is there |
| `CowPlan.CrashAtomic` | tools/zenpkg_transport_fault_test.cpp:248-288 | for every prefix: exactly the old tree up to and including the transaction write; from the committed write on exactly the new tree, iff the data fits the wrapped capacity and the path's directory is there |
| `CowPlan.CapacityWraps` | tools/zenpkg_transport_fault_test.cpp:248-288 | on an empty volume with a slot of 2^23 sectors, a planned replacement of one byte does not show its content once finished |
| `CowPlan.OrphanPlanned` | tools/zenpkg_transport_fault_test.cpp:248-288 | nor does one at a path whose directory is missing, on an empty volume with room |
| `FilePlanner.FindEntry` | tools/zenpkg_transport_fault_test.cpp:134-146 | throws iff a visible path is unterminated or the path occurs twice; otherwise the matching entry, or none exists |
| `FilePlanner.LookupInValidTree` | tools/zenpkg_transport_fault_test.cpp:134-146 | in a valid tree it never throws and finds exactly the paths shown |
| `FilePlanner.FindFree` | tools/zenpkg_transport_fault_test.cpp:148-155 | the first unused entry other than the excluded one, or there is none |
| `FilePlanner.ReadFile` | tools/zenpkg_transport_fault_test.cpp:157-171 | the bytes of the only readable match, and an error iff there is none |
| `FilePlanner.ReadInValidTree` | tools/zenpkg_transport_fault_test.cpp:157-171 | in a valid tree it returns exactly the files of the view |
| `FilePlanner.RecoverImage` | tools/zenpkg_transport_fault_test.cpp:392-406 | recovery on the disk image is recovery on its table, and touches nothing else |
| `FilePlanner.CheckTree` | tools/zenpkg_transport_fault_test.cpp:408-445 | accepts iff every used entry is valid, paths are distinct and each parent is a directory |
| `StepPlans.WriteFile` | tools/zenpkg_transport_fault_test.cpp:248-288 | rejected iff the lookup fails, the appended file is unreadable, the data exceeds the slot, the table is full or the path cannot be set; otherwise the writes of the replacement, staged in the first free entry, and the image they produce |
| `StepPlans.PlanPayload` | tools/zenpkg_transport_fault_test.cpp:259-268 | the sector loop lists the payload writes, the last sector zero-padded |
| `StepPlans.PlanEntries` | tools/zenpkg_transport_fault_test.cpp:270-288 | the entry writes in their order, each on the image left by the one before |
| `StepPlans.SyncMetadata` | tools/zenpkg_transport_fault_test.cpp:236-246 | rejected iff the generation is exhausted; otherwise a snapshot of every metadata sector, then the superblock |
| `StepPlans.SyncCrash` | tools/zenpkg_transport_fault_test.cpp:236-246 | a crash inside a sync leaves the image as it was or fully synced |
| `StepPlans.RenameEntry` | tools/zenpkg_transport_fault_test.cpp:296-305 | rejected iff the destination exists, the source does not, a lookup fails, the path cannot be set or the generation is exhausted; otherwise one entry write and a sync |
| `StepPlans.RemoveEntry` | tools/zenpkg_transport_fault_test.cpp:307-312 | likewise for removal |
| `CrashStages.StagedConcat` | tools/zenpkg_transport_fault_test.cpp:360-390 | two crash-staged plans whose views meet form one that passes through all the views in order |
| `CrashStages.CowStaged` | tools/zenpkg_transport_fault_test.cpp:248-288 | a replacement has two stages, the old view and the new one |
| `CrashStages.SyncStaged` | tools/zenpkg_transport_fault_test.cpp:236-246 | a sync has one stage |
| `CrashStages.EntryStaged` | tools/zenpkg_transport_fault_test.cpp:296-312 | an entry write and a sync have two stages |
| `Persist.PersistFile` | tools/zenpkg_transport_fault_test.cpp:290-294 | on any valid tree, for a new path or a file: rejected iff the path cannot be set, the content exceeds the slot, no entry is free or the generation is exhausted; otherwise the new content is shown iff it fits the wrapped capacity and the directory is there, and then every crash point gives old or new; the exact number of free entries left |
| `TransportFormat.JournalTruthful` | tools/zenpkg_transport_fault_test.cpp:314-347 | every record written is one the kernel accepts: checksum, bounds, phase; read at the struct's offsets it holds the package's name, version, paths and length, the digest of the whole package, and the digest of exactly the durable bytes it claims |
| `TransportFormat.JournalWords` | tools/zenpkg_transport_fault_test.cpp:320-342 | generation, phase and offset read back |
| `TransportFormat.RecordBlank` | kernel/parts/package_manager/transport_format.inc:29-33 | the checksummed bytes are the record with its checksum field zeroed |
| `TransportFormat.HeldText` | kernel/parts/package_manager/transport_format.inc:46-50 | a text of nonzero single-byte characters is the C string its field holds |
| `TransportFormat.DamagedByteRejected` | kernel/parts/package_manager/transport_format.inc:29-51 | a record with any one byte changed, its checksum included, is not accepted |
| `Transport.CachePathsUsable` | tools/zenpkg_transport_fault_test.cpp:349-358 | for every digest the partial and final paths can be set, differ, and clash with neither journal nor source |
| `Transport.CachePathBinds` | tools/zenpkg_transport_fault_test.cpp:349-358 | a cache path tells the first twelve bytes of the digest and whether it is the partial copy |
| `Transport.RenameFile` | tools/zenpkg_transport_fault_test.cpp:296-305 | rejected iff the destination cannot be set or the generation is exhausted; the moved tree is shown iff the destination's directory is there, and then every crash point gives the tree before or after the move |
| `Transport.RemoveFile` | tools/zenpkg_transport_fault_test.cpp:307-312 | at every crash point the tree with or without the file |
| `Transport.BuildPlan` | tools/zenpkg_transport_fault_test.cpp:360-390 | rejected iff a cache path cannot be set, fewer than 3 entries are free or the generation is within 8 of its end; otherwise every prefix of the run recovers to old, then resumable, then new, with a journal the kernel accepts that tells the truth and only moves forward, and the run ends with exactly one file added |
| `Transport.Classify` | tools/zenpkg_transport_fault_test.cpp:449-475 | the outcome of an image is that of the tree it recovers to, fail-closed otherwise |
| `Transport.ViewOutcomes` | tools/zenpkg_transport_fault_test.cpp:449-475 | the nine trees of a transfer classify as old, resumable and new, never fail-closed |
| `Transport.ViewsHonest` | tools/zenpkg_transport_fault_test.cpp:360-390 | in each of them the partial or final file is a prefix of the source, and the journal is a record the kernel accepts that tells the truth about the package and the durable prefix |
| `Transport.ViewsFollow` | tools/zenpkg_transport_fault_test.cpp:360-390 | a later tree has the same journal or one of a higher generation, with no smaller offset or phase |
| `Transport.TransportSafety` | tools/zenpkg_transport_fault_test.cpp:494-507 | for every prefix of every such run: the outcome by two thresholds, a truthful journal, and no journal earlier than at any earlier crash |
| `Transport.PlanTransfer` | tools/zenpkg_transport_fault_test.cpp:617-632 | the tool's own transfer, with its source, journal and cache paths: rejected iff the source is missing or not of two chunks, fewer than 3 entries are free or the generation is within 8 of its end; otherwise safe at every crash point |
| `Lzss.MatchLength` | tools/live_image_pack.cpp:97-104 | the length of the common run, capped at 18 and the end of the input |
| `Lzss.FindMatch` | tools/live_image_pack.cpp:86-113 | the longest usable match the chain offers, the nearest of equally long ones |
| `Lzss.BestLongest` | tools/live_image_pack.cpp:86-113 | that choice is a usable match or none, and no position the chain offers has a longer one |
| `LzssSearch.CandidatesExact` | tools/live_image_pack.cpp:86-113 | up to position 2^31 the positions visited are those of the window with the same hash, newest first; one is missed only after 128 newer ones |
| `LzssSearch.LongestInWindow` | tools/live_image_pack.cpp:86-113 | up to position 2^31 the token taken is at least as long as any match in the whole window, unless the search visited 128 positions |
| `LzssSearch.NearestLongest` | tools/live_image_pack.cpp:86-113 | of the longest candidates the nearest is taken |
| `Lzss.Insert` | tools/live_image_pack.cpp:72-77 | the new heads and links, and every link leads to a strictly earlier position |
| `Lzss.InsertRun` | tools/live_image_pack.cpp:120-122 | the same for a whole match |
| `Lzss.CompressToken` | tools/live_image_pack.cpp:86-130 | the token of the greedy parse, its bytes, the input it covers, distance 1..4096 and length 3..18, and the chain tables of the next position |
| `Lzss.CompressGroup` | tools/live_image_pack.cpp:82-131 | the next tokens of the greedy parse, up to eight, with their flag byte |
| `Lzss.CopyReproduces` | tools/live_image_pack.cpp:116-124 | copying back reproduces a repeat even when it overlaps itself |
| `Lzss.DecodeEncoded` | tools/live_image_pack.cpp:66-134 | decoding the encoding of any valid token stream gives what the tokens produce |
| `Lzss.Compress` | tools/live_image_pack.cpp:66-134 | exactly the encoding of the greedy parse; for every input, decoding to its length gives it back; every token is valid; at most n + ceil(n/8) bytes |
| `Lzss.CompressedDecodes` | tools/live_image_pack.cpp:66-134 | decoding undoes compression, for every input |
| `LzssRuns.RunShrinks` | tools/live_image_pack.cpp:66-134 | an input that ends in a run costs at most two bytes for every eighteen of the run |
| `LiveImage.FindChunks` | tools/live_image_pack.cpp:165-189 | chunks ordered, disjoint, in range and covering every nonzero byte; an error iff the chunking has a chunk longer than 65535 bytes |
| `LiveImage.ChunkedUnique` | tools/live_image_pack.cpp:165-189 | an image has one chunking |
| `LiveImage.ExtendChunk` | tools/live_image_pack.cpp:171-178 | a chunk ends at its last nonzero byte before a gap longer than the limit |
| `LiveImage.PaintedExact` | tools/live_image_pack.cpp:165-189 | painting the chunks on zeros rebuilds the image |
| `LiveImage.PackSparse` | tools/live_image_pack.cpp:200-213 | the ZLIVE002 bytes: header, chunk table, chunk data |
| `LiveImage.UnpackSparse` | tools/live_image_pack.cpp:200-213 | reading them back gives the image iff every chunk starts below 4 GiB |
| `LiveImage.TruncationOccurs` | tools/live_image_pack.cpp:181-184 | an image the packer accepts and the reader does not restore: two hundred bytes at 4 GiB |
| `LiveImage.Pack` | tools/live_image_pack.cpp:159-218 | accepts exactly the images whose chunking fits the format and whose sparse form compression shrinks; the result restores to the image iff every chunk starts below 4 GiB, so always up to 4 GiB |
| `AuditLog.HashInputInjective` | tools/zenov_audit_format.hpp:138-146 | the hashed bytes determine the record and the previous hash |
| `AuditLog.Verify` | tools/zenov_audit_format.hpp:152-171 | accepts iff the header is well formed and the chain from the anchor through the slots in logical order ends at the head |
| `AuditLog.RecordOkExact` | tools/zenov_audit_format.hpp:165-167 | verification accepts a record iff it is that of some event an append can write |
| `AuditLog.VerifiedIsLog` | tools/zenov_audit_format.hpp:152-171 | a verified journal that has not rotated is the ring of some log iff its numbering starts at 1 |
| `AuditLog.GapVerifies` | tools/zenov_audit_format.hpp:157-162 | one numbered from 5 verifies and is the ring of no log |
| `AuditLog.ChainsAgree` | tools/zenov_audit_format.hpp:152-171 | two chains of the same length ending in the same hash agree in every record, or here are two colliding inputs |
| `AuditLog.TamperEvidence` | tools/zenov_audit_format.hpp:152-171 | two verified journals with equal count and head have the same anchor, sequence and records in logical order, wherever their rings start, or here is a collision |
| `AuditLog.AppendRefines` | tools/zenovfs_audit_fault_test.cpp:49-73 | appending to the ring of a log gives the ring of the longer log |
| `AuditLog.AppendVerifies` | tools/zenovfs_audit_fault_test.cpp:49-73 | appending to any journal that verifies, whatever its anchor and ring start, gives one that verifies |
| `AuditLog.AppendOrder` | tools/zenovfs_audit_fault_test.cpp:49-73 | the logical order becomes the old one, without the oldest record when full, plus the new record |
| `AuditLog.RepresentsVerifies` | tools/zenov_audit_format.hpp:152-171 | the ring of any log verifies |
| `AuditLog.RingRefinesLog` | tools/zenovfs_audit_fault_test.cpp:49-73 | after any appends from empty: the last 64 events in logical order, the anchor the chain hash of the dropped prefix, the head that of the whole history |
| `AuditLog.Ring.constructor` | tools/zenov_audit_format.hpp:147-151 | the empty journal |
| `AuditLog.Ring.AppendEvent` | tools/zenovfs_audit_fault_test.cpp:49-73 | on any journal: the whole new state; throws iff the sequence is exhausted or the result does not verify, which it does whenever the journal did; the ring of a log becomes that of the longer log |
| `AuditLog.DigitsRead` | tools/zenovfs_audit_fault_test.cpp:48 | the sequence number in an event's path is decimal, without leading zeros, and reads back |
| `Merkle.FillLeaves` | tools/zenovfs_zvrt_verify.cpp:109-114 | the leaf digests of all chunks |
| `Merkle.ReduceLevel` | tools/zenovfs_zvrt_verify.cpp:117-123 | one in-place pass turns a level into the level above |
| `Merkle.MerkleRoot` | tools/zenovfs_zvrt_verify.cpp:104-126 | throws iff the geometry is wrong; otherwise the root of the recursive tree with the last node doubled at odd levels |
| `Merkle.GeometryExact` | tools/zenovfs_zvrt_verify.cpp:104-107 | accepted are exactly the sizes of 1 to 16 chunks, the last one not empty; the 32-bit wrap never matters |
| `Merkle.LeafInputInjective` | tools/zenovfs_zvrt_verify.cpp:82-94 | the leaf bytes determine path, size, index and chunk when the path lengths are equal, differ modulo 256, or are a chunk apart |
| `Merkle.LeftEdge` | tools/zenovfs_zvrt_verify.cpp:97-103 | trees of different height cannot share a root without a collision |
| `Merkle.RootBinds` | tools/zenovfs_zvrt_verify.cpp:82-126 | for path lengths told apart in that sense, equal roots mean equal path and content, even with different leaf counts, or here is a collision |
| `Merkle.LongPathsClash` | tools/zenovfs_zvrt_verify.cpp:87 | for every other pair of lengths, two different files with the same root under every hash |
| `Merkle.ClashLengths` | tools/zenovfs_zvrt_verify.cpp:82-126 | two lengths are told apart iff no two different files with paths of these lengths have the same root under every hash |
| `Limbs.Compare` | tools/zenrepo/crypto.hpp:81 | the order of the values |
| `Limbs.Subtract` | tools/zenrepo/crypto.hpp:82 | the in-place difference, wrapping only when negative |
| `Limbs.AddPlain` | tools/zenrepo/crypto.hpp:83 | the sum, wrapping only past 2048 bits |
| `ModExp.AddMod` | tools/zenrepo/crypto.hpp:84 | (a + b) mod m for a, b < m, with no lost carry |
| `ModExp.MulMod` | tools/zenrepo/crypto.hpp:86 | a * b mod m for a < m and every 2048-bit b |
| `ModExp.Exp65537` | tools/zenrepo/crypto.hpp:87 | s^65537 mod m |
| `Octets.FromBe` | tools/zenrepo/crypto.hpp:79 | OS2IP of section 4.2 of RFC 8017 |
| `Octets.ToBe` | tools/zenrepo/crypto.hpp:80 | I2OSP of section 4.1 of RFC 8017 |
| `Pss.MaskGeneration` | tools/zenrepo/crypto.hpp:88 | MGF1 of appendix B.2.1 of RFC 8017 |
| `Pss.MaskOctet` | tools/zenrepo/crypto.hpp:88 | octet i of the mask is octet i mod 32 of the hash of the seed with counter i div 32 |
| `Pss.EqualDigest` | tools/zenrepo/crypto.hpp:75 | the or-accumulating comparison is equality |
| `Pss.Malformed` | tools/zenrepo/crypto.hpp:93 | the accumulated byte is zero iff the padding is zeros and a one |
| `Pss.MaskTwice` | tools/zenrepo/crypto.hpp:92 | masking twice, clearing the high bits each time, gives back the block |
| `Pss.EncodingExact` | tools/zenrepo/crypto.hpp:91-95 | for every length and salt length, verification accepts exactly the encodings of section 9.1.1 of RFC 8017 |
| `Pss.CheckEncoding` | tools/zenrepo/crypto.hpp:91-95 | EMSA-PSS-VERIFY of section 9.1.2 of RFC 8017 at 2047 bits and a 32-byte salt: accepts iff the octets are the EMSA-PSS encoding of the digest under some salt |
| `Pss.VerifyPss` | tools/zenrepo/crypto.hpp:89-96 | for every modulus with its top bit set, RSASSA-PSS-VERIFY of section 8.1.2 of RFC 8017, otherwise false; accepts iff the signature is below the modulus and its 65537th power modulo it is the encoding of section 9.1.1 of the digest under some 32-byte salt |
| `Ranking.VersionTrichotomy` | tools/zenuniverse/descriptor.hpp:297-303 | versions are totally ordered |
| `Ranking.VersionTransitive` | tools/zenuniverse/descriptor.hpp:297-303 | and transitively |
| `Versions.PartValue` | tools/zenuniverse/descriptor.hpp:281-289 | a part counts as the decimal number it begins with, saturated at 2^64 - 1 |
| `Versions.DecimalPart` | tools/zenuniverse/descriptor.hpp:281-289 | the decimal rendering of n, followed by anything but a digit, counts as n, or 2^64 - 1 if that is less |
| `Versions.SplitAtDots` | tools/zenuniverse/descriptor.hpp:278-293 | every text is dotless parts joined by dots |
| `Versions.DottedNumbers` | tools/zenuniverse/descriptor.hpp:275-295 | position by position the parsed numbers are those of the parts, missing ones 0 |
| `Versions.NumericOrder` | tools/zenuniverse/descriptor.hpp:297-303 | for any two versions: less iff smaller at the first differing number, or equal in all numbers and less as text |
| `Versions.DecimalOrder` | tools/zenuniverse/descriptor.hpp:297-303 | dotted decimals in numeric order are in version order |
| `Versions.TextOrder` | tools/zenuniverse/descriptor.hpp:302 | text order: a proper prefix first, else the first difference decides |
| `Ranking.NotBetterTransitive` | tools/zenuniverse/resolver.hpp:66-78 | not being better is transitive, so a best provider is best of all |
| `Ranking.BestProvider` | tools/zenuniverse/resolver.hpp:66-78 | a provider no other beats and that beats every earlier one; none iff nobody offers the capability |
| `Versions.ScoreExact` | tools/zenuniverse/resolver.hpp:47-71 | scores compare by architecture (the host's, any, other), then availability, then delivery |
| `Versions.BetterExact` | tools/zenuniverse/resolver.hpp:70-75 | a provider replaces another iff it outranks it, or is not outranked and has newer numbers, or the same numbers and later version text, or the same version and an earlier name |
| `Versions.BestIsNewest` | tools/zenuniverse/resolver.hpp:66-78 | the provider taken is outranked by none, and none of its rank is numerically newer |
| `Resolver.ResolveCapability` | tools/zenuniverse/resolver.hpp:138-173 | terminates on every catalogue; restores `active`; blockers only grow; `emitted` stays the host set plus what the order provides; the capability is emitted iff it is obtainable, otherwise its refusal is all that is recorded; a capability assured against what is being resolved adds no blocker, and a new blocker means a reachable flaw; while nothing at all is blocked the order stays sound; every entry added has its assets taken, once, and entries and assets come only from providers taken for the capability or for what it leads to |
| `Resolver.ResolveAlternative` | tools/zenuniverse/resolver.hpp:84-136 | an unsatisfied group has only flawed options, none of them assured, records its blocker, reports a genuine reason against each option and leaves order, emitted and assets unchanged; a satisfied one adds no blocker, and names an option that is not emitted iff no option was there and one is unobtainable with its refusal on record |
| `Resolver.CleanDecision` | tools/zenuniverse/resolver.hpp:119-125 | a satisfied decision names an emitted option iff the group is not stale; with nothing blocked on entry no group is |
| `Resolver.StaleDecision` | tools/zenuniverse/resolver.hpp:39-41 | with x already reported missing, the group x or y is decided for x, which nobody offers, although y can be had |
| `Resolver.ResolveRequirements` | tools/zenuniverse/resolver.hpp:162-164 | when nothing at all is blocked every requirement is emitted; assured requirements add no blocker; a new blocker means that one of them is flawed |
| `Resolver.ResolveGroups` | tools/zenuniverse/resolver.hpp:165-167 | when nothing at all is blocked every group has an emitted option; groups with an assured option add no blocker; a new blocker means that all options of one group are flawed |
| `Resolver.FirstPreferred` | tools/zenuniverse/resolver.hpp:114-118 | the first attempt to which none is preferred: fewest added blockers, then fewest added packages, then the earliest option text |
| `Catalogue.SoundSnoc` | tools/zenuniverse/resolver.hpp:168-172 | appending an available, compatible provider whose needs are met keeps the order sound |
| `Catalogue.NeedsServed` | tools/zenuniverse/resolver.hpp:158-167 | whoever serves the needs of the provider of a capability serves the capability |
| `Catalogue.AssuredNeeds` | tools/zenuniverse/resolver.hpp:142-167 | a capability providable at a depth where nothing being resolved is has a usable provider, and so has all that this provider needs: no cycle can be met |
| `Catalogue.FlawedByNeed` | tools/zenuniverse/resolver.hpp:159-164 | a capability whose provider requires something flawed is flawed |
| `Catalogue.FlawedByGroup` | tools/zenuniverse/resolver.hpp:165-167 | so is one whose provider has a group of which every option is flawed |
| `Resolver.ResolveNeeds` | tools/zenuniverse/resolver.hpp:159-167 | the native runtime, the requirements and the groups of a provider: all there when nothing is blocked; a new blocker means that the capability is flawed and was not assured |
| `Resolver.NeedsMet` | tools/zenuniverse/resolver.hpp:158-167 | after the three phases an unblocked run has what the provider needs, and a new blocker means that the capability is flawed and was not assured |
| `Resolver.ProviderDraws` | tools/zenuniverse/resolver.hpp:138-173 | what resolving a capability adds to order and assets comes from those who serve it |
| `Resolver.MakePlan` | tools/zenuniverse/resolver.hpp:175-194 | the application comes last; without blockers every entry fits the host and finds its needs in the host or in strictly earlier entries, and every provider is available; when the application fits and all it asks for is providable there are no blockers, on catalogues with optional cycles too; every blocker is genuine; each provider is listed once and serves something asked for; the assets include those of every entry, and each is the application's own or that of a provider taken for something that was asked for and emitted |
| `Resolver.MakeRuntimePlan` | tools/zenuniverse/resolver.hpp:196-203 | the same for a runtime, assets included |
| `Resolver.OptionalCycle` | tools/zenuniverse/resolver.hpp:196-203 | a runtime that can lead back to itself through an option, planned without a blocker because another option serves |
| `ShaStream.BuffersFull` | tools/zenpkg/sha256.hpp:34-37 | folding a full block keeps state and buffer standing for the message |
| `ShaStream.Sha256.Update` | tools/zenpkg/sha256.hpp:19-39 | throws iff finalized or past 2^64 - 1 bytes; otherwise the message grows by exactly the data |
| `ShaStream.Sha256.Final` | tools/zenpkg/sha256.hpp:46-72 | throws iff the bit length does not fit; otherwise the digest of the message, and the same again on later calls |
| `ShaStream.ByteSha256.Update` | tools/zenov_audit_format.hpp:88-94 | the message grows by exactly the data |
| `ShaStream.ByteSha256.Final` | tools/zenov_audit_format.hpp:95-108 | the standard digest of the message, for every length |
| `ShaStream.DigestOfParts` | tools/zenpkg/sha256.hpp:19-72 | for every split: the digest of the whole, an error iff it has 2^61 bytes or more |
| `ShaStream.ByteDigestOfParts` | tools/zenov_audit_format.hpp:84-111 | for every split: the digest of the whole |
| `ShaStandard.SerializedWord` | tools/zenpkg/sha256.hpp:64-69 | word i of the state is the big-endian value of octets 4i to 4i + 3 |
| `ShaStandard.PaddingExact` | tools/zenpkg/sha256.hpp:51-61 | the padding is the one of section 5.1.1 of FIPS 180-4 and no other: one bit, fewest zeros, length in bits |
| `ShaStandard.PaddedInjective` | tools/zenpkg/sha256.hpp:51-61 | no two messages of any lengths have the same padded form |
| `ShaStandard.DigestExact` | tools/zenpkg/sha256.hpp:46-72 | a string is the digest iff its eight big-endian words are the state after the last block of the padded message |
| `ShaStandard.InitialWord` | tools/zenpkg/sha256.hpp:110 | each initial word is the first 32 bits of the fractional part of the square root of its prime |
| `ShaStandard.FirstPrimes` | tools/zenpkg/sha256.hpp:110 | and these are the first eight primes |
| `Manifests.ParseManifest` | tools/zenpkg/manifest.hpp:80-116 | the line loop computes the parse of the text, errors included |
| `Canonical.OrderedUnique` | tools/zenpkg/manifest.hpp:161-166 | a list has one sorted arrangement, so the sorting algorithm does not matter |
| `Canonical.ParseCanonical` | tools/zenpkg/manifest.hpp:160-186 | parsing a canonical text gives the manifest back with its lists sorted |
| `Canonical.CanonicalFixed` | tools/zenpkg/manifest.hpp:160-186 | sorting the lists first does not change the text |
| `Canonical.ScalarsInjective` | tools/zenpkg/manifest.hpp:168-182 | newline-free scalar fields can be read off the text |
| `Canonical.ParsedTrimmed` | tools/zenpkg/manifest.hpp:98-113 | every scalar the parser stores is its own trim |
| `Validation.FieldSafe` | tools/zenpkg/manifest.hpp:118-134 | a valid field is nonempty and newline-free, and its own trim except entrypoint, license and source |
| `SafeNames.EntrypointExact` | tools/zenpkg/manifest.hpp:51-69 | an entrypoint is accepted iff it is "-" or an absolute path of at most 127 characters made of components: not empty, not "." or "..", printable, without slash, backslash or colon |
| `SafeNames.WalksDown` | tools/zenpkg/manifest.hpp:51-69 | walking such a path from any directory ends exactly its components below it |
| `SafeNames.IdentifierExact` | tools/zenpkg/common.hpp:95-104 | an identifier is accepted iff it is at most 64 characters of labels joined by dots, beginning and ending with a letter or digit |
| `Validation.ValidClean` | tools/zenpkg/manifest.hpp:118-158 | a valid manifest survives the line syntax iff those three are their own trim |
| `Validation.SortedValid` | tools/zenpkg/manifest.hpp:144-158 | validity does not depend on list order |
| `Package.AppendLe` | tools/zenpkg/common.hpp:122-128 | the byte loop appends the little-endian word |
| `Package.ReadLe` | tools/zenpkg/common.hpp:130-142 | an error iff truncated; otherwise the word of those bytes |
| `Package.LeBytesFrom` | tools/zenpkg/common.hpp:122-142 | writing what was read gives the same bytes |
| `Package.FromLeBytes` | tools/zenpkg/common.hpp:122-142 | reading what was written gives the same word |
| `Package.BuildPackage` | tools/zenpkg/archive.hpp:28-54 | an error iff the manifest is invalid or a limit is exceeded; otherwise the framed bytes |
| `Package.ReadPackage` | tools/zenpkg/archive.hpp:64-110 | the checks in order, and the contents when all pass |
| `Package.FramingDetermined` | tools/zenpkg/archive.hpp:64-94 | accepted bytes are exactly the framing of their text and payload |
| `Package.ParseThenBuild` | tools/zenpkg/archive.hpp:28-110 | any bytes the parser accepts are what the builder makes of the result |
| `Package.BuildThenParse` | tools/zenpkg/archive.hpp:28-110 | what the builder makes is accepted iff entrypoint, license and source are their own trim, and then gives back the manifest, lists sorted, and the payload |
| `Package.UntrimmedPackage` | tools/zenpkg/archive.hpp:28-110 | a valid manifest whose license ends with a space: it builds, and what is built does not parse |
| `ElfImport.AndMask` | tools/zenpkg/foreign_import.hpp:142-143 | masking with 2^k - 1 is reduction modulo 2^k |
| `ElfImport.PowerTest` | tools/zenpkg/foreign_import.hpp:141 | the bit test holds iff the alignment is a power of two |
| `ElfImport.OverlapExact` | tools/zenpkg/foreign_import.hpp:77-80 | below the stack base the 32-bit test holds iff the segments share an address |
| `ElfImport.PageOverlapExact` | tools/zenpkg/foreign_import.hpp:82-89 | and the page test iff they touch a common page |
| `ElfImport.SegmentAllowed` | tools/zenpkg/foreign_import.hpp:135-145 | accepts iff the segment can be placed |
| `ElfImport.FitsWith` | tools/zenpkg/foreign_import.hpp:146-154 | accepts iff the new segment is compatible with every loaded one |
| `ElfImport.Validate` | tools/zenpkg/foreign_import.hpp:91-164 | accepts exactly the importable images, stated on unbounded addresses |
| `ElfImport.ImportPlaces` | tools/zenpkg/foreign_import.hpp:91-164 | every loaded address lies in [0, 0xFC000) and belongs to one segment |
| `ElfImport.ImportPages` | tools/zenpkg/foreign_import.hpp:91-164 | no page is touched by a writable and an executable segment, and the entry lies in an executable one on a page without writable bytes |
| `ElfLayout.AssembledImportable` | tools/zenpkg/foreign_import.hpp:91-164 | for every image assembled from a file header, a table of program headers and content: importable iff its entry point and its segments allow it, so every field is read at its place in the ELF32 layout |
| `Notes.Editor.constructor` | tests/productivity_notes_v2_model.cpp:42-48 | the initial text, clean, cursor at its end |
| `Notes.Editor.Push` | tests/productivity_notes_v2_model.cpp:57-63 | a full log drops its oldest edit |
| `Notes.Editor.RawInsert` | tests/productivity_notes_v2_model.cpp:70-79 | refused iff empty, over 4 bytes, out of range or past the capacity; otherwise the spliced text |
| `Notes.Editor.RawErase` | tests/productivity_notes_v2_model.cpp:81-89 | refused iff the range or the expected bytes do not match; otherwise the text without them |
| `Notes.Editor.InsertBytes` | tests/productivity_notes_v2_model.cpp:113-127 | a refusal changes nothing; an edit is the next step of the timeline and forgets the steps after it |
| `Notes.Editor.Backspace` | tests/productivity_notes_v2_model.cpp:129-143 | likewise, succeeding iff the cursor is not at the start |
| `Notes.Editor.EraseForward` | tests/productivity_notes_v2_model.cpp:145-159 | likewise, succeeding iff the cursor is not at the end |
| `Notes.Editor.UndoOnce` | tests/productivity_notes_v2_model.cpp:186-199 | in every reachable state succeeds iff the log is nonempty, and goes one step back in the timeline |
| `Notes.Editor.RedoOnce` | tests/productivity_notes_v2_model.cpp:201-214 | likewise, one step forward |
| `Notes.HistoryEdit` | tests/productivity_notes_v2_model.cpp:91-97 | an edit keeps the logs describing the timeline, undo and redo together at most 8 |
| `Notes.HistoryUndo` | tests/productivity_notes_v2_model.cpp:186-199 | so does an undo |
| `Notes.HistoryRedo` | tests/productivity_notes_v2_model.cpp:201-214 | so does a redo |
| `Notes.UndoMany` | tests/productivity_notes_v2_model.cpp:186-199 | k undos show the text and dirty flag of k edits ago, for every retained k |
| `Notes.UndoRedo` | tests/productivity_notes_v2_model.cpp:186-214 | undo then redo restores text, dirty flag and both logs |
| `Notes.EditUndo` | tests/productivity_notes_v2_model.cpp:113-199 | an insertion and an undo restore text, cursor and dirty flag |
| `Notes.OnLine` | tests/productivity_notes_v2_model.cpp:99-109 | an offset lies on exactly one line, between its computed start and end |
| `Notes.Editor.Vertical` | tests/productivity_notes_v2_model.cpp:166-184 | the cursor goes to the preferred column of the next or previous line, or the end of a shorter one, and stays consistent with that column |
| `Notes.UpAfterDown` | tests/productivity_notes_v2_model.cpp:166-184 | down then up comes back, through lines of any length |
| `Notes.DownAfterUp` | tests/productivity_notes_v2_model.cpp:166-184 | up then down comes back |
| `Fat12.Set` | tools/fat12_builder.cpp:47-54 | the entry reads back through the verifier's reader and every other entry is unchanged |
| `Fat12.BuildTable` | tools/fat12_builder.cpp:76-81 | media entries, one chain from cluster 2 to an end mark, free space: every entry of the table |
| `Fat12.BuildImage` | tools/fat12_builder.cpp:67-96 | refused iff the boot sector is malformed or the kernel is empty or too large; the verifier accepts the result iff the boot sector carries its marks and the kernel has at most 524288 bytes; any chain it finds reads back the kernel |
| `Fat12.WalkChain` | tools/image_verify.cpp:69-82 | ends on every image, and succeeds iff a chain of distinct in-range clusters of the expected length exists |
| `Fat12.VerifyImage` | tools/image_verify.cpp:48-82 | accepts exactly the acceptable images: fields, equal tables, and ceil(size/512) distinct in-range clusters |
| `Fat12.ChainUnique` | tools/image_verify.cpp:69-82 | the table determines the chain |
| `Fat12.BuiltReads` | tools/fat12_builder.cpp:95-96 | the bytes of the chain of a built image are the kernel |

## Left out

- Torn, garbage, dropped, duplicated and reordered sector writes: what is accepted there rests on FNV-1a, which collides. Ordered prefixes are covered, arbitrary bytes in the staging slot, and one damaged byte in a file or a journal.
- The byte encoding of superblock and entries: sectors are typed (superblock, eight entries, raw bytes), and the superblock's label and reserved bytes are not represented.
- Transport.BuildPlan: paths contain no NUL character, as C strings cannot; the source file is there and the directories and absent files are those of the tool's baseline, as `Transport.PlanTransfer` spells out.
- CowPlan.CrashAtomic: the path is new or names a file; writing over a directory is not covered.
- FilePlanner, StepPlans, Persist, Transport: the disk is a value each method returns anew, together with the writes that produce it; no aliasing between images is modelled. `EntryTable.RecoverTable` is the in-place form of recovery.
- Transport.Classify: an image whose geometry wraps (`Disk.WrappedGeometryAccepted`) is not classified.
- The copy-on-write replacement and classification in tools/zenovfs_audit_fault_test.cpp: the same protocol as the one modelled.
- LzssSearch.LongestInWindow: positions past 2^31, whose cast to a signed word turns negative, are not covered; the round trip is.
- Disk.GeometryExact: tables of 2^32 bytes or more are left to `Disk.GeometryKeepsTableClear`.
- SHA-256 round arithmetic: the compression function is a parameter; that the two implementations share it is not shown.
- Merkle.MerkleRoot: the size is a 32-bit word, as in the source.
- Pss.VerifyPss: the hashes it calls are a parameter; constant-time behaviour is not modelled.
- Resolver.ResolveAlternative: requires-any expressions arrive as lists of options; splitting their text is not modelled.
- Resolver.MakePlan: diagnostics are recorded as data, not as text.
- Package.ReadPackage: the hexadecimal digest of the whole package, which nothing reads back, and the texts of error messages.
- Package index scanning and rendering, version compatibility of manifests, ZEX1 import checks, foreign format naming: only easy members.
- AuditLog.Ring.AppendEvent: a next index of 64 or more, which the source uses as an array index unchecked, is excluded.
- Notes.Editor.constructor: an initial text of 2048 bytes or more ends the program in the source; it is a precondition here.
- Notes.Editor.UndoOnce: the refusal after someone outside overwrites the text (the mismatched-history case) is covered at `Notes.Editor.RawErase`, not as a run.
- Fat12.BuildImage: the volume label's and kernel entry's attribute bytes are written but no claim is made about them.
- Everything in kernel/parts but the acceptance test of transport journals, reading and writing of files, command lines, printing, sockets, boot assembly.
- Builders and verifiers of fixed signed fixtures, ZenRepo metadata files, descriptor tables and host profiles: constant tables and single-record checks.

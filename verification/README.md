# Verified models of the runtime build, the FAT16 reference, the exception tables and the wire protocols

This project models four parts of the repository in Dafny and proves what they are for. Nothing here
runs the original programs.

**Scenario rules.** The runtime build describes source directories by conditions on scenario
variables ("Var:a,b" or "Var:!a,!b"). `Rules` parses them, `SourceTree` compiles a flat table of
directories into a nested decision tree - pruning and restoring one shared table and extending and
retracting one shared environment across its recursion - and walks the tree under an assignment,
`Installer` joins both ends, and `CheckDeps` completes a configuration with what its active
directories require.

**FAT16.** `FatLayout`, `FatNames`, `FatAliases` and `FatDirs` model the geometry, the tables, names
and slots of the Microsoft FAT specification; `FatState` says what a volume stands for and states the
invariant, `FatLink` that entering a file or a directory keeps it, `FatVolume` has the writer itself
over a sector image, `FatReadBack` what a reader finds, `FatDots` where "." and ".." lead, and
`FatExample` has a small volume.

**Exception tables.** `Leb128` and `EncodedPointers` read numbers and pointers (DWARF 5, section 7.6;
LSB Core Generic 5.0, section 10.5.1), `CallSites` scans the call-site table with its early exit,
`Personality` has the Ada matching rule, the action chains and the personality routine,
`ExceptionTables` lays out whole tables as a compiler does and proves that they are read as what they
were written for, `Unwinding` has the two phases of the Itanium C++ ABI over a stack of frames,
`CieEncoding` and `FdeSearch` find the FDE of an address (LSB Core Generic 5.0, section 10.6.2),
`FdeTables` that they find the function in what was written, and `SjLj` has the chain of setjmp/longjmp
contexts. The machine is the 32-bit little-endian one of the target: words are taken modulo 2^32, memory
is a sequence of bytes from address 0.

**Wire protocols and packers.** `Slip` frames and unframes (RFC 1055), `RomProtocol` says what a
history of line changes and frames means for the simulated bootloader, `FakeRom` is the simulator and
`RomSession` a whole download, `Modbus` has the server's tables and the requests of its two masters
(MODBUS Application Protocol V1.1b3, sections 6.1 to 6.12; the reads of discrete inputs and input
registers are sent by libs/esp32s3_hal/test/modbus_master_host/modbus_master_host.adb:56 and 77),
`Glyphs` packs pixels.

Where the original updates objects in place there is a class, and each of its methods is proved
against functions or predicates of the state; the lemmas beside it say what those functions mean.

Results that differ from what one would expect, each proved with its exact condition and followed by
an input that shows it:

- A pointer to the very address it is relative to is stored as zero and read as a null pointer
  (`EncodedPointers.PointerReadsBack`, `EncodedPointers.SelfReadsNull`).
- A call site that ends with the last byte of the address space is never found by the scan
  (`CallSites.TopIsMissed`, `CallSites.LastByteIsMissed`), nor such a function by the FDE search
  (`FdeSearch.TopIsMissed`, `FdeSearch.LastByteIsMissed`).
- The SLIP decoder keeps an open escape across an end byte, so the first frame behind damaged input
  may be delivered altered (`Slip.FrameAfterAnything`, `Slip.EscapeStaysOpen`).
- Exception 02 of the Modbus server does not always mean that nothing was written
  (`Modbus.RefusedChangesNothing`, `Modbus.ShortWriteIsSeen`).
- A failure that strikes after clusters have been allocated leaves a chain that no entry refers to
  (`FatVolume.FollowsGrows`, `FatExample.FailLate`); the model keeps such chains as lost, so the
  invariant holds on failure too.
- The completion of a configuration does not stop for every table: where conditions accept what is
  required of a variable, it stops iff the requirements of all entries that can become active are
  possible and agree (`CheckDeps.StopsIfAgreed`, `CheckDeps.EndlessTables`). For the table of sources
  it always stops, since all its requirements name the same value, "yes" (`CheckDeps.SameValueStops`;
  crates/bb-runtimes/support/rts_sources/sources.py:1056-2016).

## Model

| member | source | states |
|---|---|---|
| `Rules.ConditionReadsBack` | crates/bb-runtimes/support/rts_sources/__init__.py:37-62 | a condition written for plain names is read back: its variable, whether it negates, and its values |
| `Rules.SpacingIsIgnored` | crates/bb-runtimes/support/rts_sources/__init__.py:37-62 | white space around the variable and around its values makes no difference, of whatever kind and however much |
| `Rules.WrittenMeans` | crates/bb-runtimes/support/rts_sources/__init__.py:37-82 | "Var:a,b" holds iff the variable has one of the values listed, "Var:!a,!b" iff it has a declared one that is not listed |
| `Rules.AcceptedValues` | crates/bb-runtimes/support/rts_sources/__init__.py:75-89 | the values left to a variable are exactly the declared ones that the condition accepts (listed, or for a negation not listed); the loop fails exactly if a negation lists a declared value twice |
| `Rules.NewRule` | crates/bb-runtimes/support/rts_sources/__init__.py:23-89 | the rule matches exactly the assignments that satisfy every condition as written; construction fails iff the first condition that is not plainly acceptable is an error, and the rule is invalid iff that condition accepts nothing |
| `Rules.FirstDecides` | crates/bb-runtimes/support/rts_sources/__init__.py:36-89 | the first condition that is an error or impossible decides between rejection and a rule that never matches; later ones are not looked at |
| `Rules.BuiltMeans` | crates/bb-runtimes/support/rts_sources/__init__.py:117-133 | accepted values built condition by condition match an assignment iff each condition text holds of it |
| `Rules.NeverAccepted` | crates/bb-runtimes/support/rts_sources/__init__.py:84-89 | one impossible condition makes the rule that never matches the right meaning of the whole list |
| `SourceTree.KeyReadsBack` | crates/bb-runtimes/support/bsp_sources/installer.py:84 | the key written for a branch is split by the installer into the same variable and value |
| `SourceTree.SubDirsSplit` | crates/bb-runtimes/support/bsp_sources/installer.py:169-173 | the branches of a tree contribute the same directories in whatever order they are visited |
| `SourceTree.GetRtsDirs` | crates/bb-runtimes/support/bsp_sources/installer.py:163-173 | interpreting a tree yields, as a multiset, exactly the directories the tree stands for under the assignment |
| `SourceTree.BranchAdded` | crates/bb-runtimes/support/rts_sources/__init__.py:357-358 | leaving out an empty branch, or adding one under a fresh key, contributes exactly the branch selected by the assignment |
| `SourceTree.SelectedAtTop` | crates/bb-runtimes/support/rts_sources/__init__.py:117-133 | seen from the empty environment the directories a call has to cover are those whose rule matches the assignment |
| `SourceTree.SelectedUnder` | crates/bb-runtimes/support/rts_sources/__init__.py:343-361 | fixing one more variable to its assigned value covers exactly the directories that this variable is the first to constrain: none twice, none missed |
| `SourceTree.SelectedSplit` | crates/bb-runtimes/support/rts_sources/__init__.py:311-332 | taking out the matched directories and pruning the hopeless ones loses nothing: what is left is constrained by a variable still to come |
| `SourceTree.Compiler.Prune` | crates/bb-runtimes/support/rts_sources/__init__.py:323-332 | what is deleted plus what is kept is the old table |
| `SourceTree.Compiler.MatchedDirs` | crates/bb-runtimes/support/rts_sources/__init__.py:311-315 | the directories met exactly by the environment, each once |
| `SourceTree.Compiler.Dump` | crates/bb-runtimes/support/rts_sources/__init__.py:304-367 | for every assignment, total or partial, the dumped tree stands for exactly the reachable directories, each once; the shared table and the shared environment are as before |
| `SourceTree.Compiler.DumpScenarios` | crates/bb-runtimes/support/rts_sources/__init__.py:341-361 | the loop over the variables adds exactly the directories constrained by one of them, and restores table and environment |
| `SourceTree.Compiler.DumpValues` | crates/bb-runtimes/support/rts_sources/__init__.py:352-361 | one branch per value: the environment is extended, overwritten and retracted, and the branches together hold what the variable selects |
| `SourceTree.Compiler.ChosenIsNext` | crates/bb-runtimes/support/rts_sources/__init__.py:343-361 | the branches of variable j hold exactly the directories it is the first to constrain |
| `Installer.AddDefaults` | crates/bb-runtimes/support/bsp_sources/installer.py:219-223 | what the configuration assigns is kept, an unassigned scenario variable takes its first declared value, and nothing else is assigned |
| `Installer.Library.AddRule` | crates/bb-runtimes/support/rts_sources/__init__.py:237-264 | a directory is entered once; it is refused iff it was there already or its conditions are rejected, and then nothing changes |
| `Installer.Library.NoteScenarios` | crates/bb-runtimes/support/rts_sources/__init__.py:261-264 | the variables in use are those of the rules, each listed once |
| `Installer.Library.InstalledDirs` | crates/bb-runtimes/support/bsp_sources/installer.py:163-173 | end to end: whatever the order of the variables, the installed directories are exactly those whose condition texts all hold under the configuration completed with defaults - which keeps what is assigned and takes the first declared value for the rest - each once |
| `CheckDeps.UpdateAdvances` | crates/bb-runtimes/support/rts_sources/profiles.py:40-44 | meeting an unmet requirement uses up a required variable that was not yet at its value and sets required values only |
| `CheckDeps.UpdateStaysBelow` | crates/bb-runtimes/support/rts_sources/profiles.py:33-44 | every closed extension has to follow each update the loop makes |
| `CheckDeps.Configuration.Pass` | crates/bb-runtimes/support/rts_sources/profiles.py:29-44 | a pass that modifies nothing has found a closed configuration; one that modifies something makes progress |
| `CheckDeps.Configuration.CheckDeps` | crates/bb-runtimes/support/rts_sources/profiles.py:27-46 | terminates whenever the entries that become active demand one goal only, ends in the configuration after some number of passes, which satisfies what every active directory requires, and is the least such extension when conditions on required variables accept the required values |
| `CheckDeps.OrderIrrelevant` | crates/bb-runtimes/support/rts_sources/profiles.py:27-46 | there is one least closed extension, so the order of the table does not matter |
| `CheckDeps.SteeredStops` | crates/bb-runtimes/support/rts_sources/profiles.py:27-46 | for any table: if what becomes active demands only the goal, some pass is the last one |
| `CheckDeps.SameValueStops` | crates/bb-runtimes/support/rts_sources/profiles.py:27-46 | a table whose requirements all name the same value, as the table of sources does, never keeps the loop going, from any configuration |
| `CheckDeps.StopsIfAgreed` | crates/bb-runtimes/support/rts_sources/profiles.py:27-46 | for a table whose conditions accept what is required of a variable: the loop ends iff the requirements of all entries that can become active are possible and agree |
| `CheckDeps.StopsIfSolvable` | crates/bb-runtimes/support/rts_sources/profiles.py:27-46 | for such a table the loop ends iff there is a closed extension at all |
| `CheckDeps.EndlessTables` | crates/bb-runtimes/support/rts_sources/profiles.py:27-46 | two tables on which the loop goes on for ever: two unconditional directories that require different values, and one that requires what no declared value meets |
| `CheckDeps.InactiveConflictStops` | crates/bb-runtimes/support/rts_sources/profiles.py:27-46 | contradicting requirements do no harm while one of them is inactive: an inconsistent table on which the loop ends |
| `FatLayout.Open` | libs/esp32s3_hal/test/fat16_host/reference_writer.py:34-55 | a volume is opened iff it starts, at sector 0 or where the first FAT16 entry of the partition table says, with an acceptable boot sector inside the image; which error is reported, for each of the other cases |
| `FatLayout.BootSectorIs` | libs/esp32s3_hal/test/fat16_host/reference_writer.py:58-71 | which bytes make a sector a boot sector: the mark at its end, 512-byte sectors, a power of two of them in a cluster, tables and a root that are not empty |
| `FatLayout.PartitionEntryIs` | libs/esp32s3_hal/test/fat16_host/reference_writer.py:41-50 | where the four entries of a partition table are, which of them are of FAT16, and where the partition of the first such one starts |
| `FatLayout.OneStart` | libs/esp32s3_hal/test/fat16_host/reference_writer.py:38-55 | a volume starts at one place at most |
| `FatLayout.ParsedGeometry` | libs/esp32s3_hal/test/fat16_host/reference_writer.py:58-92 | a boot sector that is accepted gives regions in order: tables, root and all clusters lie in the declared number of sectors, and cluster numbers are those of FAT16 |
| `FatLayout.ParsedFields` | libs/esp32s3_hal/test/fat16_host/reference_writer.py:58-92 | which bytes of the boot sector each number of the geometry is; the clusters are as many as fit behind the other regions |
| `FatLayout.RegionsAre` | libs/esp32s3_hal/test/fat16_host/reference_writer.py:84-135 | where tables, root, clusters and table entries are, in sectors and bytes |
| `FatLayout.LbaApart` | libs/esp32s3_hal/test/fat16_host/reference_writer.py:134-135 | the sectors of different clusters do not overlap |
| `FatLayout.LbaInside` | libs/esp32s3_hal/test/fat16_host/reference_writer.py:134-135 | the sectors of a cluster lie behind the tables and the root |
| `FatLayout.FatInside` | libs/esp32s3_hal/test/fat16_host/reference_writer.py:108-119 | every table entry lies between the reserved sectors and the root |
| `FatLayout.FatApart` | libs/esp32s3_hal/test/fat16_host/reference_writer.py:113-119 | the copies of the table do not overlap |
| `FatLayout.FatEntryBytes` | libs/esp32s3_hal/test/fat16_host/reference_writer.py:108-119 | the entry of a cluster is the two bytes, low one first, at twice its number in each table |
| `FatLayout.ChainByte` | libs/esp32s3_hal/test/fat16_host/reference_writer.py:137-156 | byte p of the k-th cluster of a chain lies in the sector and at the offset where the image has it |
| `FatNames.ShortNameChecksum` | libs/esp32s3_hal/test/fat16_host/reference_writer.py:27-31 | the loop computes the rotate-and-add checksum |
| `FatNames.TurnsRight` | libs/esp32s3_hal/test/fat16_host/reference_writer.py:30 | the total is turned to the right: its lowest bit becomes the highest, every other one moves down |
| `FatNames.ChecksumStep` | libs/esp32s3_hal/test/fat16_host/reference_writer.py:27-31 | it starts with 0, and each byte is added to the turned total modulo 256 |
| `FatNames.ChecksumInjective` | libs/esp32s3_hal/test/fat16_host/reference_writer.py:27-31 | two different running totals stay different over any further bytes |
| `FatNames.ChecksumDetectsOneByte` | libs/esp32s3_hal/test/fat16_host/reference_writer.py:27-31 | two names that differ in exactly one byte have different checksums |
| `FatNames.LongSlotFields` | libs/esp32s3_hal/test/fat16_host/reference_writer.py:217-227 | the ordinal, the marks, the checksum and the 13 code units packed into a long-name slot are unpacked again |
| `FatNames.LongSlotLayout` | libs/esp32s3_hal/test/fat16_host/reference_writer.py:217-227 | where the fields of a long-name slot are, byte by byte |
| `FatNames.ChunkLayout` | libs/esp32s3_hal/test/fat16_host/reference_writer.py:212-227 | a slot holds its chunk of the name, then a terminator and filler; its ordinal counts, and bit 6 marks the last chunk |
| `FatNames.ShortEntryStamp` | libs/esp32s3_hal/test/fat16_host/reference_writer.py:229-236 | every entry carries the same time and date, and zeros in the fields that are not used |
| `FatNames.MakeEntrySlots` | libs/esp32s3_hal/test/fat16_host/reference_writer.py:208-238 | the slots come out highest ordinal first and before the short entry; it fails iff there are more than 255 chunks |
| `FatNames.SlotKinds` | libs/esp32s3_hal/test/fat16_host/reference_writer.py:246-262 | which slots are deleted, which belong to a long name, and which are entries |
| `FatNames.Entries` | libs/esp32s3_hal/test/fat16_host/reference_writer.py:241-278 | the generator yields exactly the listing |
| `FatNames.AssembleSpells` | libs/esp32s3_hal/test/fat16_host/reference_writer.py:263-272 | sorting the collected chunks by ordinal and dropping terminator and filler spells the name |
| `FatNames.LongSlotsListing` | libs/esp32s3_hal/test/fat16_host/reference_writer.py:248-278 | whatever was pending before, the slots of a name followed by its entry list exactly that name |
| `FatNames.AppendListing` | libs/esp32s3_hal/test/fat16_host/reference_writer.py:208-278 | for any name of 1 to 819 code units without 0 and 0xFFFF, appending its slots appends exactly that name and entry to the listing, whatever slots came before |
| `FatAliases.CollectShortNames` | libs/esp32s3_hal/test/fat16_host/reference_writer.py:167-174 | the names in use are those of the live entries up to the terminator |
| `FatAliases.UsedShortNamesAre` | libs/esp32s3_hal/test/fat16_host/reference_writer.py:167-174 | a short name is in use iff a live entry has it |
| `FatAliases.CandidatesDiffer` | libs/esp32s3_hal/test/fat16_host/reference_writer.py:200-203 | the 99 numbered candidates for a name are all different |
| `FatAliases.CandidateIsFree` | libs/esp32s3_hal/test/fat16_host/reference_writer.py:200-206 | with fewer than 99 names taken, some candidate is free |
| `FatAliases.CleanAsWritten` | libs/esp32s3_hal/test/fat16_host/reference_writer.py:197-199 | the cleaning keeps exactly the characters whose upper case, taken once more, is in the list kept, as long as upper-casing an upper-cased character changes nothing |
| `FatAliases.KeptAreListed` | libs/esp32s3_hal/test/fat16_host/reference_writer.py:197-199 | the characters that are kept are the 26 letters, the 10 digits and the marks listed |
| `FatAliases.NameIsCut` | libs/esp32s3_hal/test/fat16_host/reference_writer.py:194-199 | a name is cut at its last dot into stem and extension, which has no dot; a name that only begins with a dot has no extension |
| `FatAliases.CandidateIs` | libs/esp32s3_hal/test/fat16_host/reference_writer.py:200-203 | candidate n is the cleaned stem cut so that "~n" fits into eight bytes, filled up with blanks, and three bytes of extension |
| `FatAliases.MakeShortName` | libs/esp32s3_hal/test/fat16_host/reference_writer.py:193-206 | the first free candidate is chosen; it fails iff all 99 are taken |
| `FatDirs.PutFatEntry` | libs/esp32s3_hal/test/fat16_host/reference_writer.py:113-119 | writing one entry of one copy changes that entry and no other of any copy |
| `FatDirs.WriteSlotEffect` | libs/esp32s3_hal/test/fat16_host/reference_writer.py:187-191 | writing a slot changes that slot of the directory and no sector outside it |
| `FatDirs.ChainLbasOk` | libs/esp32s3_hal/test/fat16_host/reference_writer.py:148-156 | the sectors of a directory chain are all different and inside the image |
| `FatDirs.SlotsOfCluster` | libs/esp32s3_hal/test/fat16_host/reference_writer.py:158-165 | the slots of a one-cluster directory are the consecutive pieces of the bytes of its cluster |
| `FatState.LostWritten` | libs/esp32s3_hal/test/fat16_host/reference_writer.py:137-145 | writing to a chain that belongs to nothing yet keeps the invariant |
| `FatState.ReservedOnDisk` | libs/esp32s3_hal/test/fat16_host/reference_writer.py:121-132 | linking free clusters into a new chain keeps everything stored: tables mirrored, every other chain, file and directory as before |
| `FatState.ReservedSound` | libs/esp32s3_hal/test/fat16_host/reference_writer.py:121-132 | the new chain shares no cluster with any other |
| `FatLink.LinkedOnDisk` | libs/esp32s3_hal/test/fat16_host/reference_writer.py:176-191 | appending the slots of an entry to its parent keeps the invariant on the image |
| `FatLink.LinkedSound` | libs/esp32s3_hal/test/fat16_host/reference_writer.py:293-334 | and the correspondence: each file and directory has one entry, each entry its own file or directory, short names stay pairwise different, paths lead to directories |
| `FatVolume.Volume.constructor` | libs/esp32s3_hal/test/fat16_host/reference_writer.py:58-92 | a blank formatted volume with this geometry satisfies the invariant |
| `FatVolume.Volume.GetFat` | libs/esp32s3_hal/test/fat16_host/reference_writer.py:108-111 | reads the entry of the cluster |
| `FatVolume.Volume.SetFat` | libs/esp32s3_hal/test/fat16_host/reference_writer.py:113-119 | sets the entry in every copy of the table and nothing else |
| `FatVolume.Volume.Allocate` | libs/esp32s3_hal/test/fat16_host/reference_writer.py:121-132 | first fit: the chain is the first free clusters in ascending order, linked in all copies and ended by 0xFFFF; it fails, changing nothing, iff there are too few |
| `FatVolume.FreeAre` | libs/esp32s3_hal/test/fat16_host/reference_writer.py:121-132 | the free clusters are those of the data area whose entry in the first table is 0, in ascending order |
| `FatVolume.PaddedLength` | libs/esp32s3_hal/test/fat16_host/reference_writer.py:138-139 | the padding fills exactly the clusters that the size needs |
| `FatVolume.Volume.WriteCluster` | libs/esp32s3_hal/test/fat16_host/reference_writer.py:142-145 | the cluster holds the block and no other cluster changes |
| `FatVolume.Volume.WriteChain` | libs/esp32s3_hal/test/fat16_host/reference_writer.py:137-145 | the chain holds the payload padded with zeros, and nothing outside it changes |
| `FatVolume.Volume.DirSectors` | libs/esp32s3_hal/test/fat16_host/reference_writer.py:148-156 | following the table from a directory gives its sectors, and ends |
| `FatVolume.Volume.ReadDir` | libs/esp32s3_hal/test/fat16_host/reference_writer.py:158-165 | all slots in order, the live ones first |
| `FatVolume.Volume.AppendSlots` | libs/esp32s3_hal/test/fat16_host/reference_writer.py:176-191 | the slots follow the live ones; it fails, changing nothing, iff they do not fit |
| `FatVolume.Volume.ListDirectory` | libs/esp32s3_hal/test/fat16_host/reference_writer.py:241-278 | reading a directory off the image yields exactly the names and entries the volume stands for |
| `FatVolume.Volume.ResolveDirectory` | libs/esp32s3_hal/test/fat16_host/reference_writer.py:280-291 | finds the directory that the path names, component by component, in the listings |
| `FatVolume.FoundFirst` | libs/esp32s3_hal/test/fat16_host/reference_writer.py:280-291 | one component leads to the first directory in the listing whose upper-cased name is that of the component, and to none if there is none |
| `FatVolume.FoundIsLive` | libs/esp32s3_hal/test/fat16_host/reference_writer.py:280-291 | a path never leads to anything but a directory of the volume, dot entries included |
| `FatVolume.Volume.ChooseAlias` | libs/esp32s3_hal/test/fat16_host/reference_writer.py:193-206 | the alias is the first free candidate with respect to the live entries of the parent |
| `FatVolume.Volume.Enter` | libs/esp32s3_hal/test/fat16_host/reference_writer.py:308-309 | the entry is added to the parent with the outcome that aliases, name length and room in the parent decide; otherwise nothing changes |
| `FatVolume.Volume.PutPayload` | libs/esp32s3_hal/test/fat16_host/reference_writer.py:300-309 | a non-empty payload gets the first free clusters, is written and entered; the outcome is decided by free clusters and parent |
| `FatVolume.Volume.MakeFolder` | libs/esp32s3_hal/test/fat16_host/reference_writer.py:316-334 | a directory gets one cluster with the two dot entries and zeros, and an entry in its parent |
| `FatVolume.Volume.Put` | libs/esp32s3_hal/test/fat16_host/reference_writer.py:293-309 | the invariant is kept and the outcome is exactly the one that path, free clusters and parent decide; on success exactly one chain, one content and one entry are added, on failure nothing but possibly one lost chain |
| `FatVolume.Volume.Mkdir` | libs/esp32s3_hal/test/fat16_host/reference_writer.py:311-334 | the same for making a directory |
| `FatVolume.OutcomeIs` | libs/esp32s3_hal/test/fat16_host/reference_writer.py:293-334 | when an operation fails and with which error, in the order in which the causes are met, and when it succeeds |
| `FatVolume.FollowsGrows` | libs/esp32s3_hal/test/fat16_host/reference_writer.py:293-334 | an operation keeps all chains, contents and listed slots; a chain is lost iff the operation failed after allocating |
| `FatVolume.Volume.Run` | libs/esp32s3_hal/test/fat16_host/reference_writer.py:293-334 | over any run of operations every moment satisfies the invariant, every step has the outcome it must have, everything stored before is kept, and nothing is lost iff no operation failed after allocating |
| `FatReadBack.WalkFollowsChain` | libs/esp32s3_hal/test/fat16_host/reference_writer.py:151-156 | following the table from a cluster of a chain gives the rest of the chain and stops |
| `FatReadBack.FileReadsBack` | libs/esp32s3_hal/test/fat16_host/reference_writer.py:293-309 | every file entry reads back, through its chain and its size, as the bytes stored under it |
| `FatReadBack.EarlierFileUnchanged` | libs/esp32s3_hal/test/fat16_host/reference_writer.py:293-334 | a file stored before a run reads back the same after it |
| `FatReadBack.EveryClusterAccounted` | libs/esp32s3_hal/test/fat16_host/reference_writer.py:121-132 | without lost chains a cluster is in use iff it belongs to a file or directory that has an entry, and then to exactly one |
| `FatReadBack.EntriesDoNotShare` | libs/esp32s3_hal/test/fat16_host/reference_writer.py:293-334 | no two entries refer to the same first cluster |
| `FatReadBack.PerformedListing` | libs/esp32s3_hal/test/fat16_host/reference_writer.py:293-334 | after an operation the parent lists what it listed before and then the new name, exactly |
| `FatReadBack.PutReadsBack` | libs/esp32s3_hal/test/fat16_host/reference_writer.py:293-309 | a file just put is the last entry of its directory and reads back as its payload |
| `FatReadBack.NamesGrow` | libs/esp32s3_hal/test/fat16_host/reference_writer.py:241-278 | what a directory lists stays at the front of its listing |
| `FatReadBack.PathsStay` | libs/esp32s3_hal/test/fat16_host/reference_writer.py:280-291 | a path that leads to a directory keeps leading there |
| `FatReadBack.FilePut` | libs/esp32s3_hal/test/fat16_host/reference_writer.py:293-309 | in any run a file put successfully is listed last in the directory its path names, under its exact name, and reads back as its payload |
| `FatReadBack.PutOnDisk` | libs/esp32s3_hal/test/fat16_host/reference_writer.py:293-309 | and on the image: its clusters are the first that were free, linked one to the next and ended by 0xFFFF in every table, and hold the payload and zeros |
| `FatReadBack.DirectoryMade` | libs/esp32s3_hal/test/fat16_host/reference_writer.py:311-334 | in any run a directory made under a fresh name is a new one, and resolving its path leads to it |
| `FatReadBack.KeptThroughRun` | libs/esp32s3_hal/test/fat16_host/reference_writer.py:293-334 | between any two moments of a run chains, contents and listed slots are kept |
| `FatReadBack.FileStaysThroughRun` | libs/esp32s3_hal/test/fat16_host/reference_writer.py:293-334 | at any later moment of a run an entry for a file is where it was and reads back the same bytes |
| `FatReadBack.OthersStay` | libs/esp32s3_hal/test/fat16_host/reference_writer.py:293-334 | a directory has exactly the slots it had before an operation iff the operation entered nothing into it |
| `FatReadBack.OthersStayThroughRun` | libs/esp32s3_hal/test/fat16_host/reference_writer.py:293-334 | between any two moments of a run a directory has the same slots iff no operation in between entered something into it |
| `FatReadBack.NewDirectoryResolves` | libs/esp32s3_hal/test/fat16_host/reference_writer.py:311-334 | a directory just made under a fresh name is what its path leads to |
| `FatDots.ShortNameIs` | libs/esp32s3_hal/test/fat16_host/reference_writer.py:274-278 | a short name is read as its stem and, behind a dot, its extension, without the blanks they are filled up with |
| `FatDots.MadeHasDots` | libs/esp32s3_hal/test/fat16_host/reference_writer.py:311-334 | a directory just made lists "." and ".." only; "." leads from it to itself, ".." to the directory it was made in, which has an entry for it as its last one |
| `FatDots.MadePathHasDots` | libs/esp32s3_hal/test/fat16_host/reference_writer.py:280-334 | and with a fresh name its path leads there, its path with "." behind it as well, and with ".." to where the path without the last name led |
| `FatDots.DotsStay` | libs/esp32s3_hal/test/fat16_host/reference_writer.py:280-334 | which stays so at every later moment of a run |
| `FatExample.EntryDoesNotFit` | libs/esp32s3_hal/test/fat16_host/reference_writer.py:293-309 | a blank volume on which a file of one byte with a name of 200 characters is refused as the root is full, although there are free clusters |
| `FatExample.FailLate` | libs/esp32s3_hal/test/fat16_host/reference_writer.py:293-309 | running that operation leaves a lost chain |
| `Leb128.ReadMore` | crates/bb-runtimes/gnat_rts_sources/include/rts-sources/full/gcc/unwind-pe.h:138-144 | one byte that is not the last keeps: result plus shifted rest is the value of the string |
| `Leb128.ReadUleb128` | crates/bb-runtimes/gnat_rts_sources/include/rts-sources/full/gcc/unwind-pe.h:130-148 | the unsigned value modulo 2^W, exact when it fits, and the address behind the string, for any terminated string that starts its last byte inside the word |
| `Leb128.SignExtended` | crates/bb-runtimes/gnat_rts_sources/include/rts-sources/full/gcc/unwind-pe.h:168-172 | or-ing the bits above the shift gives the two's complement of the signed value |
| `Leb128.ReadSleb128` | crates/bb-runtimes/gnat_rts_sources/include/rts-sources/full/gcc/unwind-pe.h:152-174 | the signed value modulo 2^W as a signed number, exact when it fits, and the address behind the string |
| `Leb128.RoundTrip` | crates/bb-runtimes/gnat_rts_sources/include/rts-sources/full/gcc/unwind-pe.h:130-148 | the reader inverts the standard encoder on every value of a word, at any place |
| `Leb128.SignedRoundTrip` | crates/bb-runtimes/gnat_rts_sources/include/rts-sources/full/gcc/unwind-pe.h:152-174 | the signed reader inverts the standard encoder on every signed value of a word |
| `EncodedPointers.ReadEncodedValueWithBase` | crates/bb-runtimes/gnat_rts_sources/include/rts-sources/full/gcc/unwind-pe.h:185-293 | every format, signed or not, aligned, relative to base or position, indirect: the value the format stands for and the next address |
| `EncodedPointers.LittleReadsBack` | crates/bb-runtimes/gnat_rts_sources/include/rts-sources/full/gcc/unwind-pe.h:189-259 | bytes written least significant first are read back, modulo their range |
| `EncodedPointers.FixedReadsBack` | crates/bb-runtimes/gnat_rts_sources/include/rts-sources/full/gcc/unwind-pe.h:185-259 | a number written in any format of a fixed size that has room for it is read back, a negative one as the word it stands for |
| `EncodedPointers.Leb128ReadsBack` | crates/bb-runtimes/gnat_rts_sources/include/rts-sources/full/gcc/unwind-pe.h:222-236 | the two LEB128 formats read what was written as LEB128, unsigned and signed |
| `EncodedPointers.AlignedReadsBack` | crates/bb-runtimes/gnat_rts_sources/include/rts-sources/full/gcc/unwind-pe.h:206-212 | an aligned pointer is the word at the next multiple of four |
| `EncodedPointers.PointerReadsBack` | crates/bb-runtimes/gnat_rts_sources/include/rts-sources/full/gcc/unwind-pe.h:265-287 | a pointer stored in four bytes relative to the base or to its own place is read back, unless it points at that very address: then it is taken for a null pointer |
| `EncodedPointers.SelfReadsNull` | crates/bb-runtimes/gnat_rts_sources/include/rts-sources/full/gcc/unwind-pe.h:265-287 | such a pointer: relative to its own place, stored at any address, it points at itself and is read as null |
| `EncodedPointers.SizeIsAdvance` | crates/bb-runtimes/gnat_rts_sources/include/rts-sources/full/gcc/unwind-pe.h:71-89 | for every format without a variable length the size function gives exactly what the reader advances by |
| `CallSites.GetRegionDescriptionFor` | crates/bb-runtimes/gnat_rts_sources/include/rts-sources/full/raise-gcc.c:669-719 | the header step by step: bases, type table, call-site table and action table, or an abort |
| `CallSites.RegionReadsBack` | crates/bb-runtimes/gnat_rts_sources/include/rts-sources/full/raise-gcc.c:687-718 | a header as it is written, with or without a type table, is read back as the region it was written for |
| `CallSites.PadBaseReadsBack` | crates/bb-runtimes/gnat_rts_sources/include/rts-sources/full/raise-gcc.c:692-718 | so is a header that gives the base of its landing pads by a pointer of any encoding: the other fields follow behind that pointer |
| `CallSites.RelativeReadsBack` | crates/bb-runtimes/gnat_rts_sources/include/rts-sources/full/gcc/unwind-pe.h:101-121 | a pointer of one word written relative to its own place or to the text, data or region of its frame is read back, unless it points at that very address |
| `CallSites.TableReadsBack` | crates/bb-runtimes/gnat_rts_sources/include/rts-sources/full/raise-gcc.c:873-902 | any records written one after the other as LEB128 numbers are decoded to those records |
| `CallSites.GetCallSiteActionFor` | crates/bb-runtimes/gnat_rts_sources/include/rts-sources/full/raise-gcc.c:861-942 | the scan with early exit over the bytes finds what a full search of the decoded records finds: the covering record that does not end at the top of the address space, its pad and action, or none |
| `CallSites.CoverIsUnique` | crates/bb-runtimes/gnat_rts_sources/include/rts-sources/full/raise-gcc.c:909-914 | in a sorted table without overlap one record at most covers an address |
| `CallSites.PassedIp` | crates/bb-runtimes/gnat_rts_sources/include/rts-sources/full/raise-gcc.c:909-911 | once the scan has passed the address no later record covers it |
| `CallSites.TopIsMissed` | crates/bb-runtimes/gnat_rts_sources/include/rts-sources/full/raise-gcc.c:909-914 | a covering record is missed iff it ends with the last byte of the address space, where its end wraps to 0; otherwise it is what is found |
| `CallSites.LastByteIsMissed` | crates/bb-runtimes/gnat_rts_sources/include/rts-sources/full/raise-gcc.c:909-914 | the bytes of a table of one record that covers the last four bytes of code: for the last of them nothing is found |
| `CallSites.FullSearchIsUnique` | crates/bb-runtimes/gnat_rts_sources/include/rts-sources/full/raise-gcc.c:861-942 | the full search has one result |
| `Personality.IsHandledBy` | crates/bb-runtimes/gnat_rts_sources/include/rts-sources/full/raise-gcc.c:1124-1195 | which choices catch an occurrence: "all others" everything, an Ada exception by its identity or by "others" unless it is exempt, a foreign one by "others" and its own choice; "unhandled others" only notifies |
| `Personality.RecordReadsBack` | crates/bb-runtimes/gnat_rts_sources/include/rts-sources/full/raise-gcc.c:1234-1238 | a record written as two signed LEB128 numbers is decoded to that filter and displacement, counted from where the displacement is stored |
| `Personality.FirstCatch` | crates/bb-runtimes/gnat_rts_sources/include/rts-sources/full/raise-gcc.c:1228-1280 | the first clause, in chain order, with a positive filter whose choice matches |
| `Personality.WalkChain` | crates/bb-runtimes/gnat_rts_sources/include/rts-sources/full/raise-gcc.c:1228-1303 | following the records by their displacements decides as the list of clauses does: first match, else a cleanup, else nothing; forced unwinding only sees cleanups |
| `Personality.GetActionDescriptionFor` | crates/bb-runtimes/gnat_rts_sources/include/rts-sources/full/raise-gcc.c:1200-1304 | the decision for a frame over its bytes is the one its decoded tables give |
| `Personality.PersonalityBody` | crates/bb-runtimes/gnat_rts_sources/include/rts-sources/full/raise-gcc.c:1382-1484 | search phase: continue on a cleanup, stop at a handler; cleanup phase: install pad and filter of what was found |
| `Personality.HandlersAreChosen` | crates/bb-runtimes/gnat_rts_sources/include/rts-sources/full/raise-gcc.c:1248-1280 | a handler is entered with a positive filter and never under forced unwinding |
| `Personality.HandlerIsFirstCatch` | crates/bb-runtimes/gnat_rts_sources/include/rts-sources/full/raise-gcc.c:1228-1280 | the filter of a handler is that of the first clause that catches the exception, in the chain of its call site |
| `ExceptionTables.TypeTableReadsBack` | crates/bb-runtimes/gnat_rts_sources/include/rts-sources/full/raise-gcc.c:654-665 | in a type table of words written downwards from its base, absolute or relative, direct or indirect, none referring to the address it is relative to, filter f yields the f-th choice: the meaning of the entry that is read for a positive filter |
| `ExceptionTables.ChainReadsBack` | crates/bb-runtimes/gnat_rts_sources/include/rts-sources/full/raise-gcc.c:1228-1303 | records written one behind the other, each with the distance to an earlier one, are read as the chain of clauses they were written for |
| `ExceptionTables.WrittenAreaRepresents` | crates/bb-runtimes/gnat_rts_sources/include/rts-sources/full/raise-gcc.c:669-942 | a whole area written for a frame - header, call sites, actions, padding, type table - at any address is read as exactly the tables it was written for |
| `ExceptionTables.SiteDecides` | crates/bb-runtimes/gnat_rts_sources/include/rts-sources/full/raise-gcc.c:1200-1304 | what is done at an address inside a call site is what the site was written with: nothing, a cleanup, or the first match in its chain |
| `ExceptionTables.CallDecides` | crates/bb-runtimes/gnat_rts_sources/include/rts-sources/full/raise-gcc.c:605-631 | the address in a context decides on the call site: a return address may be the first one behind the site but not the first one in it, an address before its instruction the other way round; what is decided is what that site was written with, and nothing of its neighbours |
| `Unwinding.RaiseException` | crates/bb-runtimes/gnat_rts_sources/include/rts-sources/full/raise-gcc.c:1382-1484 | the search stops at the innermost frame with a handler; then the landings are those of the cleanup phase, which resumes in the frame of each cleanup and goes on until a handler is entered; without a handler there are none |
| `Unwinding.ForcedUnwind` | crates/bb-runtimes/gnat_rts_sources/include/rts-sources/full/raise-gcc.c:1257-1280 | forced unwinding goes through all frames, resuming behind each cleanup |
| `Unwinding.TwoPhaseAgreement` | crates/bb-runtimes/gnat_rts_sources/include/rts-sources/full/raise-gcc.c:1382-1484 | the last landing is in the frame found by the search iff no inner frame comes to a handler behind one of its cleanups; then all others are cleanups with filter 0, in exactly the inner frames that have one, and the last has the filter of the first clause that catches the exception |
| `Unwinding.ListedHandlersAreQuiet` | crates/bb-runtimes/gnat_rts_sources/include/rts-sources/full/raise-gcc.c:1228-1303 | no frame comes to a handler behind a cleanup if no cleanup resumes where a handler is in sight |
| `Unwinding.ForcedLandsInCleanups` | crates/bb-runtimes/gnat_rts_sources/include/rts-sources/full/raise-gcc.c:1248-1280 | under forced unwinding every landing is a cleanup with filter 0, in exactly the frames that have one |
| `Unwinding.EnteredOnce` | crates/bb-runtimes/gnat_rts_sources/include/rts-sources/full/raise-gcc.c:1382-1484 | where no cleanup has another one around it in its frame, no frame is entered twice |
| `Unwinding.FrameDecides` | crates/bb-runtimes/gnat_rts_sources/include/rts-sources/full/raise-gcc.c:605-631 | a frame is first asked for the call site that its call is in, and decides as was written for that one |
| `Unwinding.ResumeDecides` | crates/bb-runtimes/gnat_rts_sources/include/rts-sources/full/raise-gcc.c:605-631 | behind a cleanup it is asked for the call site of the call that resumes the unwinding |
| `CieEncoding.GetCieEncoding` | crates/bb-runtimes/gnat_rts_sources/include/rts-sources/full/zcx-dw2-gcc/unwind-dw2-fde-bb.c:88-144 | the two cursors in step give the encoding that the letters and fields stand for, for every version and any augmentation |
| `CieEncoding.RecordedIsReturned` | crates/bb-runtimes/gnat_rts_sources/include/rts-sources/full/zcx-dw2-gcc/unwind-dw2-fde-bb.c:121-143 | whatever personality and language fields precede it, aligned and LEB128 ones included, the byte recorded for R is returned |
| `CieEncoding.WrittenIsAugmented` | crates/bb-runtimes/gnat_rts_sources/include/rts-sources/full/zcx-dw2-gcc/unwind-dw2-fde-bb.c:121-143 | fields written one after the other, with pointers of any encoding, are read as those fields |
| `CieEncoding.WrittenEncodingIsRead` | crates/bb-runtimes/gnat_rts_sources/include/rts-sources/full/zcx-dw2-gcc/unwind-dw2-fde-bb.c:88-144 | for any written CIE, at any address, of any version and with pointers of any encoding the reader knows, the encoding recorded for R is read back |
| `CieEncoding.NoneRecorded` | crates/bb-runtimes/gnat_rts_sources/include/rts-sources/full/zcx-dw2-gcc/unwind-dw2-fde-bb.c:88-144 | which CIEs name no encoding for their FDEs: those of version 4 on for other addresses, which cannot be used, and those without augmentation data or with an unknown letter before R, whose FDEs have absolute pointers |
| `FdeSearch.ReadHeader` | crates/bb-runtimes/gnat_rts_sources/include/rts-sources/full/zcx-dw2-gcc/unwind-dw2-fde-bb.c:180-209 | the header field by field: abort, empty, or where the table is and how many rows it has |
| `FdeSearch.TableFollowsFields` | crates/bb-runtimes/gnat_rts_sources/include/rts-sources/full/zcx-dw2-gcc/unwind-dw2-fde-bb.c:192-216 | with fields of a fixed size the table begins exactly behind them |
| `FdeSearch.RowReadsBack` | crates/bb-runtimes/gnat_rts_sources/include/rts-sources/full/zcx-dw2-gcc/unwind-dw2-fde-bb.c:212-246 | a row written as two offsets from the header gives back the start of the function and its FDE |
| `FdeSearch.RelativeReadsBack` | crates/bb-runtimes/gnat_rts_sources/include/rts-sources/full/zcx-dw2-gcc/unwind-dw2-fde-bb.c:63-85 | a pointer of one word written relative to its own place or to one of the two sections is read back, unless it points at that very address |
| `FdeSearch.LocateRow` | crates/bb-runtimes/gnat_rts_sources/include/rts-sources/full/zcx-dw2-gcc/unwind-dw2-fde-bb.c:223-241 | for any table, sorted or not, the loop ends by its break with a row that starts at or before the pc and is followed by one that starts behind it; it reads rows of the table only |
| `FdeSearch.UnwindFindFde` | crates/bb-runtimes/gnat_rts_sources/include/rts-sources/full/zcx-dw2-gcc/unwind-dw2-fde-bb.c:158-257 | for a sorted table without overlap the result is that of a linear search, NULL if no function covers the pc |
| `FdeSearch.LinearSearchIsUnique` | crates/bb-runtimes/gnat_rts_sources/include/rts-sources/full/zcx-dw2-gcc/unwind-dw2-fde-bb.c:243-253 | the linear search has one result |
| `FdeSearch.TopIsMissed` | crates/bb-runtimes/gnat_rts_sources/include/rts-sources/full/zcx-dw2-gcc/unwind-dw2-fde-bb.c:246-249 | a covering function is missed iff it ends with the last byte of the address space, where the end wraps to 0 |
| `FdeSearch.LastByteIsMissed` | crates/bb-runtimes/gnat_rts_sources/include/rts-sources/full/zcx-dw2-gcc/unwind-dw2-fde-bb.c:158-257 | the bytes of a header, a CIE and an FDE for the last four bytes of code, all in order: the last of them is not found |
| `FdeTables.LengthReadsBack` | crates/bb-runtimes/gnat_rts_sources/include/rts-sources/full/zcx-dw2-gcc/unwind-dw2-fde-bb.c:243-248 | the length read for an FDE is the length written, at every address and behind a written CIE of any fixed-size encoding, relative and indirect ones included |
| `FdeTables.HeaderReadsBack` | crates/bb-runtimes/gnat_rts_sources/include/rts-sources/full/zcx-dw2-gcc/unwind-dw2-fde-bb.c:180-209 | a written header is read back as its count of rows, which begin behind it |
| `FdeTables.WrittenIsDescribed` | crates/bb-runtimes/gnat_rts_sources/include/rts-sources/full/zcx-dw2-gcc/unwind-dw2-fde-bb.c:158-257 | rows, FDEs and CIEs as they are written are what the search takes its tables to describe |
| `FdeTables.SearchAmongWritten` | crates/bb-runtimes/gnat_rts_sources/include/rts-sources/full/zcx-dw2-gcc/unwind-dw2-fde-bb.c:158-257 | among written functions the search finds the one whose code, from the start written and as long as was written, holds the program counter, and none iff there is none or it ends with the last byte of the address space |
| `SjLj.PairsReadBack` | crates/bb-runtimes/gnat_rts_sources/include/rts-sources/cert/raise-gcc.c:842-848 | any pairs written one after the other are decoded to those pairs |
| `SjLj.GetCallSiteActionFor` | crates/bb-runtimes/gnat_rts_sources/include/rts-sources/cert/raise-gcc.c:810-857 | an index k of at least 1 reads exactly the k-th pair, -1 and 0 mean no action |
| `SjLj.IndexIsKept` | crates/bb-runtimes/gnat_rts_sources/include/rts-sources/cert/unwind-sjlj-cert.c:154-162 | adding one and taking it off again gives the stored index back, negative or not |
| `SjLj.InstalledPad` | crates/bb-runtimes/gnat_rts_sources/include/rts-sources/cert/unwind-sjlj-cert.c:166-170 | an installed context holds exactly the landing-pad index of the pair it was found by |
| `SjLj.OnlyOwnPlace` | crates/bb-runtimes/gnat_rts_sources/include/rts-sources/cert/unwind-sjlj-cert.c:178-201 | only a pointer relative to its own place is relative to anything: text, data and region start at 0 |
| `SjLj.WrittenIsStored` | crates/bb-runtimes/gnat_rts_sources/include/rts-sources/cert/raise-gcc.c:810-857 | a written area - header, pairs, actions, type table - stores exactly the tables it was written for |
| `SjLj.IndexDecides` | crates/bb-runtimes/gnat_rts_sources/include/rts-sources/cert/raise-gcc.c:842-857 | what is decided for stored index k is what its pair was written for: the first match in exactly the chain of its record, or a cleanup if it has none |
| `SjLj.NoIndexNoAction` | crates/bb-runtimes/gnat_rts_sources/include/rts-sources/cert/raise-gcc.c:819-840 | without a positive index, or without an area, there is nothing to do |
| `SjLj.FunctionContext.ActionDescription` | crates/bb-runtimes/gnat_rts_sources/include/rts-sources/cert/raise-gcc.c:1382-1426 | the decision for the index stored in a context is the one its decoded tables give |
| `SjLj.FunctionContext.Install` | crates/bb-runtimes/gnat_rts_sources/include/rts-sources/cert/raise-gcc.c:1310-1330 | the data words hold exception and filter, the index is that of the landing pad |
| `SjLj.LinkedSuffix` | crates/bb-runtimes/gnat_rts_sources/include/rts-sources/cert/unwind-sjlj-cert.c:219-231 | what follows a context in the chain is the corresponding suffix |
| `SjLj.Chain.Register` | crates/bb-runtimes/gnat_rts_sources/include/rts-sources/cert/unwind-sjlj-cert.c:85-90 | the context is put in front of the registered ones |
| `SjLj.Chain.Unregister` | crates/bb-runtimes/gnat_rts_sources/include/rts-sources/cert/unwind-sjlj-cert.c:104-108 | the chain is cut down to what was registered before the context |
| `SjLj.Chain.Search` | crates/bb-runtimes/gnat_rts_sources/include/rts-sources/cert/raise-gcc.c:1427-1466 | the search phase finds out whether some registered context has a handler, and changes nothing |
| `SjLj.Chain.CleanUp` | crates/bb-runtimes/gnat_rts_sources/include/rts-sources/cert/unwind-sjlj-cert.c:226-246 | the chain is cut down to the first context with something to do, which alone is changed |
| `SjLj.Chain.RaiseException` | crates/bb-runtimes/gnat_rts_sources/include/rts-sources/cert/unwind-sjlj-cert.c:204-246 | both phases: without a handler nothing changes; otherwise the chain is exactly the suffix from the first context with something to do, installed at its landing pad, all others unchanged |
| `Slip.SlipEscape` | libs/esp32s3_hal/test/esp_loader_host/fake_rom.py:85-95 | the loop builds end byte, escaped body, end byte |
| `Slip.OnTheWire` | libs/esp32s3_hal/test/esp_loader_host/fake_rom.py:85-95 | which bytes stand for an end byte, an escape byte and any other one, and that a frame is these between two end bytes |
| `Slip.BodyHasNoEnd` | libs/esp32s3_hal/test/esp_loader_host/fake_rom.py:85-95 | between its two ends a frame has no end byte |
| `Slip.Decoder.Feed` | libs/esp32s3_hal/test/esp_loader_host/fake_rom.py:386-403 | one byte of the stream: the new state, and the payload handed on if a frame is complete |
| `Slip.Extend` | libs/esp32s3_hal/test/esp_loader_host/fake_rom.py:382-403 | a stream may be cut anywhere: what is delivered is the concatenation |
| `Slip.RoundTrip` | libs/esp32s3_hal/test/esp_loader_host/fake_rom.py:378-403 | after any noise without an end byte the frames of any payloads are delivered in order, each exactly once, except empty ones |
| `Slip.FrameAfterAnything` | libs/esp32s3_hal/test/esp_loader_host/fake_rom.py:388-399 | after anything at all a frame is delivered as it was sent iff no escape is left open - the decoder does not clear one at an end byte - and the decoder is in step again behind it |
| `Slip.EscapeStaysOpen` | libs/esp32s3_hal/test/esp_loader_host/fake_rom.py:388-399 | an input that shows it: the letter A, framed behind a frame that was cut off in an escape, arrives as an escape byte |
| `Slip.Resynchronises` | libs/esp32s3_hal/test/esp_loader_host/fake_rom.py:378-403 | behind damaged input at most one frame is lost |
| `RomProtocol.ChecksumSeesOneByte` | libs/esp32s3_hal/test/esp_loader_host/fake_rom.py:302-308 | a block with exactly one byte changed never passes the checksum |
| `RomProtocol.ChecksumMeans` | libs/esp32s3_hal/test/esp_loader_host/fake_rom.py:302-308 | the checksum starts with 0xEF and each byte turns over the bits it has |
| `RomProtocol.EraseSizeBounds` | libs/esp32s3_hal/test/esp_loader_host/fake_rom.py:72-82 | the doctored erase size is whole sectors, at most what the image takes and at least half of that |
| `RomProtocol.EraseSizeIsLeast` | libs/esp32s3_hal/test/esp_loader_host/fake_rom.py:72-82 | it is the least number of sectors that makes up for the miscount of the chip |
| `RomProtocol.CommandsFollowRelease` | libs/esp32s3_hal/test/esp_loader_host/fake_rom.py:151-164 | in a run without faults every command came after a release of the reset with the boot line asserted, and that was the last release |
| `RomProtocol.NothingPassesIgnoredBoot` | libs/esp32s3_hal/test/esp_loader_host/fake_rom.py:160-164 | a target whose boot line is broken faults every command |
| `RomProtocol.CleanBlocks` | libs/esp32s3_hal/test/esp_loader_host/fake_rom.py:292-311 | in a run without faults the image is whole blocks |
| `RomProtocol.FaultlessFrame` | libs/esp32s3_hal/test/esp_loader_host/fake_rom.py:167-335 | what every frame of a run without faults is, in its bytes: header, opcode, and the payload that opcode asks for at this point |
| `RomProtocol.FaultlessImageFrame` | libs/esp32s3_hal/test/esp_loader_host/fake_rom.py:234-326 | the same for the frames that carry an image |
| `RomProtocol.BlockWasSent` | libs/esp32s3_hal/test/esp_loader_host/fake_rom.py:292-311 | block k of the image was sent, with a good checksum, in a frame with sequence number k since the last begin frame |
| `RomProtocol.OutputIsTheImage` | libs/esp32s3_hal/test/esp_loader_host/fake_rom.py:313-326 | what an end frame writes is exactly the declared number of bytes, out of exactly as many blocks as that needs, and the rest is 0xFF |
| `RomProtocol.WrittenByteWasSent` | libs/esp32s3_hal/test/esp_loader_host/fake_rom.py:292-326 | byte p of the output is byte p mod 1024 of the block with sequence number p / 1024 sent since the last begin frame |
| `RomProtocol.ReplyArrives` | libs/esp32s3_hal/test/esp_loader_host/fake_rom.py:337-342 | a reply is received as one frame whose header carries the opcode, the length of the body and the value, and whose body is the data and the status bytes |
| `RomProtocol.AnswersAre` | libs/esp32s3_hal/test/esp_loader_host/fake_rom.py:183-335 | which commands are answered, how often, with what value and how much data, and which of them report an error |
| `RomSession.SessionIsClean` | libs/esp32s3_hal/test/esp_loader_host/fake_rom.py:151-326 | a whole download - reset with the boot line held, sync, attach, begin, the blocks in order, end - is without a fault for any image, any chip and whatever the loader is free to choose, and what is written is exactly the image |
| `FakeRom.Rom.SetReset` | libs/esp32s3_hal/test/esp_loader_host/fake_rom.py:151-158 | only a release samples the boot line, counts, and restores the rate of the line |
| `FakeRom.Rom.SetBoot` | libs/esp32s3_hal/test/esp_loader_host/fake_rom.py:160-164 | the boot line is seen unless it is ignored |
| `FakeRom.Rom.FlashBegin` | libs/esp32s3_hal/test/esp_loader_host/fake_rom.py:234-290 | which begin frames are faults, and what they declare; a frame without size and blocks only attaches |
| `FakeRom.Rom.FlashData` | libs/esp32s3_hal/test/esp_loader_host/fake_rom.py:292-311 | which data frames are faults; the block is appended in any case |
| `FakeRom.Rom.FlashEnd` | libs/esp32s3_hal/test/esp_loader_host/fake_rom.py:313-326 | which end frames are faults, and what is written |
| `FakeRom.Rom.Dispatch` | libs/esp32s3_hal/test/esp_loader_host/fake_rom.py:183-335 | a command raises no fault iff it is a good one at this point of the history, is answered as its opcode says, and ends the simulator iff its payload has another length than is unpacked |
| `FakeRom.Rom.Handle` | libs/esp32s3_hal/test/esp_loader_host/fake_rom.py:167-335 | a frame raises no fault iff it keeps the protocol; without a fault it is answered with its own opcode |
| `FakeRom.Rom.Run` | libs/esp32s3_hal/test/esp_loader_host/fake_rom.py:151-335 | over any interleaving of line changes and frames: no faults iff every event kept the protocol, and then what is written is what the history says |
| `Bits.SetBit` | libs/esp32s3_hal/test/modbus_master_host/modbus_slave.py:22 | or-ing 1 << k into a byte sets bit k and leaves the others |
| `Modbus.PackedBitsArePacked` | libs/esp32s3_hal/test/modbus_master_host/modbus_slave.py:18-23 | value i is bit i mod 8 of byte i / 8, the bits behind the last value are 0 |
| `Modbus.PackBits` | libs/esp32s3_hal/test/modbus_master_host/modbus_slave.py:18-23 | the loop over a zeroed buffer computes these bytes |
| `Modbus.Slave.constructor` | libs/esp32s3_hal/test/modbus_master_host/modbus_slave.py:10-14 | the initial tables |
| `Modbus.Slave.WriteCoils` | libs/esp32s3_hal/test/modbus_master_host/modbus_slave.py:54-61 | the bits of the body are written cell by cell; a body that is too short stops it half-way |
| `Modbus.Slave.WriteRegisters` | libs/esp32s3_hal/test/modbus_master_host/modbus_slave.py:62-69 | the same for registers, where a body that is too short ends the server with an exception |
| `Modbus.Slave.HandlePdu` | libs/esp32s3_hal/test/modbus_master_host/modbus_slave.py:25-73 | for any request: the reply, the exception code or the crash, and the new tables, all other cells unchanged |
| `Modbus.OperationIsPlain` | examples/esp32s3_modbus_slave/modbus_master.py:27-41 | a well-formed operation in range, built as the master builds it and decoded as the master decodes it, has the effect and the answer it has on plain arrays |
| `Modbus.RequestBytes` | examples/esp32s3_modbus_slave/modbus_master.py:27-41 | the bytes of each request the master sends: function, address, number or value, and the packed body |
| `Modbus.ReadReplyBytes` | libs/esp32s3_hal/test/modbus_master_host/modbus_slave.py:28-41 | the bytes of each answer to a read |
| `Modbus.WriteReplyBytes` | libs/esp32s3_hal/test/modbus_master_host/modbus_slave.py:42-69 | the bytes of each answer to a write |
| `Modbus.OutOfRangeIsRefused` | libs/esp32s3_hal/test/modbus_master_host/modbus_slave.py:28-73 | a well-formed operation that reaches 0x9000 or beyond gets exception 02 and changes nothing |
| `Modbus.SessionIsPlain` | examples/esp32s3_modbus_slave/modbus_master.py:27-41 | over any sequence of well-formed operations the master sees plain arrays |
| `Modbus.RefusedChangesNothing` | libs/esp32s3_hal/test/modbus_master_host/modbus_slave.py:54-73 | a request refused with exception 02 changes nothing iff it is not a write of several coils with a body that is too short but not empty |
| `Modbus.OddRequests` | libs/esp32s3_hal/test/modbus_master_host/modbus_slave.py:25-73 | an unknown function gets exception 01; a request that ends too early, or asks for more than fits an answer, ends the server, and none of them changes anything |
| `Modbus.ShortWriteIsSeen` | libs/esp32s3_hal/test/modbus_master_host/modbus_slave.py:54-61 | an input that shows it: from the initial tables a write of nine coils with eight in its body is refused and has changed coil 1 |
| `Glyphs.PackNibbles` | libs/esp32s3_hal/tools/gen_font.py:61-65 | two pixels to a byte, the first one high |
| `Glyphs.PackBits` | libs/esp32s3_hal/tools/gen_font.py:66-74 | eight pixels to a byte, the first one highest, the last byte filled up |
| `Glyphs.PackedPixels` | libs/esp32s3_hal/tools/gen_font.py:54-75 | which bits of which byte a pixel is, with four bits and with one |
| `Glyphs.SizeIsLeast` | libs/esp32s3_hal/tools/gen_font.py:54-75 | no glyph takes a byte more than its pixels need |
| `Glyphs.Pack` | libs/esp32s3_hal/tools/gen_font.py:54-75 | the recorded offsets cut the output into one range for each glyph, in order, without gap or overlap, and each range holds the pixels of its glyph |
| `Glyphs.PixelReadsBack` | libs/esp32s3_hal/tools/gen_font.py:54-75 | random access: the pixel read at the offset of its glyph is the quantised pixel of the mask |

## Left out

Scenario rules:

- The prefix of the directory names in the tree and the order in which JSON lists keys: directories
  are compared as a multiset, and keys are visited in any order.
- The sorting of the variables by how often they are used: the results hold for every order.
- Two libraries (gnat and gnarl) side by side: one is modelled, the other is the same.
- `CheckDeps.Configuration.CheckDeps`: asks that what becomes active demands one goal only, since the
  loop need not end otherwise; when it ends is said by `CheckDeps.StopsIfAgreed`.
- `CheckDeps.StopsIfAgreed`: where a condition refuses a value that is required elsewhere, only
  sufficient conditions for ending (`CheckDeps.SteeredStops`) and for not ending are given, one way
  each: requirements may then switch each other off and on.
- Requirements with several values for a variable, which the loop meets with a failed assertion.

FAT16:

- Images whose length is not a multiple of the sector size.
- Splitting a path at slashes: paths are lists of names. Names are sequences of 16-bit code units,
  and upper-casing is an arbitrary function of names.
- `FatAliases.MakeShortName`: looks up the characters of the upper-cased name themselves; that
  upper-casing them once more, as is written, comes to the same is `FatAliases.CleanAsWritten`.
- Directories of more than one cluster: they are never made, since a directory that is full fails.
- The name of a volume or other entries that were on the volume before are kept as they are; files
  that were already there are not modelled.

Exception tables:

- Foreign languages beyond "some other exception", Windows, ARM, CHERI and FDPIC variants, debug
  output. Which identity an occurrence has, and whether "when others" handles it, are given with it.
- `Unwinding.RaiseException`: where a landing pad resumes is a parameter, and a frame is asked again
  there until it has nothing left to do; a landing pad that resumes inside its own call site, so that
  the same frame is entered for ever, is excluded. Finding the frames themselves (register rules, CFA)
  is not modelled.
- `ExceptionTables.WrittenAreaRepresents`: covers what compilers write: landing pads relative to the
  region, call sites as LEB128 numbers, type tables of words, chains that lead to earlier records.
- The certified runtime has no choice for foreign exceptions as such: with it, the identity of that
  choice is the one of "others".
- `SjLj.Chain.RaiseException`: goes up to the first context that is installed; what the function does
  there, including longjmp, is not modelled.
- The 64-bit layout of pointers and table fields.
- `FdeTables.WrittenIsDescribed`: covers FDEs behind CIEs that record an encoding; a CIE without an
  augmentation gives the absolute encoding (`CieEncoding.NoneRecorded`).
- Registration of FDEs at run time and `.eh_frame` sections without a search table.

Wire protocols and packers:

- Pipes, sockets, threads and files: streams are byte sequences, what is written to a file is a field.
- The "silent" mode, in which nothing is handed to the bootloader, and the checks made at the end
  under `--expect` (fake_rom.py:386-391, 414-436).
- The texts of faults carry no numbers. The rate asked for by a change of rate is not kept, since
  nothing reads it.
- The Modbus TCP header: requests and replies are the protocol data units in it.
- Rasterising glyphs and writing Ada packages.
- The DNS, FTP and TLS test servers, the Ada drivers, the document and editor tooling, tables of
  constants and C library glue: not part of this model.

# Verified models of the Xbox Linux image tools

This project models the scripts that put Linux boot files onto Xbox disk images and proves what
they promise. Everything is stated for all inputs, all images and all runs; `dafny verify
dfyconfig.toml` checks the whole project.

**The FATX stager** (`scripts/fatx_stage_boot.py`) and its independent reader
(`scripts/extract_fatx_root_file.py`). The image is a byte sequence in the class `FatxPartition`;
the methods in `FatxStager`, `FatxFiles`, `FatxMain` and `FatxExtract` follow the procedures of the
scripts and are proved against functions on a `Volume`, which is the allocation table and the
clusters that the bytes represent. `FatxGeometry` shows once that the table and the clusters do not
overlap. On top of that stand the invariant without cross-links (`FatxFs`, `FatxSafety`), paths
(`FatxPaths`), the round trip (`FatxRoundTrip`, `FatxTheorems`), whole staging runs (`FatxRuns`,
`FatxStaging`), the text that is split and printed (`PathText`, `FatxText`), the bytes of new
entries (`FatxSlots`), the staged files (`FatxConfig`), cleaning (`FatxCleaning`), space accounting (`FatxSpace`), the result of a write told beforehand
(`FatxOutcome`), and the inputs on which the stager does not keep its promise, with exact
conditions (`FatxLimits`) and concrete volumes (`FatxWitnesses`).

**newc archives**: the printer in `scripts/make_busybox_initramfs.py` and the parser and rewriter in
`scripts/replace_newc_file.py` (`NewcFormat`, `NewcRewriter`, `NewcBuilder`), with a round trip
between printing and parsing, what an unpacker finds in a built archive, and the theorem that
replacing `init` commutes with building.

**The ISO9660 overlay** (`scripts/add_iso9660_overlay.py`): the two passes over the directory tree
(`IsoTree`), the sectors (`IsoRecords`, `IsoSectors`), the writes (`IsoOverlay`), and a reader of the
bytes that knows nothing about the writer and is proved to find exactly the given extents
(`IsoLookup`). The layouts are those of sections 8.3, 8.4, 9.1 and 9.4 of ECMA-119.

**qcow2 to raw** (`scripts/qcow2_to_raw_sparse.py`): the table walk, proved to refine guest reads
(`Qcow2`).

**Extension dependencies** (`scripts/download_tinycore_tcz.py`): the depth-first traversal on any
finite graph, cycles included (`TczNames`, `TczOrder`).

## What does not hold, and exactly when it does

- With four-byte table entries a linked cluster 0xFFF8 or 0xFFFF ends the chain walk. The result of
  a write is told exactly from the volume before the call (`FatxOutcome.WriteForecast`): it is cut
  if and only if such an id stands behind the first position of the allocation, which needs one of
  the two to be free or given back (`FatxOutcome.NeverCut`). `FatxWitnesses.WideWriteIsCut` gives a
  volume on which it happens; with two-byte entries it never does.
- `read_path_file` compares components with the last one by value. The read-back finds the entry
  just written if and only if no earlier component equals the last
  (`FatxLimits.ReadBackFindsEntryIffPlain`); `x/x` always fails (`FatxLimits.RepeatedNameFails`).
  What such paths read after other writes is told exactly in `FatxLimits.CompletedWrite` and
  `FatxLimits.RaisedWrite`.
- Writing a file to the path of a directory takes everything below it away, and nothing else: a file
  at another plain path is still read if and only if it is not below the written path
  (`FatxTheorems.WriteKeepsOthers`, with a concrete volume in `FatxWitnesses.FileBelowIsLost`). A
  completed run over case-insensitively different plain paths therefore reads back if and only if no
  path is a directory on the way to an earlier one (`FatxRuns.RunReadsBackIff`).
- The cluster count is taken from the whole partition, so the last clusters can lie behind its end,
  if and only if header and table need more than one cluster and the remainder
  (`FatxGeometry.ClustersPassTheEnd`); with 16 KiB clusters they do
  (`FatxGeometry.SixteenKilobytePassTheEnd`).
- With the default stride a fragmented file has an adjacent step if and only if the only two free
  clusters are both wanted and adjacent (`FatAlloc.FragmentedFitSeparates`).
- The two FATX readers differ on directories, and only there (`FatxExtract.ReadersAgree`,
  `FatxExtract.ReadersDifferOnDirectories`).
- The converter copies a cluster whose entry carries the zero flag or has no offset
  (`Qcow2.ZeroFlagIsCopied`). The raw image reads like the virtual disk if and only if every cluster
  that begins before the end of the disk has standard entries, or none, or only zeros to copy
  (`Qcow2.ConvertRefinesGuest`).
- On the disc the names `x` and `x.` of one directory coincide. An extent resolves to itself if and
  only if it is not the dotted one of two such names with different extents
  (`IsoLookup.ExtentResolves`, with a concrete pair in `IsoLookup.TwinIsShadowed`).
- Dependencies all come first if and only if no name in the order lies on a cycle
  (`TczOrder.DependenciesFirstIffAcyclic`); in general a dependency stands behind its dependent only
  if it can reach it (`TczOrder.Resolve`).

## Model

| member | source | states |
|---|---|---|
| FatTable.ChainDistinct | scripts/fatx_stage_boot.py:204-215 | a chain never lists a cluster twice, on any table, cyclic ones included |
| FatTable.ChainIsWalk | scripts/fatx_stage_boot.py:204-215 | on any table a chain starts at its first cluster, follows the entries, and ends only at an end marker, outside the table or at a cluster seen before |
| FatTable.ChainFrame | scripts/fatx_stage_boot.py:204-215 | a chain depends on the entries of its own clusters only |
| FatTable.LinkedAt | scripts/fatx_stage_boot.py:253-255 | linking stores each successor and touches no entry of any other cluster |
| FatTable.ChainOfLinked | scripts/fatx_stage_boot.py:204-215 | the chain of a freshly linked list is the list cut before its first non-head id 0xFFF8 or 0xFFFF, and with fewer than 0xFFF4 clusters nothing is cut |
| FatAlloc.FirstFitIsLeast | scripts/fatx_stage_boot.py:243-251 | first fit takes exactly the count smallest free ids and fails exactly if there are fewer |
| FatAlloc.FirstWindowIsLeast | scripts/fatx_stage_boot.py:259-280 | the contiguous allocator takes the window at the least feasible start and fails exactly if there is no window |
| FatAlloc.SpreadIsTotal | scripts/fatx_stage_boot.py:292-307 | spreading yields exactly count distinct free ids, so the length check behind it never raises |
| FatAlloc.SpreadIsFragmented | scripts/fatx_stage_boot.py:292-304 | with the default stride no chain step goes to the next cluster if three clusters were free or one was asked for |
| FatAlloc.FragmentedUnlessPair | scripts/fatx_stage_boot.py:283-304 | with the default stride some step goes to the next cluster exactly if the only two free clusters are wanted and adjacent |
| FatAlloc.SpreadIsExact | scripts/fatx_stage_boot.py:292-304 | for every step, position i holds the id at position step * i while there is one, then the skipped ids follow, least first and in increasing order |
| FatAlloc.FragmentedFitIsExact | scripts/fatx_stage_boot.py:283-312 | the fragmented allocator makes exactly this choice among the free clusters, with the larger of two and the stride, and fails exactly if too few are free |
| FatAlloc.FragmentedFitSeparates | scripts/fatx_stage_boot.py:283-312 | up to stride two its answer has no step to the next cluster unless the only two free clusters are wanted and adjacent |
| FatAlloc.AllocationIsExact | scripts/fatx_stage_boot.py:434-440 | which clusters each layout takes: the least free ones, the window at the least start, or the exact spread by two |
| FatAlloc.AllocationIsFresh | scripts/fatx_stage_boot.py:434-440 | every layout yields distinct clusters from 2 on that were free |
| FatAlloc.AllocationFails | scripts/fatx_stage_boot.py:243-312 | normal and fragmented allocation fail exactly if fewer clusters are free than needed, contiguous allocation exactly if no window of free clusters is long enough |
| FatDirectory.FreeSlotIsFirst | scripts/fatx_stage_boot.py:315-325 | the chosen slot is the first that holds no entry, a deleted one or the terminator, and there is none exactly if every slot holds an entry |
| FatDirectory.DirectoryBit | scripts/fatx_stage_boot.py:377-378 | a directory is told by bit 4 of the flags alone |
| FatDirectory.AddIsInsert | scripts/fatx_stage_boot.py:348-371 | on a tail-clean directory without duplicates adding a fresh name is map insertion, keeps both properties, and exposes no stale slot |
| FatDirectory.RemoveIsDelete | scripts/fatx_stage_boot.py:227-240 | removing an entry is map deletion and keeps the directory tail-clean and free of duplicates |
| FatDirectory.RemovedLeavesRoom | scripts/fatx_stage_boot.py:315-325 | right after a removal there is a slot for the next entry |
| FatSlot.SlotRoundTrip | scripts/fatx_stage_boot.py:357-365 | length, flags, name, cluster and size stand at their offsets in the packed 64-byte slot, zeros elsewhere, and are read back |
| FatSlot.NameInSlot | scripts/fatx_stage_boot.py:186-189 | the name of any slot, however it was packed, up to the end of the slot and with replacement characters |
| FatSlot.SameKey | scripts/fatx_stage_boot.py:339-345 | two names have one key exactly if they differ in the case of letters only |
| FatxSlots.AddedBytes | scripts/fatx_stage_boot.py:348-371 | adding an entry packs it into the first unused slot, turns a zero marker behind it into 0xFF, and changes no other byte |
| FatxSlots.CreatedBytes | scripts/fatx_stage_boot.py:374-384 | a new directory is the least free cluster, ended and zeroed, with the directory flag and size zero in its entry |
| FatxText.SplitAssembled | scripts/fatx_stage_boot.py:328-336 | parts between runs of slashes and backslashes are split back into exactly these parts, and refused exactly if there is none or one is not 1 to 42 ASCII characters |
| PathText.EveryPathIsAssembled | scripts/fatx_stage_boot.py:328-329 | every text is such an assembly, so splitting is told for all inputs |
| FatxText.SplitName | scripts/fatx_stage_boot.py:328-336 | a valid name, with separators only in front, is a path of one component |
| FatxFs.RemovedInv | scripts/fatx_stage_boot.py:227-240 | freeing the chain of a removed entry keeps the invariant without cross-links |
| FatxFs.ClaimedInv | scripts/fatx_stage_boot.py:253-255 | marking free clusters as used keeps the invariant, and none of them was a directory |
| FatxFs.InsertedInv | scripts/fatx_stage_boot.py:348-371 | entering a file or directory with an unshared chain keeps the invariant |
| FatxSafety.FormattedIsSound | scripts/fatx_stage_boot.py:175-183 | a volume with an empty root directory satisfies the invariant, whatever its table holds |
| FatxSafety.EnsureStep | scripts/fatx_stage_boot.py:374-384 | ensure_directory keeps the invariant and every old entry, and returns the directory of that name |
| FatxSafety.RemoveStep | scripts/fatx_stage_boot.py:227-240 | removing a name keeps the invariant and every other entry with its chain and clusters |
| FatxPaths.WalkUnique | scripts/fatx_stage_boot.py:387-392 | under the invariant a directory is reached by one path only |
| FatxPaths.ResolveStep | scripts/fatx_stage_boot.py:387-392 | resolving a parent path keeps all entries, ends in the directory the path names, and creates directories on that path only |
| FatxPaths.FollowPlain | scripts/fatx_stage_boot.py:395-409 | if no earlier component equals the last, the walk of read_path_file finds exactly the entry that the path names |
| FatxRoundTrip.ReadStored | scripts/fatx_stage_boot.py:411-424 | a stored file reads back as its data if and only if no linked cluster after the first looks like an end marker, else the chain is reported short |
| FatxRoundTrip.StoreInStep | scripts/fatx_stage_boot.py:431-445 | replacing an entry, be it a file or a directory, keeps the invariant, stores the data on success, leaves no entry of the name on failure, and keeps every other entry whose directory is still there with its chain and bytes |
| FatxTheorems.WriteKeepsInvariant | scripts/fatx_stage_boot.py:431-468 | after any write, completed or not, there are no cross-links |
| FatxTheorems.WriteReadsBack | scripts/fatx_stage_boot.py:431-468 | for every layout and whatever the path names, write_path_file succeeds exactly if storing does and the chain is not cut, reading the path then gives the data, and the hash comparison never fails |
| FatxTheorems.WriteKeepsOthers | scripts/fatx_stage_boot.py:431-468 | whatever the path names and however the write ends, a file at another plain path reads bytes exactly if it read them before and is not below the written path; no other file appears |
| FatxRuns.RunKeepsInvariant | scripts/fatx_stage_boot.py:546-601 | every state that a sequence of writes reaches satisfies the invariant |
| FatxRuns.RunReadsBack | scripts/fatx_stage_boot.py:546-601 | after a completed run over independent paths every staged file reads back to its source, whatever the paths named before |
| FatxRuns.RunKeepsOthers | scripts/fatx_stage_boot.py:546-601 | after any run, completed or not, a file that is not staged reads bytes exactly if it read them before and no file that was begun took the place of a directory on the way to it |
| FatxRuns.RunKeepsClusters | scripts/fatx_stage_boot.py:546-601 | a stored file keeps its clusters and their bytes through all later writes, completed or not, to paths that are neither its own nor on the way to it |
| FatxRuns.RunReadsBackIff | scripts/fatx_stage_boot.py:546-601 | a completed run over different plain paths, whatever they name, reads back entirely if and only if no path is a directory on the way to an earlier one |
| FatxRuns.RootFilesIndependent | scripts/fatx_stage_boot.py:575-583 | files in the root directory with different names never get in each other's way |
| FatxStaging.ContiguousSteps | scripts/fatx_stage_boot.py:553-555 | a contiguous allocation steps by one, so the payload check never raises |
| FatxStaging.PayloadIsFlat | scripts/fatx_stage_boot.py:259-280 | after a completed run the image bytes from the reported disk offset are the payload, wherever in the run it was written, if no later path is its own or a directory on the way to it |
| FatxLimits.ReadBackFindsEntryIffPlain | scripts/fatx_stage_boot.py:399-406 | whatever the path named, the read-back ends at the entry just written if and only if no earlier component equals the last |
| FatxLimits.CompletedWrite | scripts/fatx_stage_boot.py:395-468 | once a file is stored, every path that could be read before, repeated components included, gives the new file exactly if it effectively leads to the written path, nothing if it leads below it, and else the same bytes |
| FatxLimits.RaisedWrite | scripts/fatx_stage_boot.py:395-468 | after a write that raised before its file was stored, every path that could be read before is still read exactly if it does not lead below the written path and looks nothing up there |
| FatxLimits.RepeatedNameFails | scripts/fatx_stage_boot.py:399-409 | a path `x/x` is never written successfully, whatever it names |
| FatxLimits.OverwrittenDirectoryIsLost | scripts/fatx_stage_boot.py:431-445 | after writing to the path of a directory no plain path through it can be read |
| FatxSpace.FreedCount | scripts/fatx_stage_boot.py:192-201 | freeing the chain of an entry adds exactly its length to the free clusters |
| FatxSpace.StoreInSpace | scripts/fatx_stage_boot.py:431-445 | the exact result of storing in a directory, in every layout, from the table without the old entry, the slots and the size, and the exact number of free clusters afterwards |
| FatxSpace.OverwriteConserves | scripts/fatx_stage_boot.py:431-445 | overwriting an entry with data that fits its old chain succeeds and changes the free clusters by the difference of the chain lengths |
| FatxOutcome.ResolveExact | scripts/fatx_stage_boot.py:387-392 | the exact result of resolving a parent path: a file in the way, too few clusters, no slot in the deepest existing directory, or the least free ids taken one by one for the missing directories |
| FatxOutcome.StoreForecast | scripts/fatx_stage_boot.py:431-445 | the exact result, clusters included, of everything before the read-back, in every layout, from the volume before the call |
| FatxOutcome.WriteForecast | scripts/fatx_stage_boot.py:431-468 | the exact result of write_path_file on a plain path from the volume before the call, the cut chain included |
| FatxOutcome.ForecastSuffices | scripts/fatx_stage_boot.py:431-445 | outside the contiguous layout storing succeeds exactly if no file is in the way, the deepest existing directory has a slot, the free and given-back clusters cover the missing directories and the file, and the size fits 32 bits |
| FatxOutcome.NeverCut | scripts/fatx_stage_boot.py:204-215 | if neither 0xFFF8 nor 0xFFFF is free or given back no write is cut, in any layout |
| FatxOutcome.WriteSucceedsIff | scripts/fatx_stage_boot.py:431-468 | then, outside the contiguous layout, a write succeeds if and only if slots, clusters and size suffice, and reads back |
| FatxOutcome.FormattedWriteSucceeds | scripts/fatx_stage_boot.py:431-468 | on a formatted volume, wide tables included, a plain path of any depth is written and reads back exactly if the clusters for its directories and data are free and the size fits |
| FatxWitnesses.WideWriteIsCut | scripts/fatx_stage_boot.py:204-215 | a volume of 65536 clusters on which a write of two clusters ends with a short chain |
| FatxWitnesses.FileBelowIsLost | scripts/fatx_stage_boot.py:431-445 | a volume on which a file below a directory reads back and is lost when the directory is overwritten |
| FatxGeometry.OpenedGeometry | scripts/fatx_stage_boot.py:110-139 | when opening succeeds and where the parts lie: header, table rounded up to 4096 bytes, clusters; entry 0 begins behind the header, cluster 1 behind the table, and both follow each other without gaps |
| FatxGeometry.OpenedAligned | scripts/fatx_stage_boot.py:122-139 | the clusters of an opened partition are aligned to sectors |
| FatxGeometry.InOrder | scripts/fatx_stage_boot.py:73-79 | on every geometry entries and clusters are adjacent, from the start of the table and of the clusters on |
| FatxGeometry.ClustersPassTheEnd | scripts/fatx_stage_boot.py:125-138 | the last cluster ends behind the partition exactly if header and table need more than one cluster and the remainder |
| FatxGeometry.SixteenKilobytePassTheEnd | scripts/fatx_stage_boot.py:125-138 | with 16 KiB clusters partition E has 313280 of them and they pass its end |
| FatxGeometry.ClustersDisjoint | scripts/fatx_stage_boot.py:73-76 | different clusters occupy different bytes |
| FatxGeometry.EntryInside | scripts/fatx_stage_boot.py:78-79 | every table entry lies between the header and the first cluster |
| FatxGeometry.EntryWritten | scripts/fatx_stage_boot.py:149-154 | writing a table entry changes that entry, no other and no cluster, and truncates to 16 bits exactly with two-byte entries |
| FatxGeometry.ClusterWritten | scripts/fatx_stage_boot.py:165-168 | writing a cluster changes that cluster, no other and no table entry |
| FatxGeometry.RunIsFlat | scripts/fatx_stage_boot.py:73-76 | the contents of consecutive clusters are one byte range of the image |
| FatxImage.FatxPartition.ReadFatEntry | scripts/fatx_stage_boot.py:142-146 | the value of the entry in the represented table |
| FatxImage.FatxPartition.WriteFatEntry | scripts/fatx_stage_boot.py:149-154 | the represented volume changes in that entry only, and no byte outside table and clusters changes |
| FatxImage.FatxPartition.ReadCluster | scripts/fatx_stage_boot.py:161-162 | the represented cluster, or a range error exactly for ids outside the table |
| FatxImage.FatxPartition.WriteCluster | scripts/fatx_stage_boot.py:165-168 | the represented volume changes in that cluster only, padded with zeros |
| FatxStager.ClusterChain | scripts/fatx_stage_boot.py:204-215 | the loop terminates on every table and returns its chain |
| FatxStager.FreeClusterChain | scripts/fatx_stage_boot.py:192-201 | on an arbitrary table exactly the clusters that cluster_chain would have listed before become free, and no other entry changes |
| FatxStager.AllocateClusters | scripts/fatx_stage_boot.py:243-256 | first fit linked into the table, or an error with the table unchanged |
| FatxStager.AllocateContiguousClusters | scripts/fatx_stage_boot.py:259-280 | the least window linked into the table, or an error with the table unchanged |
| FatxStager.AllocateFragmentedClusters | scripts/fatx_stage_boot.py:283-312 | the exact spread of the free clusters for every stride is linked, or the table is unchanged, exactly if too few are free; up to stride two no step goes to the next cluster unless the only two free clusters are wanted and adjacent |
| FatxFiles.DirectoryEntries | scripts/fatx_stage_boot.py:175-183 | the slots up to and including the first terminator |
| FatxFiles.FindDirectoryEntry | scripts/fatx_stage_boot.py:339-345 | the first entry of the name before the terminator, up to case |
| FatxFiles.RemoveDirectoryEntry | scripts/fatx_stage_boot.py:227-240 | every entry of the name is marked deleted and its chain freed; nothing outside table and clusters changes |
| FatxFiles.FindRootSlot | scripts/fatx_stage_boot.py:315-325 | the slot that FreeSlotIsFirst characterises |
| FatxFiles.AddDirectoryEntry | scripts/fatx_stage_boot.py:348-371 | the packed slot and the terminator behind it are written, or an error with the volume unchanged |
| FatxFiles.EnsureDirectoryEntry | scripts/fatx_stage_boot.py:374-384 | the existing directory, or a new zeroed one, with all four ways to fail |
| FatxFiles.ResolveParentDirectory | scripts/fatx_stage_boot.py:387-392 | the directory of the parent path, creating what is missing |
| FatxFiles.ReadPathFile | scripts/fatx_stage_boot.py:395-424 | the bytes of the named file or the error, for every image |
| FatxFiles.WritePathFile | scripts/fatx_stage_boot.py:431-468 | the volume and result of writing with read-back; sectors and offset are those of the linked clusters; nothing outside table and clusters changes |
| FatxFiles.DescribedSectors | scripts/fatx_stage_boot.py:454-468 | on aligned partitions the reported sectors are the first of the first cluster and the last of the last one; contiguous means consecutive clusters |
| FatxStaging.WrittenIsLaidOut | scripts/fatx_stage_boot.py:431-440 | a successfully written file has increasing, consecutive or separated clusters, as its layout asks; separated unless there are just two |
| FatxCleaning.CleaningKeepsInvariant | scripts/fatx_stage_boot.py:222-224 | removing names from the root directory never raises and keeps the invariant, whatever the names are |
| FatxCleaning.CleanNames | scripts/fatx_stage_boot.py:222-224 | the effect of cleaning on the volume |
| FatxCleaning.RemovedIsGone | scripts/fatx_stage_boot.py:227-240 | after a removal from any directory, well formed or not, the name is not found there and every other lookup is unchanged |
| FatxCleaning.CleanedAreGone | scripts/fatx_stage_boot.py:222-224 | after cleaning exactly the listed names are gone from the root directory |
| FatxConfig.ConfigLines | scripts/fatx_stage_boot.py:565-574 | the configuration consists of the four lines for title, kernel, initial ramdisk and arguments, unless one of them holds a newline |
| FatxConfig.PutIsUpdate | scripts/fatx_stage_boot.py:575-580 | setting a key changes what is found under it and nothing else |
| FatxConfig.PutInOrder | scripts/fatx_stage_boot.py:575-580 | keys keep their order, and a new one comes last |
| FatxConfig.BootFilesAre | scripts/fatx_stage_boot.py:575-580 | what is staged under each path, each path once |
| FatxConfig.BootFilesInOrder | scripts/fatx_stage_boot.py:575-583 | with three different names configuration, kernel and initial ramdisk are written in this order |
| FatxMain.WriteFiles | scripts/fatx_stage_boot.py:582-583 | the volume and result of writing the files in order up to the first that raises or whose path cannot be split |
| FatxMain.Stage | scripts/fatx_stage_boot.py:524-601 | a completed run consists of exactly the payload and the boot files in the chosen order, and a reader of the kernel command line finds the disk offset, size and name of the payload; however it ends, no byte outside table and clusters changes and the invariant is kept |
| FatxMain.StagedReadsBack | scripts/fatx_stage_boot.py:546-601 | after a completed run over different plain paths, boot configuration, kernel, initrd and payload all read back if and only if no path is a directory on the way to an earlier one |
| FatxMain.CommandLineLocatesPayload | scripts/fatx_stage_boot.py:595-601 | read as decimal numbers, offset and size on the kernel command line name an image range that holds the payload, if no boot file is written to its path or on the way to it |
| FatxText.DigitsRoundTrip | scripts/fatx_stage_boot.py:595-600 | a printed number is a decimal without leading zeros that reads from left to right as itself |
| FatxText.PayloadInfoReads | scripts/fatx_stage_boot.py:595-600 | read from the left, the text names the offset, the size and the file |
| FatxExtract.FindRootFile | scripts/extract_fatx_root_file.py:21-29 | cluster and size of the first entry of the stripped, lower-cased name |
| FatxExtract.StripRun | scripts/extract_fatx_root_file.py:22 | stripping drops a run of slashes and backslashes in front of the name and nothing else |
| FatxExtract.Extract | scripts/extract_fatx_root_file.py:32-61 | copying while walking the chain, for every image |
| FatxExtract.CopyIsContent | scripts/extract_fatx_root_file.py:49-61 | what is copied is the prefix of the chain's contents, and what remains is what the chain lacks |
| FatxExtract.ReadersAgree | scripts/extract_fatx_root_file.py:21-61 | for a root-level name that is no directory, with or without separators in front, both readers give the same bytes or the same error, on every image |
| FatxExtract.ReadersDifferOnDirectories | scripts/extract_fatx_root_file.py:21-61 | on a directory they never agree |
| NewcFormat.Align4 | scripts/replace_newc_file.py:14-15 | the least multiple of four from the value on |
| NewcFormat.HexRoundTrip | scripts/replace_newc_file.py:22-27 | a number printed in hex parses to itself, and takes exactly the given digits if and only if it is below 16 to that power |
| NewcFormat.HexIsLower | scripts/replace_newc_file.py:26-27 | headers are printed with the digits 0-9 and a-f |
| NewcFormat.ParseHexAccepts | scripts/replace_newc_file.py:22 | of plain digits exactly the hexadecimal ones are accepted |
| NewcFormat.ParseHexCase | scripts/replace_newc_file.py:22 | the case of a hexadecimal digit does not change the value |
| NewcFormat.Utf8Encodes | scripts/replace_newc_file.py:45 | the bytes of any text are accepted as a name |
| NewcFormat.Utf8Decodes | scripts/replace_newc_file.py:45 | every accepted name is the bytes of some text |
| NewcFormat.HeaderRoundTrip | scripts/replace_newc_file.py:18-27 | a printed header parses to its magic and fields |
| NewcFormat.ParsePrint | scripts/replace_newc_file.py:30-71 | parsing a printed archive gives back its entries |
| NewcFormat.ParsedIsArchive | scripts/replace_newc_file.py:35-52 | whatever is accepted is a list of entries whose headers describe them, with the trailer last if at all |
| NewcRewriter.ReadAt | scripts/replace_newc_file.py:37-52 | one entry read at absolute positions equals one read relative to its aligned start, and the next position is aligned to four |
| NewcRewriter.Emit | scripts/replace_newc_file.py:60-64 | the output grows by exactly the printed entry, padded by absolute position, so its length is a multiple of four |
| NewcRewriter.Replace | scripts/replace_newc_file.py:30-71 | the loop prints the parsed entries with the target exchanged, or raises exactly if parsing fails or the target is missing |
| NewcRewriter.RewriteChangesOnlyTarget | scripts/replace_newc_file.py:54-71 | the output parses to the same entries with only the target's mode, size and data changed |
| NewcRewriter.RewriteTwice | scripts/replace_newc_file.py:30-71 | replacing with a and then with b equals replacing with b |
| NewcBuilder.Buffer.Pad4 | scripts/make_busybox_initramfs.py:1238-1239 | the buffer is padded to a multiple of four |
| NewcBuilder.Buffer.AddEntry | scripts/make_busybox_initramfs.py:1242-1267 | any buffer grows by exactly the printed entry, padded by absolute position |
| NewcBuilder.Build | scripts/make_busybox_initramfs.py:1300-1354 | the printed archive of all members numbered from one, or an error exactly for a name that is not ASCII |
| NewcBuilder.BuiltIsArchive | scripts/make_busybox_initramfs.py:1300-1354 | a built archive is accepted by the parser's format |
| NewcBuilder.BuiltUnpacks | scripts/make_busybox_initramfs.py:1242-1354 | parsing a built archive finds, numbered from one, the directories, the links with their targets, the console with its device numbers, the init, the files with their modes, and the trailer |
| NewcBuilder.ParentsComeFirst | scripts/make_busybox_initramfs.py:1304-1350 | no fixed member comes before the directory it lies in |
| NewcBuilder.ReplaceCommutesWithBuild | scripts/replace_newc_file.py:30-71 | replacing `init` in a built archive equals building with the other `init`, byte for byte |
| Qcow2.HeaderRoundTrip | scripts/qcow2_to_raw_sparse.py:33-83 | every header without backing file, encryption and incompatible features is read back field by field |
| Qcow2.HeaderRefused | scripts/qcow2_to_raw_sparse.py:34-66 | exactly which headers are refused |
| Qcow2.EntryBits | scripts/qcow2_to_raw_sparse.py:21-22 | of the eight top bits, 47 offset bits and nine low bits of an entry only the offset is followed, and bit 6 of the top refuses |
| Qcow2.EntryParts | scripts/qcow2_to_raw_sparse.py:21-22 | every 64-bit entry has this layout |
| Qcow2.ConvertCluster | scripts/qcow2_to_raw_sparse.py:146-167 | one mapped cluster is converted, cut off at the end of the disk, without reaching any other; it fails exactly if compressed or unreadable |
| Qcow2.ConvertTable | scripts/qcow2_to_raw_sparse.py:136-167 | one second-level table is converted, and fails exactly if it or a cluster of it is unusable |
| Qcow2.Convert | scripts/qcow2_to_raw_sparse.py:125-167 | conversion succeeds on exactly the convertible images, and the result has the virtual size with every byte mapped or zero |
| Qcow2.IndexInjective | scripts/qcow2_to_raw_sparse.py:154-155 | a guest cluster number determines both table indices, so none is visited twice |
| Qcow2.ClusterAgrees | scripts/qcow2_to_raw_sparse.py:146-167 | a cluster reads the same in the raw image and in the guest if and only if its entries are standard, or it has none, or its source data is all zero |
| Qcow2.ConvertRefinesGuest | scripts/qcow2_to_raw_sparse.py:125-167 | the raw image reads like the virtual disk everywhere if and only if this holds for every cluster that begins before the end of the disk |
| Qcow2.ZeroFlagIsCopied | scripts/qcow2_to_raw_sparse.py:146-167 | an image with a zero-flag entry on which the converter and the guest differ |
| Qcow2.FlagsAreIgnored | scripts/qcow2_to_raw_sparse.py:136-167 | an image whose entries carry any top bits, the copied flag included, is converted to the byte that the guest reads, unless one has the compression bit |
| TczNames.NormalizeIdempotent | scripts/download_tinycore_tcz.py:32-38 | normalising a normalised name changes nothing |
| TczNames.NormalizeKeepsName | scripts/download_tinycore_tcz.py:32-38 | normalising keeps the name up to surrounding blanks and the suffix, and refuses exactly blank names |
| TczNames.Dependencies | scripts/download_tinycore_tcz.py:41-52 | every dependency that is listed is a normalised name, so the traversal never raises on one |
| TczNames.DependenciesListed | scripts/download_tinycore_tcz.py:41-52 | a file made of lines lists exactly the trimmed, suffixed names of the lines that are not blank and no comments, in order |
| TczNames.EveryTextIsMade | scripts/download_tinycore_tcz.py:48 | every text is made of such lines |
| TczOrder.Resolver.Visit | scripts/download_tinycore_tcz.py:78-86 | a visit terminates on cyclic graphs, only extends the order, finishes everything it opened, and visits only what the name reaches |
| TczOrder.Resolver.Finish | scripts/download_tinycore_tcz.py:86 | a finished name joins the order behind its dependencies or those that reach it |
| TczOrder.Resolve | scripts/download_tinycore_tcz.py:73-90 | the order has no repetitions, is exactly what the seeds reach, and has each dependency before its dependent unless it can reach that dependent; it raises exactly for a blank seed |
| TczOrder.AcyclicLoadsDependenciesFirst | scripts/download_tinycore_tcz.py:73-90 | without cycles every dependency comes before what needs it |
| TczOrder.DependenciesFirstIffAcyclic | scripts/download_tinycore_tcz.py:73-90 | all dependencies come first if and only if no name in the order lies on a cycle |
| IsoNames.FileNameInjective | scripts/add_iso9660_overlay.py:85-89 | two canonical names have the same file identifier exactly if they are equal or differ by the trailing dot of an otherwise dotless name |
| IsoNames.DirNameInjective | scripts/add_iso9660_overlay.py:135 | different canonical names have different directory identifiers |
| IsoNames.IdentifiersSpell | scripts/add_iso9660_overlay.py:85-89 | no byte of an identifier is a lower-case letter, and in lower case it is the directory name, or the dotted file name with version 1 |
| IsoNames.Sort | scripts/add_iso9660_overlay.py:97-99 | the elements of a set, each once, in the order of their keys |
| IsoNames.LessIsLexicographic | scripts/add_iso9660_overlay.py:97-99 | the order is by the first character that differs, and a prefix comes first |
| IsoNames.ParentFirst | scripts/add_iso9660_overlay.py:149-150 | by path text a directory sorts strictly before everything below it |
| IsoNames.ParsedIsCanonical | scripts/add_iso9660_overlay.py:78-82 | the components of any printable extent name are canonical |
| IsoNames.ParsedAssembled | scripts/add_iso9660_overlay.py:81 | a name given with any separators and letter case is parsed to its parts in lower case |
| IsoNames.PartsOfJoin | scripts/add_iso9660_overlay.py:125 | a canonical path is recovered from its text |
| IsoRecords.DirectoryRecord | scripts/add_iso9660_overlay.py:29-45 | the filled buffer is the record of section 9.1 of ECMA-119, field by field, with its padding |
| IsoRecords.RecordRoundTrip | scripts/add_iso9660_overlay.py:29-45 | a written record reads back, with both byte orders agreeing and the next record right behind it |
| IsoRecords.SectorRoundTrip | scripts/add_iso9660_overlay.py:102-109 | a sector of records followed by zeros reads back as exactly these records |
| IsoRecords.TableRoundTrip | scripts/add_iso9660_overlay.py:48-75 | a path table in either byte order reads back as its entries |
| IsoTree.CollectDirectories | scripts/add_iso9660_overlay.py:122-146 | the first pass creates exactly the proper prefixes of the keys, each with exactly its subdirectories and files |
| IsoTree.BuildDirectoryTree | scripts/add_iso9660_overlay.py:112-160 | both passes: the root first, sectors by position, and parents named by number and by sector, each earlier than its children |
| IsoSectors.BuildDirectorySector | scripts/add_iso9660_overlay.py:92-109 | the sector reads back as itself, parent, subdirectories, files in order, all named in upper case, with zeros behind them; it fails exactly if a record cannot be encoded or they do not fit |
| IsoSectors.DescribesUnique | scripts/add_iso9660_overlay.py:97-100 | there is exactly one order of records for a directory |
| IsoSectors.PathTable | scripts/add_iso9660_overlay.py:48-75 | both tables hold the directories in order, and it raises exactly if an entry does not fit its fields |
| IsoSectors.BuildPvd | scripts/add_iso9660_overlay.py:163-182 | every field of the descriptor is at its place (section 8.4 of ECMA-119) with zeros elsewhere, and it raises exactly if a number does not fit |
| IsoSectors.BuildTerminator | scripts/add_iso9660_overlay.py:185-190 | type 255, the identifier CD001, version 1 and zeros (section 8.3 of ECMA-119) |
| IsoOverlay.Image.WriteAt | scripts/add_iso9660_overlay.py:225-226 | the image after seeking and writing, grown with zeros if needed |
| IsoOverlay.Overlay | scripts/add_iso9660_overlay.py:203-229 | the writes that a run carries out on the image: all of the plan exactly if nothing is impossible, else nothing or everything before the first directory that cannot be written |
| IsoOverlay.SectorsHold | scripts/add_iso9660_overlay.py:218-229 | if no sector is written twice, each holds what was written |
| IsoOverlay.OthersKept | scripts/add_iso9660_overlay.py:218-229 | every range that no written sector touches keeps its bytes |
| IsoOverlay.DefaultSectorsDistinct | scripts/add_iso9660_overlay.py:196-199 | with the default sectors none is written twice, whatever the tree |
| IsoLookup.FindFile | scripts/add_iso9660_overlay.py:97-100 | in a directory a file identifier finds the extent of the name, or of the dotless name of the same identifier |
| IsoLookup.WalkIsExact | scripts/add_iso9660_overlay.py:92-160 | from any directory a path leads to the expected extent and to nothing else |
| IsoLookup.ViewIsExact | scripts/add_iso9660_overlay.py:203-229 | walking the bytes from the descriptor by the upper-case identifiers of a path finds exactly the given extent or nothing |
| IsoLookup.SpellingOf | scripts/add_iso9660_overlay.py:85-89 | every path has exactly one list of upper-case identifiers |
| IsoLookup.ExtentResolves | scripts/add_iso9660_overlay.py:203-229 | an extent resolves to its sector and size if and only if it is not shadowed by its dotless twin |
| IsoLookup.TwinIsShadowed | scripts/add_iso9660_overlay.py:85-89 | two extents `x` and `x.` of which the second leads to the sector of the first |
| IsoLookup.FileBytesKept | scripts/add_iso9660_overlay.py:218-229 | the bytes of an extent that the overlay does not touch are still there |
| IsoLookup.ParentRecords | scripts/add_iso9660_overlay.py:93-96 | the first two records of each directory name its own sector and that of its true parent |
| IsoLookup.PathTableRead | scripts/add_iso9660_overlay.py:211-223 | both path tables, found through the descriptor, read back as the list of directories |
| IsoLookup.ParentNumbers | scripts/add_iso9660_overlay.py:154-159 | the parent number of each entry names the true parent, which comes earlier, and its name spells the directory in upper case |

## Left out

- FatxImage.FatxPartition.constructor: requires the image to reach to the end of the last cluster; short reads on a truncated image are not modelled.
- FatxFiles.WritePathFile: hashes are modelled as comparing the bytes, and the hash fields of the result are left out.
- FatxMain.Stage: printing, the manifest, the root listing, the argument parser and the refusal of .qcow2 names are left out; files to stage are byte parameters, and after an error nothing is said of the volume but that the invariant holds.
- NewcFormat.ParseHeader: accepts hexadecimal digits only; Python's `int` also takes signs, underscores, blanks and a `0x` prefix.
- NewcBuilder.Build: gzip and reading the source tree are left out; numbers of 2^32 and more, which widen a header, are excluded where archives are parsed again.
- TczOrder.Resolve: fetching, MD5 checks, HTTP errors and Python's recursion limit are left out; the dependency files are a finite map.
- Qcow2.Convert: the header fields that the copy does not use, the counters and the sparse marking are left out; failed conversions leave no image in the model.
- IsoTree.BuildDirectoryTree: keys are lists of canonical components, directories are values in a map by path instead of shared dictionaries; names outside printable ASCII, and keys with empty components, are not modelled.
- IsoNames.ParsedIsCanonical: covers the name of an extent argument; the numbers behind it are parameters.
- IsoOverlay.Overlay: negative sector arguments are left out.
- The order of records and path tables that ECMA-119 prescribes (sections 6.9.1 and 9.3): the code sorts by full lower-case path and puts directories before files.
- Multi-cluster FATX directories, qcow2 backing files, compression and snapshots: the code does not support them.
- Shell and PowerShell packaging, emulator launchers, the embedded init scripts, the other cpio encoders, `make_cromwell_iso.py`, the frame classifier and the window capture tool.

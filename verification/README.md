# Verified algorithms of 4.2BSD programs

Dafny models of the algorithms inside several programs of 4.2BSD, and proofs of what they are
for. Each module follows one program, or one part of it, in the form the program has: state
that the C code updates in place is a class or an array here, and each method is proved against
a description of what it is to achieve. Nothing was executed.

`dafny verify dfyconfig.toml` checks everything.

| modules | program | subject |
|---|---|---|
| `SymbolTable`, `QuadraticProbe` | bin/ld.c | the hash table with quadratic rehash, and undoing |
| `LinkPassOne`, `LinkArchive`, `LinkMiddle`, `LinkPassTwo`, `LinkRelocate`, `Linking`, `LinkHistory`, `LinkContents` | bin/ld.c | both passes over objects and libraries, and what the relocated words mean |
| `Rotor`, `LineStore`, `LineEdit` | bin/ed.c | the encryption machine, the temporary file, surgery on the lines |
| `Regex`, `RegexText` | bin/grep.c | what patterns say, compiling and matching them |
| `Tftp`, `TftpLoss` | etc/tftpd.c | sender against receiver over an unreliable network |
| `ResourceMap`, `SwapMap` | etc/pstat.c, bin/ps.c, etc/analyze.c | the allocator of swap space, and where a process lies in it |
| `CylinderGroup`, `FileSystem` | etc/mkfs.c, etc/mkproto.c, etc/icheck.c | free maps of a file system and their counters |
| `RtDirectory` | etc/arff.c | floppies: sector interleave and directory segments |
| `RecordConv` | bin/dd.c | lines and fixed records, and output in blocks |
| `AccountTable` | etc/sa.c | the table of command names, and the merged report |
| `Canfield`, `CanfieldRun` | games/canfield.c | the rules and accounts of the card game |
| `Factor`, `Sieve`, `Numbers` | games/factor.c, games/primes.c | prime numbers |

## What the code does not do

Where the code falls short of what it is meant to do, the model keeps the code as it is, and a
lemma or an `ensures` clause says exactly when it goes wrong.

- bin/ld.c: backing out a library member does not undo the growth of a common
  (`LinkArchive.BackedOutUnchanged`, `LinkArchive.GrownByUseless`). `symfree` of a null pointer
  leaves `nextsym` pointing to a symbol that is gone; the next objects are then not undone, or
  keep freed names, or ld gives up (`LinkPassOne.FineUnlessStale`, `Linking.Link`; inputs in
  `LinkPassOne.TwoUselessMembers` and `Linking.UselessFirst`). A file without symbols, but with
  bss, is counted in pass 2 only, so that later bss symbols are reported as multiply defined and
  references do not lead to them (`Linking.FalselyReported`, `Linking.OutputResolves`; input in
  `Linking.Misled`).
- etc/tftpd.c: a receiver that gives up acknowledges a block that it has not got, and the
  sender may take that for success (`Tftp.SenderFinished`; input in `Tftp.SenderMisled`). A
  short write ends it as if the file were complete (`Tftp.ReceiverFinishedHasFile`). The block
  number in a packet is a signed short: block 32768 comes back negative and is never
  recognised, so that longer files always time out (`Tftp.TransferExactly`; input in
  `Tftp.TooLongFile`). What is read over a packet is written by the next timeout
  (`TftpLoss.LossMadeGood`, `TftpLoss.HeaderReadOver`), and the last acknowledgement is never
  written again (`TftpLoss.LastAcknowledgementLost`).
- etc/pstat.c: `rmfree` merges on the left before it notices an overlap on the right
  (`ResourceMap.BadCallDamage`; input in `ResourceMap.BadCallDoesDamage`). Space at an
  address that is not a multiple of the click size is taken, but 0 is answered
  (`ResourceMap.Map.Allocate`; input in `ResourceMap.MisalignedIsLost`).
- etc/analyze.c: `vstodb` counts back from the size asked for (`SwapMap.AnalyzeRight`; input
  in `SwapMap.AnalyzeWrong`).
- bin/ed.c: `gdelete` does not set the current line when one line is marked
  (`LineEdit.Buffer.Gdelete`; input in `LineEdit.OneMarkDiffers`). `rdelete` of the last line of
  a full array reads an entry beyond it, of which nothing remains (`LineEdit.Buffer.Rdelete`).
- bin/grep.c: an open class that ends in a hyphen is read past the end of the pattern
  (`Regex.ReadPastEndExactly`; input in `Regex.OpenRange`). A pattern that is too long may be
  refused only after one byte has been put behind the code buffer
  (`Regex.WrittenPastEndExactly`; input in `Regex.PeriodAndPlain`).
- etc/arff.c: a directory segment has room for 72 entries, the end mark among them, but it only
  counts as full with 73. With 71 entries and the end mark a new file in part of a gap writes
  behind the segment, into the head of the next one (`RtDirectory.OverrunsExactly`,
  `RtDirectory.Segment.Run`).
- games/canfield.c: a column moved onto an empty one leaves `bottom` wrong
  (`Canfield.Game.TabToTab`, `Canfield.Game.Turn`; input in `CanfieldRun.ComesOntoEmpty`).

## Model

| member | source | states |
|---|---|---|
| `LinkPassOne.Linker.Load1` | bin/ld.c:755-847 | One object in pass 1, library member or not, comes to exactly the state `LoadOne` describes: used if it has symbols and, as a member, defines something wanted; else cut back, which a stale `nextsym` spoils; if nothing is spoilt all that pass 1 keeps is kept. |
| `LinkPassOne.Linker.EnterOrMerge` | bin/ld.c:807-821 | One external symbol meets the table: new entry, size of a common raised, kept, or turned into a definition, as `Merge` says; what that decides over any sequence of objects is in the rows of `LinkHistory`. |
| `LinkPassOne.Linker.SymFree` | bin/ld.c:1693-1717 | The table is cut back to where the pointer points; a null pointer empties it and stays behind; a pointer beyond the table empties it and ld gives up. |
| `LinkPassOne.FineUnlessStale` | bin/ld.c:823-846 | Loading or backing out an object goes right if and only if it has no symbols or `nextsym` points past the last symbol. |
| `LinkPassOne.LoadOneKeeps` | bin/ld.c:755-847 | As long as it goes right, every object of any kind keeps all that pass 1 relies on. |
| `LinkPassOne.TwoUselessMembers` | bin/ld.c:687-700 | Two useless members first in a link: the second stays in the table with a freed name, or ld gives up. |
| `LinkPassOne.AcceptKeeps` | bin/ld.c:792-839 | An accepted object keeps the pass-1 invariant, whatever it defines, refers to or asks for as common storage. |
| `LinkPassOne.RejectKeeps` | bin/ld.c:840-846 | So does a library member that is backed out: definitions are untouched and no name of a loaded object is lost. |
| `LinkPassOne.DefinedOnce` | bin/ld.c:792-826 | After any pass 1, a name with one definition and no common request has exactly that definition's offset in its segment. |
| `LinkArchive.BackedOutUnchanged` | bin/ld.c:812-846 | In the entries themselves: cutting back restores the table if and only if the member asked for no larger common than the table had. |
| `LinkArchive.BackingOutRestores` | bin/ld.c:840-846 | With `nextsym` as it may be: backing out a useless member restores the table if and only if `nextsym` was not stale and no larger common was asked for; it becomes stale exactly when the first symbols of a link go. |
| `LinkArchive.GrownByUseless` | bin/ld.c:812-815 | A common of 4 bytes that becomes one of 8 through a member that is not loaded. |
| `LinkArchive.Ldrand` | bin/ld.c:730-750 | A pass over the table of contents reports a change exactly when the table has grown; if not, every entry of the table of contents is settled. |
| `LinkArchive.SearchLibrary` | bin/ld.c:651-658 | The loop over `ldrand` ends, for any archive; with a truthful table of contents nothing is then wanted that a listed member defines. |
| `LinkArchive.SearchedOnce` | bin/ld.c:651-658 | A library is searched in one way only: passes as long as they bring symbols, and one more. |
| `LinkArchive.StepSettles` | bin/ld.c:687-700 | Trying a member leaves nothing wanted that it defines, and without a new entry nothing becomes wanted. |
| `LinkMiddle.Middle` | bin/ld.c:849-960 | Commons get storage exactly when `-d` asks for it or relocation need not be kept, the data begin at a page exactly for `-n`, or for demand paging when nothing is missing, and every entry is moved by the origin of its segment. |
| `LinkMiddle.MiddleIsRight` | bin/ld.c:866-958 | The data begin at the least multiple of the page size for `-n`, or for demand paging when relocation is not kept and nothing is missing, else of 4; every definition moves with its segment; commons follow one another at the least place that their size allows, and the bss at the least multiple of 4; ld's own names become the ends of the segments; without `-d`, when relocation is kept, nothing undefined changes. |
| `LinkMiddle.CommonsApart` | bin/ld.c:895-910 | Storage given to commons is aligned to their size class, disjoint for any two, and within the total reserved. |
| `LinkMiddle.CommonAddresses` | bin/ld.c:920-958 | In the finished table any two commons lie in order, apart, and between the data and the bss. |
| `LinkMiddle.EndSymbols` | bin/ld.c:892-894 | `_etext`, `_edata` and `_end`, where only referred to, become the addresses of the ends of the three segments. |
| `LinkPassTwo.PlacementInjective` | bin/ld.c:917-924 | No two bytes of the program get the same address, and none lies in the common storage. |
| `LinkPassTwo.MiddleLeavesRoom` | bin/ld.c:888-924 | The origins computed between the passes leave room for all text, data and commons of pass 1. |
| `LinkPassTwo.PassesAgree` | bin/ld.c:1151-1170 | Every entry that pass 1 had defined ends with the very address that pass 2 works out for one of the definitions of that name. |
| `LinkPassTwo.DefinedOnceAddress` | bin/ld.c:1212-1215 | For a name defined once and never common, the table and pass 2 agree on the address of that definition. |
| `LinkPassTwo.DefinedOncePlace` | bin/ld.c:917-958 | Such a name denotes, in the output, the place to which the byte it named in its object has been moved. |
| `LinkPassTwo.DuplicateReported` | bin/ld.c:1212-1215 | Of two definitions of a name at different places at least one is reported as multiply defined. |
| `LinkPassTwo.StoreLong` | bin/ld.c:1406-1408 | A long that is stored is read back, and no other byte, nor any long apart from it, changes. |
| `LinkPassTwo.PatchedSites` | bin/ld.c:1310-1419 | With relocation sites apart, each word grows by its own amount modulo the word size, and every byte outside the sites is as it was. |
| `LinkRelocate.SearchFinds` | bin/ld.c:1339-1351 | The hash table of symbol numbers leads each undefined external of the object to its table entry, and every other number to the end of a chain. |
| `LinkRelocate.RelocateSegment` | bin/ld.c:1288-1425 | One segment is patched in place for all relocations in order; it fails exactly when some relocation has no meaning. |
| `LinkRelocate.PassTwo.Load2` | bin/ld.c:1104-1234 | One object in pass 2: its code relocated by the displacements in force, its complaints exactly the symbols whose address differs from the table's, and the origins advanced past it. |
| `LinkRelocate.LocalReferenceMoves` | bin/ld.c:1359-1389 | A word that refers to a place of its own object, absolutely or relative to its own site, refers after linking to where that place was moved. |
| `LinkRelocate.WordThroughTable` | bin/ld.c:1352-1389 | A word that refers to an external name refers, after linking, to the address the table has for it. |
| `LinkRelocate.ExternalReferenceResolves` | bin/ld.c:1310-1409 | Linking preserves meaning: a word that refers to a name defined once (plus an offset) refers in the output to where that definition's byte was loaded (plus the offset). |
| `Linking.PassesMoveAlike` | bin/ld.c:1112-1233 | For every object pass 2 moves text and data as pass 1 counted; bss is off by exactly the bss of earlier files without symbols, which pass 1 does not count. |
| `Linking.FalselyReported` | bin/ld.c:766-770 | A symbol with one definition is reported as multiply defined if and only if it is in the bss and a file without symbols, but with bss, came before. |
| `Linking.Load1Arg` | bin/ld.c:592-679 | Any argument, a file, a library with or without contents table, or a name: the state comes to what the argument says, what pass 2 will load for it is the file or the members just loaded, and the symbol table is spoilt exactly as the argument predicts. |
| `Linking.OneTrace` | bin/ld.c:342-480 | The arguments determine every state of pass 1. |
| `Linking.MemberLoaded` | bin/ld.c:620-626 | Of a library without contents table exactly those members are loaded that define something wanted when their turn comes. |
| `Linking.ObjectMood` | bin/ld.c:755-847 | Whether `nextsym` is stale, and whether something is spoilt, follows from the objects alone. |
| `Linking.UselessFirst` | bin/ld.c:612-626 | Useless members first in a link spoil it, by themselves or followed by another; after an object, or before a name after `-u`, they do not. |
| `Linking.Link` | bin/ld.c:327-588 | A whole link of any arguments: the objects are those the arguments say, in order; the symbol table is not spoilt if and only if the arguments are sound; it succeeds if and only if every relocation has a meaning, and then every object is written with its relocations done by the finished table, and the complaints are exactly those about definitions that the table has elsewhere. |
| `Linking.OutputResolves` | bin/ld.c:1310-1409 | In the output of a whole link, text and data, a word that referred to a name defined once refers to where pass 2 loads that definition, if and only if it is not in the bss or the bss before it in files without symbols comes to 0 modulo 2^32, the range of a word. |
| `Linking.OutputMoves` | bin/ld.c:1359-1389 | In the output a word that referred to its own object refers to where that place is loaded. |
| `Linking.OutputUntouched` | bin/ld.c:1310-1419 | Bytes outside the relocation sites come out as they went in. |
| `Linking.PlaceInBoth` | bin/ld.c:1112-1233 | Pass 2 loads a place where pass 1 has counted it, or, in the bss, that much further on. |
| `Linking.Misled` | bin/ld.c:766-768 | Three files for which a reference does not lead to its definition, which is also reported as multiply defined. |
| `LinkHistory.HistoryDecides` | bin/ld.c:792-847 | Over any sequence of objects and names: for every name, the entry is the first definition said of it that is not in the text, or in the text before any common was asked for; if there is none it is a common of the largest size asked for; the objects loaded are the files with symbols and the members with such a definition for a name known before. |
| `LinkHistory.DecidingDefinition` | bin/ld.c:810-821 | The definition that decides takes the entry, whatever is said before and after it. |
| `LinkHistory.CommonOverridden` | bin/ld.c:810-823 | A library member that defines a common in the data, the bss or absolutely is loaded and its definition takes the entry; one that defines it in the text does neither. |
| `LinkHistory.LinkDecides` | bin/ld.c:592-679 | For pass 1 of any link there is an account of what the arguments came to, in order, by which the objects were loaded and every entry decided. |
| `LinkHistory.LinkMiddled` | bin/ld.c:849-960 | The finished table and the origins of a whole link are those that its table of pass 1 calls for. |
| `LinkContents.NothingMoreToLoad` | bin/ld.c:730-750 | When a library has been searched, no member listed for a name that is still undefined, or common, would add a definition. |
| `LinkContents.OwnDefinition` | bin/ld.c:807-821 | An object defines something of its own exactly when one of its definitions decides a name that it mentions before. |
| `QuadraticProbe.DistinctModTwiceP` | bin/ld.c:85-94 | For any odd prime p, the first p probes h + k*k fall on different buckets of 2p. |
| `QuadraticProbe.DistinctModP` | etc/sa.c:1066-1071 | For any prime p, the first (p+1)/2 probes h + k*k fall on different slots of p. |
| `QuadraticProbe.PIsPrime` | bin/ld.c:60 | The table size used by both programs is prime. |
| `SymbolTable.ProbeIsQuadratic` | bin/ld.c:1665-1684 | The incremental probe, with its wrap-around, is h + k*k modulo the number of buckets. |
| `SymbolTable.NotExhausted` | bin/ld.c:85-94 | The stated guarantee: only in a full segment can NSYM probes all meet other names. |
| `SymbolTable.NotDefined` | bin/ld.c:1660-1684 | An empty bucket on the way, or NSYM other names, prove that the name is not in the segment, after any sequence of entries and removals. |
| `SymbolTable.Table.Lookup` | bin/ld.c:1644-1691 | `lookup` finds a name if and only if it is in the table, else gives the bucket where it belongs; "hash table botch" comes only from a full segment, overflow only when all are full. |
| `SymbolTable.Table.Enter` | bin/ld.c:1730-1750 | `enter` adds exactly one symbol, in that bucket, or points at the one found, and keeps every symbol findable. |
| `SymbolTable.Table.SymFree` | bin/ld.c:1693-1717 | `symfree` removes exactly the symbols entered since; with a null pointer, or one beyond the table, it empties the table, in the second case ld gives up, and `nextsym` is right afterwards if and only if the pointer was met or nothing had been entered. |
| `SymbolTable.ShortenExtended` | bin/ld.c:1705-1712 | Removing the symbol just entered restores the segment, buckets included. |
| `SymbolTable.CutBackRestores` | bin/ld.c:1693-1717 | Cutting back to where a table ended restores it exactly, over any number of entries in between. |
| `SymbolTable.TryMember` | bin/ld.c:782-846 | A useless library member, all of whose names are entered and undone, leaves the table exactly as it was if and only if `nextsym` pointed past the last symbol; else ld gives up or the first symbols stay. |
| `SymbolTable.Undone` | bin/ld.c:1693-1717 | Growing and cutting back ends where it began if and only if the pointer pointed past the last symbol. |
| `Rotor.BuildTables` | bin/ed.c:1690-1751 | For every random stream `crinit` ends, never divides by zero, and leaves the permutation that the draws make by exchanges, its inverse, and a pairing without fixed points. |
| `Rotor.EveryWheel` | bin/ed.c:1732-1740 | Every permutation can come out as the first wheel. |
| `Rotor.FindPartner` | bin/ed.c:1743-1744 | The search for a free partner always ends, at the first free index from the draw on, going round. |
| `Rotor.CryptBlock` | bin/ed.c:1630-1657 | `crblock` in place on a buffer is the byte-wise machine with rotor positions given by the offset, which the incremental counters keep. |
| `Rotor.CryptedTwice` | bin/ed.c:1630-1657 | Encrypting twice at the same offset gives the buffer back. |
| `Rotor.CryptedNowhereEqual` | bin/ed.c:1630-1657 | No byte is ever encrypted to itself. |
| `Rotor.CryptedMeaning` | bin/ed.c:1630-1657 | A byte becomes another if and only if both, behind the first wheel, turned by one every byte, and the second, turned by one every 256, are partners. |
| `Rotor.CryptedSplit` | bin/ed.c:1630-1657 | Splitting a buffer at any point gives the same result. |
| `LineStore.Store.GetBlock` | bin/ed.c:897-944 | The two-block cache: reading changes no block of the file; a write request keeps every other block, and its own unless it is in neither buffer; it fails exactly beyond 255 blocks or where the file has no such block. |
| `LineStore.Store.PutLine` | bin/ed.c:868-894 | A line is stored under a new handle and every earlier handle still reads back its text; it fails exactly at the block limit, and then nothing is lost. |
| `LineStore.Store.GetLine` | bin/ed.c:851-866 | Any handle ever given out, marked or not, reads back the text stored under it. |
| `LineStore.Store.AllStillHeld` | bin/ed.c:868-894 | Lines stay as long as no byte below the next free handle changes. |
| `LineStore.LineAdded` | bin/ed.c:868-894 | A new line lies behind all earlier ones, so handles and bytes are never shared. |
| `LineStore.HandlePlace` | bin/ed.c:904-905 | Block number and offset of a handle make up its address in the file, and its mark bit plays no part. |
| `LineStore.UnitsSuffice` | bin/ed.c:891-893 | The next handle leaves room for the bytes stored, and stays even. |
| `LineEdit.Buffer.Reverse` | bin/ed.c:1228-1240 | The entries between two bounds are reversed in place, and no other entry changes. |
| `LineEdit.Buffer.Move` | bin/ed.c:1185-1226 | `move` puts exactly the addressed lines behind the target, refuses a target among them, clears their marks and makes the last of them current. |
| `LineEdit.MovedPlaces` | bin/ed.c:1210-1224 | The moved lines are together and in order at their new place, and the others keep their order. |
| `LineEdit.MovedSame` | bin/ed.c:1210-1224 | No line is lost or doubled by a move. |
| `LineEdit.MovedFollows` | bin/ed.c:1210-1224 | The line before the moved ones is the one they were to follow. |
| `LineEdit.MovedBack` | bin/ed.c:1210-1224 | Moving the lines back restores the order. |
| `LineEdit.Buffer.Rdelete` | bin/ed.c:810-827 | Exactly the addressed lines go, and the line after them, or the last one, becomes current; an entry beyond the array is read exactly when the last line of a full array goes. |
| `LineEdit.Buffer.Gdelete` | bin/ed.c:829-848 | In one pass exactly the marked lines go, in order; the current line is that of deleting one by one unless just one line is marked, when it is left alone. |
| `LineEdit.Buffer.DeleteOneByOne` | bin/ed.c:1013-1027 | The loop that `gdelete` replaces ends with the same lines. |
| `LineEdit.DeleteFirst` | bin/ed.c:1013-1027 | Deleting the first marked line leaves the same lines to keep and leads to the same current line. |
| `LineEdit.OneMarkDiffers` | bin/ed.c:829-848 | Three lines of which one is marked, for which the current line is not that of deleting one by one. |
| `Tftp.StepKeeps` | etc/tftpd.c:212-310 | Every step of either side or of the network (loss, repetition, reordering, timeouts, resending of an overwritten buffer, failures of files and network at any time, short writes) keeps the protocol invariant, for files of any length. |
| `Tftp.FileIsPrefix` | etc/tftpd.c:268-310 | In every run, for a file of any length, the receiver's file is a prefix of the sender's. |
| `Tftp.ReceiverFinishedHasFile` | etc/tftpd.c:268-310 | A receiver that ends as at the end of a file has the whole file if and only if no write to the file was short. |
| `Tftp.SenderFinished` | etc/tftpd.c:224-263 | When the sender ends normally the receiver's file is complete if and only if the receiver ended with all its writes whole, or gave up before an empty last block; otherwise the last block is missing, or the end of it. |
| `Tftp.CutShortExactly` | etc/tftpd.c:299-304 | A receiver that has ended with a short write can be told from the steps of the run. |
| `Tftp.SenderMisled` | etc/tftpd.c:296-309 | A run in which the sender ends normally and the receiver has nothing: a receiver that gives up acknowledges the block it was waiting for. |
| `Tftp.TransferCompletes` | etc/tftpd.c:224-310 | For every file of fewer than 32768 blocks there is a run that ends normally on both sides with the whole file transferred. |
| `Tftp.TransferExactly` | etc/tftpd.c:224-310 | There is a run that ends normally on both sides with the whole file if and only if the file has fewer than 32768 blocks. |
| `TftpLoss.LossMadeGood` | etc/tftpd.c:212-310 | When all packets on their way are lost, the timeout on the side whose packet was lost leads to a transfer of the whole file if and only if that side has a further timeout left and has read nothing over its packet. |
| `TftpLoss.LastAcknowledgementLost` | etc/tftpd.c:305-309 | If the last acknowledgement is lost the sender never ends normally, although the file is complete. |
| `TftpLoss.HeaderReadOver` | etc/tftpd.c:238-258 | After the sender has read something else than it waits for, a timeout writes that header, its bytes swapped on a little-endian machine, before the data of the block. |
| `TftpLoss.FailureTold` | etc/tftpd.c:230-237 | A side that cannot read or write its file tells the other, which gives up when it reads that. |
| `Tftp.TooLong` | etc/tftpd.c:258-298 | With 32768 blocks or more no run ends normally on either side, and the receiver never has more than the first 32767 blocks. |
| `Tftp.TooLongFile` | include/arpa/tftp.h:17-22 | So with a file of 16776704 bytes, whatever happens. |
| `ResourceMap.Map.Allocate` | etc/pstat.c:783-836 | `rmalloc` takes the first piece that fits, changes nothing if none does, and answers 0 otherwise only for space that is not click-aligned. |
| `ResourceMap.Map.Free` | etc/pstat.c:844-944 | `rmfree` rejects a range exactly when it is not positive or already partly free; else the map is coalesced, ended by zeros, and on overflow has lost one piece. |
| `ResourceMap.TakenFrees` | etc/pstat.c:798-834 | In units: exactly the allocated range leaves the free set, and on overflow one extent more; totals agree. |
| `ResourceMap.GivenBackFrees` | etc/pstat.c:856-941 | In units: exactly the returned range becomes free, and on overflow one extent is lost. |
| `ResourceMap.LostPiece` | etc/pstat.c:925-939 | What overflow loses is one whole piece of the map or the range just returned. |
| `ResourceMap.LostIsLastButOne` | etc/pstat.c:925-939 | It is the last piece but one. |
| `ResourceMap.BadCallDamage` | etc/pstat.c:869-895 | A rejected call leaves the map sound if and only if it did not run into the piece on the right after merging with the one on the left. |
| `ResourceMap.BadCallDoesDamage` | etc/pstat.c:869-895 | A rejected call that leaves two overlapping pieces. |
| `ResourceMap.MisalignedIsLost` | etc/pstat.c:822-832 | A map from which a unit is taken while the answer is 0. |
| `ResourceMap.PlaceStaysInStripe` | etc/pstat.c:805-815 | With several devices no allocation crosses a stripe boundary. |
| `ResourceMap.CoalescedUnique` | etc/pstat.c:844-944 | A coalesced map is determined by the set of free units. |
| `ResourceMap.AllocateThenFree` | etc/pstat.c:783-944 | Giving back what was allocated restores the map piece by piece, if neither call overflowed the table. |
| `ResourceMap.TotalCountsFree` | etc/pstat.c:688-690 | The sum of the sizes is the number of free units. |
| `ResourceMap.CountAvailable` | etc/pstat.c:724-735 | The loop that halves the piece size ends; counted plus remaining plus lost or dropped equals the initial total, and with aligned space nothing is dropped and no smallest piece is left. |
| `SwapMap.Up` | etc/pstat.c:738-751 | `up` is the least total of doubling extents that is not below the size, and tells which extents are needed. |
| `SwapMap.Vstodb` | bin/ps.c:1003-1026 | The answer lies in one extent, is the longest piece from the block on, and is contiguous forward or, for the stack, in reverse; panics exactly on bad requests or bad extents. |
| `SwapMap.PhysicalInjective` | bin/ps.c:1003-1026 | With disjoint extents different virtual blocks are at different physical places, forward and reversed. |
| `SwapMap.OneExtent` | bin/ps.c:1011-1017 | A block lies in one extent only. |
| `SwapMap.VstodbOfAnalyze` | etc/analyze.c:839-858 | The sibling routine answers for the same extent but counts back from the size asked for. |
| `SwapMap.AnalyzeRight` | etc/analyze.c:839-858 | That answer is right if and only if the request is not for the stack or stays within the extent. |
| `SwapMap.AnalyzeWrong` | etc/analyze.c:856-857 | A request for which it is wrong: it names a block in front of the extent. |
| `SwapMap.Pdmseg` | etc/analyze.c:412-430 | The extents marked as used are exactly those that a segment of that size needs, each with its full length. |
| `Factor.SplitDigits` | games/factor.c:61-70 | The digits of N in radices 2, 3, ... are in range, denote N, and are fewer than 13. |
| `Factor.ChangeRadix` | games/factor.c:77-89 | One step of the radix keeps the number denoted and brings every digit, the top one included, into range. |
| `Factor.RebaseDigit` | games/factor.c:79-89 | Subtracting and borrowing at one position keeps the number denoted by the half-converted digits. |
| `Factor.SmallestFactor` | games/factor.c:51-100 | `factor` returns the least divisor of N above 1, which is prime, without a division, for every 32-bit N. |
| `Factor.PrintFactors` | games/factor.c:30-42 | The list printed is nondecreasing, all primes, and multiplies to n. |
| `Sieve.WheelStep` | games/primes.c:93-100 | From any state of the wheel one step lands on the next number coprime to 210 and skips none. |
| `Sieve.WheelIsSound` | games/primes.c:34-38 | One turn of the table leads from 11 to 11 + 210 past every number coprime to 210. |
| `Sieve.MarkMultiples` | games/primes.c:115-131 | `sieve` marks exactly the multiples of the factor in the window, in a table of bits. |
| `Sieve.UnmarkedIffPrime` | games/primes.c:87-108 | An odd number of the window is left unmarked if and only if it is prime. |
| `Sieve.SieveWindow` | games/primes.c:87-100 | For any window the factors used reach every prime up to the square root and stay below the window. |
| `Sieve.SmallTableIsSound` | games/primes.c:29-32 | The table of small primes is exactly the primes below 101. |
| `Sieve.PrintPrimes` | games/primes.c:40-110 | For any start and any number of windows the numbers printed are exactly the primes from the start on, in order. |
| `Regex.MatchDivides` | bin/grep.c:357-484 | A match divides the text among the pieces of the pattern. |
| `Regex.DivisionMatches` | bin/grep.c:357-484 | Any such division is a match. |
| `Regex.StarStops` | bin/grep.c:426-465 | A starred piece may stop anywhere in its longest run and nowhere else, so trying the stops back from the end is complete. |
| `Regex.Advance` | bin/grep.c:357-484 | `advance` succeeds exactly when the pieces match some text from the position on; the backtracking with its first-character shortcut misses nothing. |
| `Regex.TryStops` | bin/grep.c:445-465 | Trying the stops of a run, with the shortcut for a plain character next, succeeds exactly when the rest matches at one of them. |
| `Regex.CharFirst` | bin/grep.c:331-340 | A pattern that begins with a plain character matches only where that character is. |
| `Regex.OneReading` | bin/grep.c:160-290 | Compiled code has one reading only. |
| `Regex.CompileClass` | bin/grep.c:214-242 | The map of a class in the code is that of the set the class denotes, ranges and complement included, or the pattern is refused as the text says. |
| `Regex.MapHas` | bin/grep.c:204-238 | A bit of that map is set exactly for the members. |
| `Regex.Compile` | bin/grep.c:160-290 | For every pattern of 7-bit characters and the buffer of 256 bytes: the compiled code fits and reads as the pieces parsed from the pattern, or the outcome is the one the pattern determines. |
| `RegexText.RenderedIsRead` | bin/grep.c:160-286 | Any pattern written from its parts (plain and escaped characters, periods, classes with ranges and `^`, groups, asterisks, a final `$`; a `$` elsewhere, an asterisk where nothing can be repeated and a `^` not at the beginning are plain) is read as exactly those pieces, if its code fits. |
| `RegexText.ReadExactly` | bin/grep.c:160-286 | A pattern is accepted, and means certain pieces, if and only if it is written in that way and its code fits. |
| `RegexText.ClassRead` | bin/grep.c:214-242 | A class is read as the set of its characters and ranges, or all others; a right bracket may come first, a hyphen first or last. |
| `RegexText.GrepWritten` | bin/grep.c:292-355 | Grep on a pattern as written selects a line if and only if what was meant matches. |
| `Regex.WrittenPastEndExactly` | bin/grep.c:184-286 | A byte is put behind the buffer if and only if the pattern comes to a point where one byte is left and a character or group mark follows. |
| `Regex.PeriodAndPlain` | bin/grep.c:184-286 | A period and 128 plain characters are such a pattern. |
| `Regex.ReadPastEndExactly` | bin/grep.c:214-233 | The pattern is read past its end if and only if it comes to an open class that ends in a hyphen, not the first of the class and not the end of a range. |
| `Regex.OpenRange` | bin/grep.c:214-233 | The pattern "[a-" is one. |
| `Regex.Search` | bin/grep.c:323-346 | Found if and only if the pattern matches anywhere (at the start after a circumflex), and at the leftmost place; the first-character loop agrees with the plain one. |
| `Regex.Grep` | bin/grep.c:292-355 | Compiling and running on a line decides exactly whether the parsed pattern matches the line. |
| `Canfield.Game.constructor` | games/canfield.c:581-621 | Any shuffled deck gives a board in order: 52 cards each in one place, counters, columns, foundations, bottoms and accounts right. |
| `Canfield.InitDeck` | games/canfield.c:406-426 | The deck has every card once. |
| `Canfield.Shuffle` | games/canfield.c:431-449 | It still does after shuffling with any random numbers. |
| `Canfield.ToFoundKeeps` | games/canfield.c:522-531 | A card to the foundation keeps every card in exactly one place. |
| `Canfield.ToColumnKeeps` | games/canfield.c:1030-1057 | So does a card to a column. |
| `Canfield.JoinedKeeps` | games/canfield.c:1087-1105 | So does a column onto another. |
| `Canfield.BuildingRanks` | games/canfield.c:1140-1184 | The k-th card of a foundation pile has the base rank plus k, round the king, and the suit of the first. |
| `Canfield.LadderCards` | games/canfield.c:749-763 | Cards of a column go down by one, round the ace, and alternate in colour. |
| `Canfield.FitsExactly` | games/canfield.c:1140-1184 | A foundation pile refuses a card unless it is the next one of its suit. |
| `Canfield.TabOkExactly` | games/canfield.c:749-763 | A column refuses a card unless it is the one below, of the other colour; an empty one takes the top of the stock, or anything once the stock is gone. |
| `Canfield.ThreeDealt` | games/canfield.c:768-840 | Three cards are dealt one onto the other, or what there is. |
| `Canfield.TurnedOver` | games/canfield.c:786-805 | The talon is turned over three times; the fourth time ends the game. |
| `Canfield.FilledFirst` | games/canfield.c:1262-1275 | Only an empty talon is filled before a command; with all cards off no command is obeyed. |
| `Canfield.BoughtOrOver` | games/canfield.c:1320-1345 | The first cards from the hand have to be bought, or the game is over. |
| `Canfield.Game.ToggleCounting` | games/canfield.c:1366-1370 | Counting is turned on, and exactly the cards of talon and hand in view are paid for, or off, and nothing is paid. |
| `Canfield.LadderHeight` | games/canfield.c:749-763 | A column without base cards has at most twelve cards, its lowest as far above the base as the column is high. |
| `Canfield.NotOntoItself` | games/canfield.c:1087-1105 | No column can legally be moved onto itself. |
| `Canfield.NoFifthBase` | games/canfield.c:538-576 | When four base cards are on the foundation no other pile shows one, so `base` never passes 3. |
| `Canfield.Game.FndBase` | games/canfield.c:538-576 | Base cards on a pile start foundation piles until its top is none, and that is all; everything stays in order. |
| `Canfield.Game.MoveToFound` | games/canfield.c:1140-1184 | The top card goes to the first foundation pile where it fits, or nothing changes when it fits none. |
| `Canfield.Game.SimpleTableau` | games/canfield.c:1030-1057 | A card from stock or talon goes to a column exactly when the rules allow it, and the lowest card of a formerly empty column is recorded. |
| `Canfield.Game.TabToTab` | games/canfield.c:1087-1105 | A column goes onto another exactly when the rules allow it; all is in order afterwards if and only if the other column was not empty. |
| `Canfield.JoinedEmpty` | games/canfield.c:1094-1100 | Onto an empty column the lowest card is not recorded. |
| `Canfield.Game.MoveToTalon` | games/canfield.c:768-840 | Up to three cards are dealt in order, the talon turned over first if the hand is empty, the fourth time round ends the game, and base cards then on the talon go: the table is exactly what `Dealt` says. |
| `Canfield.Game.UsedTalon` | games/canfield.c:905-923 | The next card of the talon comes into view, and is paid for exactly if it was not in view and cards are counted. |
| `Canfield.Game.ShowStat` | games/canfield.c:846-881 | With counting on every card in view is paid for, none twice. |
| `Canfield.Game.InformationBound` | games/canfield.c:846-881 | Information never costs more than 34. |
| `Canfield.Game.Start` | games/canfield.c:651-659 | The opening is as `Started` says, and leaves no base card in view, with everything in order. |
| `Canfield.Game.Turn` | games/canfield.c:1262-1387 | One command of any kind does exactly what `AfterTurn` says; the whole state stays in order, with no base card in view, if and only if the command does not move a column onto an empty one; only the command `c` turns counting on or off, and while it is on every card of talon and hand in view is paid for. |
| `Canfield.Game.Play` | games/canfield.c:1262-1387 | Any run of commands, to the end of the game or to such a move: the commands are obeyed one after the other, and partition, counters, columns, foundations, winnings of 5 for each card exactly when the game is bought, and information are in order, with everything in view paid for while cards are counted. |
| `CanfieldRun.ComesOntoEmpty` | games/canfield.c:1262-1387 | A deck and thirteen commands after which a column can be moved onto an empty one. |
| `Canfield.NotAllOff` | games/canfield.c:1268-1272 | While a column has a card the foundation has fewer than 52. |
| `CylinderGroup.Group.Initcg` | etc/mkfs.c:517-631 | Every bit is defined, free exactly outside the group's own blocks, all counters (whole, per cylinder, per position, fragments) agree with the map, and what is added to the size is the free fragments. |
| `CylinderGroup.Group.Alloc` | etc/mkfs.c:715-761 | Takes exactly the wanted fragments of the first free block, keeps all counters in agreement, and fails exactly when no block is counted. |
| `CylinderGroup.Group.FindBlock` | etc/mkproto.c:367-372 | If a free block is counted the search finds the first one: the internal error cannot happen. |
| `CylinderGroup.Group.AllocEach` | etc/mkfs.c:715-761 | Over any sequence of requests in the one group that mkfs allocates from, no fragment is handed out twice, the free count falls by exactly what was handed out, and it ends early only when no block is left. |
| `FileSystem.FileSystem.Alloc` | etc/mkproto.c:346-398 | Over all groups, it fails exactly when no group counts a free block; otherwise the piece at the address in the whole file system was free, and exactly it is no longer free. |
| `FileSystem.FileSystem.AllocEach` | etc/mkproto.c:346-398 | Over any sequence of requests, going on from group to group, no fragment of the file system is handed out twice, the free count falls by exactly what was handed out, and it ends early only when no group has a block left. |
| `FileSystem.GoneAtAddress` | etc/mkproto.c:398 | A piece that has gone from one group has gone at its address in the whole file system, and nowhere else. |
| `FileSystem.FreeAtAddress` | etc/mkproto.c:398 | A fragment of a group is at its address in the whole file system. |
| `CylinderGroup.Group.Makecg` | etc/icheck.c:500-557 | The map rebuilt is free exactly where nothing is in use, with all counters in agreement. |
| `CylinderGroup.AllFragments` | etc/mkfs.c:596-628 | Free fragments are those in free blocks plus those counted singly. |
| `CylinderGroup.BlockChanged` | etc/mkfs.c:715-761 | Changing one block changes each count by that block's share only. |
| `CylinderGroup.Taken` | etc/mkfs.c:735-757 | Taking part of a free block lowers each count of blocks where the block belongs and raises the loose fragments by the rest. |
| `CylinderGroup.MaskCovers` | etc/mkfs.c:846-873 | The byte mask of a block covers exactly its fragments, for 1, 2, 4 and 8 fragments a block. |
| `CylinderGroup.MaskSets` | etc/mkfs.c:878-935 | Setting and clearing under a mask changes exactly the bits of the mask. |
| `CylinderGroup.MaskTests` | etc/mkfs.c:846-873 | The test under a mask holds exactly when all its bits are set. |
| `CylinderGroup.InBlock` | etc/mkfs.c:846-873 | A fragment is in a block exactly if it is in the block's byte and under its mask. |
| `CylinderGroup.IsBlockIn` | etc/mkfs.c:846-873 | On a map of bytes `isblock` says whether all fragments of the block are free. |
| `CylinderGroup.PutBlockIn` | etc/mkfs.c:878-935 | On a map of bytes `setblock` and `clrblock` change exactly the fragments of the block. |
| `CylinderGroup.InitAll` | etc/mkfs.c:484-490 | Over all groups the size of the file system is what the maps have free, in blocks and fragments. |
| `RtDirectory.TransInjective` | etc/arff.c:583-599 | Different logical addresses are at different places on the floppy. |
| `RtDirectory.TransParts` | etc/arff.c:583-599 | An address keeps its byte in the sector and its track, one track further in, and only the sector is permuted. |
| `RtDirectory.SkewedInjective` | etc/arff.c:583-599 | Different sectors of a track are at different places. |
| `RtDirectory.SkewedOnto` | etc/arff.c:583-599 | Every sector of a track is used. |
| `RtDirectory.SkewedSteps` | etc/arff.c:583-599 | Neighbouring logical sectors lie two apart (three where the even ones end), and each track begins six sectors further round. |
| `RtDirectory.Segment.Lookup` | etc/arff.c:407-446 | The first file of the name, with the block where it starts, or none exactly when there is none. |
| `RtDirectory.Segment.Mkent` | etc/arff.c:710-752 | The empty entry is split or taken whole in place; it fails exactly when the segment is full, the sizes differ and the caller does not insist; an entry is put behind the segment exactly when the number of entries grows to 72 or more. |
| `RtDirectory.OverrunsExactly` | etc/arff.c:724-739 | An entry is written behind the segment exactly when a new file leaves part of a gap and there are 71 entries or more before the end mark. |
| `RtDirectory.NewFile` | etc/arff.c:710-752 | A new file comes where the gap was; every other file stays where it is, and the total is conserved. |
| `RtDirectory.FileGone` | etc/arff.c:801-820 | Deleting a file moves no other, and conserves the total. |
| `RtDirectory.Joined` | etc/arff.c:822-843 | Joining two gaps moves no file, and conserves the total. |
| `RtDirectory.Segment.Scrunch` | etc/arff.c:822-843 | Exactly the neighbouring gaps become one, so that no two are neighbours; files and total are unchanged. |
| `RtDirectory.FilesApart` | etc/arff.c:407-446 | Files of a segment never share a block and lie within the segment. |
| `RtDirectory.Segment.Put` | etc/arff.c:652-708 | A file goes into the file of its name exactly if it fits there, else into the first gap that is long enough, and is refused exactly if there is none; a full directory is reported; no other file moves and no name comes twice. |
| `RtDirectory.StoreDecides` | etc/arff.c:652-739 | A file goes into the file of its name if and only if it fits; else it is refused if and only if no gap is long enough, and the directory is full if and only if part of the first such gap would be left without room for an entry. |
| `RtDirectory.Segment.Remove` | etc/arff.c:801-820 | Says whether there was a file of that name; afterwards there is none, and all others are where they were. |
| `RtDirectory.Segment.Run` | etc/arff.c:652-843 | Any run of storing, deleting and squeezing, to its end or to a full directory, does what the commands say one after the other: total conserved, names distinct, every surviving file at its place, and the segment overrun exactly when one of the commands overruns it. |
| `RecordConv.BlockedLines` | bin/dd.c:563-590 | Each line becomes one record, cut or filled with spaces, and `ntrunc` counts exactly the lines that do not fit. |
| `RecordConv.UnblockedRecords` | bin/dd.c:478-503 | Each record becomes one line without its trailing spaces. |
| `RecordConv.BlockThenUnblock` | bin/dd.c:478-590 | `unblock` after `block` returns each line cut to the record and without trailing spaces. |
| `RecordConv.UnblockThenBlock` | bin/dd.c:478-590 | `block` after `unblock` is the identity on newline-free records, and truncates nothing. |
| `RecordConv.Output.Null` | bin/dd.c:440-449 | One byte more in the stream, and every record written so far is full. |
| `RecordConv.Output.Finish` | bin/dd.c:354-369 | The records written are the stream, all full except perhaps the last, and `nofr` and `nopr` count the full and the partial ones. |
| `RecordConv.RunBlock` | bin/dd.c:563-590 | A whole run with `conv=block` writes the blocked input, or with a record size of 0 the input, in records of the output size except perhaps the last. |
| `RecordConv.RunUnblock` | bin/dd.c:478-503 | The same with `conv=unblock`. |
| `AccountTable.ProbesDiffer` | etc/sa.c:1066-1071 | The first 551 probes for a name are different slots. |
| `AccountTable.AllTriedIsClogged` | etc/sa.c:1064-1090 | If they are all in use the chunk is clogged, so a free slot offered in an unclogged chunk is one that later searches reach. |
| `AccountTable.CloggedIsTight` | etc/sa.c:1085-1089 | The guard cannot be weaker: in a chunk just clogged a name put into its free slot may never be found again. |
| `AccountTable.Table.Enter` | etc/sa.c:1043-1108 | For any names entered before, `enter` finds a name exactly if it was installed, and else installs it as the next cell; every earlier name keeps its cell. |
| `AccountTable.Merge` | etc/sa.c:476-514 | The merged report has every cell of the sorted chunks once, in order. |

## Left out

- bin/ld.c: `-A` incremental loading, `-D`, stab symbols, the page cache behind `dseek` and `mget`, `bopen`/`bwrite`, byte and word relocations with their overflow messages, the relocation output of `-r`, and the symbol table output.
- bin/ld.c: the passes use the symbol table as a list with one entry a name, and `nextsym` as a place in it; `SymbolTable` proves separately that the hashed segments behave so, stale pointers included. That ld gives up when more symbols come than 40 segments hold, or when NSYM probes of a full segment meet other names, is stated there (`SymbolTable.Table.Lookup`) and not in the passes. Segments that the source allocates when first needed are there from the start.
- Linking.Link: after `nextsym` has led it to freed names the link is not followed further; the entry point after `-e` is not kept; it takes objects as read; relocation sites lie within the code, as pass 2 takes for granted, a missing bucket of the symbol number table is the same error as the end of a chain, and a file without symbols still ends in a string table (without one pass 2 stops at the end of the file).
- LinkArchive.Ldrand: an entry whose bucket is still empty is passed over, where the source follows a null pointer.
- LinkRelocate.PatchedWord: relocation sites that overlap are patched in order by `LinkRelocate.RelocateSegment`, but nothing is said about what such words mean.
- Rotor.BuildTables: the random stream is arbitrary; the key and `makekey` are not modelled.
- bin/ed.c: encryption of the temporary file, recovery from errors, `append`, `join`, substitution, and ed's own copy of the regular expression routines, which is not part of this model.
- LineStore.Store.PutLine: a line is shorter than the line buffer, as ed's reading ensures.
- bin/grep.c: backreferences, `\<`, `\>` and `-w` have the status `Unsupported`; patterns and class members have seven bits.
- Tftp.StepKeeps: a protocol of two processes is a state machine over values and not two loops; the variables of both sides, the buffers and their conversion in place are fields of the state.
- ResourceMap.Map.Free: what happens to the map after a damaging bad call is not followed further.
- SwapMap.Vstodb: `findslot` and the reading of swap maps are not modelled.
- Factor.SmallestFactor: for N of 1, as the source, the answer is 1; negative N are not modelled.
- Sieve.PrintPrimes: the endless loop is cut after any number of windows; the square root is exact and numbers do not wrap at 32 bits.
- Canfield.Game.Play: piles are sequences and not cards linked to one another; the screen, the score file, totals over games, `showcards` and the cost of thinking time are not modelled. Runs stop before a move of a column onto an empty one; `Canfield.Game.Turn` says what that move does.
- CylinderGroup.Group.Initcg: the map of a group is one flag a fragment, and `IsBlockIn` and `PutBlockIn` do the same on bytes; the macros for cylinder and position are arbitrary functions; inode maps and `frsum` are not modelled, and the rounded-up start of the free area lies within the group.
- FileSystem.FileSystem.Alloc: groups are objects and not read and written back each time, with their magic numbers in order; the totals in the super-block, `newblk` and `iput` are not modelled.
- RtDirectory.Segment.Mkent: that an entry reaches behind the segment is recorded (`beyond`), but not what becomes of the next segment, into whose head its last 8 bytes go.
- RtDirectory.Segment.Run: one directory segment; the chain of segments, dates, names in radix 50, lengths that wrap at 16 bits, and copying the data are not modelled.
- RecordConv.RunBlock: `swab`, `sync`, `noerror`, case and EBCDIC conversion, and the path that bypasses the output buffer are not modelled.
- AccountTable.Table.Enter: there is a first chunk, as `tabinit` makes it, and a name is not empty (for an empty one the source reads the byte in front of it); cells keep their names; the pass that blanks the names of rare commands is not modelled. A cell is its number.
- AccountTable.Merge: the order asked for by the flags is a key, a real number; sorting the chunks is left to `qsort`.

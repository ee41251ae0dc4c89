# Models of nine 4.1BSD source files, with proofs

Nine files of this repository keep dense mutable state behind a simple meaning.
This project models them in Dafny, in the form the C has (fields updated by small methods,
loops with their invariants), and proves what that meaning is over every input and every run.
Each class has an invariant, and each method states its whole effect on an abstract view: a
tiling of words, a stack of blocks, an append-only map of lines, an ordered list of names.

| files | what they model |
|---|---|
| Malloc | the heap allocator of new/malloc.c over a word memory and sbrk |
| RestorBlocks, RestorFile, Restor | old/512restor.c: block cache, spilled free list, indirect trees |
| Rotor, TempFile | bin/ed.c: the cipher, the temporary file behind two buffers |
| EditText, EditLaws, EditBuffer, Substitute | bin/ed.c: the commands and their laws, the line array with marks, `s` with its matcher |
| QuadraticProbe, SymbolSegments, SymbolTable | bin/ld.c: the segmented hash table |
| LoaderSymbols, LoadRules, Loader | bin/ld.c: pass 1 and its rules, library search |
| LoadMap, LoadImage, LoadRun | bin/ld.c: addresses, pass 2, the output as an image, a whole run |
| BufferedOutput | bin/ld.c: several buffered writers on one file |
| GrepMatch, GrepCompile, GrepGroups, GrepPieces | bin/grep.c: the interpreter, the compiler, what a written pattern means |
| AccountTable | etc/sa.c: the accounting table and the merge of chunks |
| FragCount, FragMap, CylinderGroup | etc/mkfs.c, etc/icheck.c: free maps and their counters |
| Floppy | etc/arff.c: the RT-11 directory |

`Loader` and `LoadMap` run on the real symbol table of `SymbolTable`, `TempFile` uses the cipher of
`Rotor`, `GrepLine` joins compiler and interpreter, `AccountTable` and `SymbolSegments` share the number theory.

## What the sources demand of their callers

- `sbrk` returns addresses at or above all earlier ones; I/O does not fail.
- `free` gets a pointer that `malloc` returned and that is live, or one into free space.
- Block 0 of the disk exists, and is neither free nor any file's.
- `symfree` gets a mark taken when there was a symbol.  A name absent from the table counts as not undefined.
- A library's table of contents names members that define the name or have a common of it.  External symbols carry no debugger bits.
- Patterns and lines are 7-bit, without NUL.  Back-references are to groups already closed.
- The substitution patterns have no groups and no back-references.
- Streams are opened over regions that do not meet, and keep to them.
- The bounds of a cylinder group are in order, the superblock's copy at a block boundary.

## Where the code does not do what it says

- A request of 2^32-3 bytes or more wraps around in `malloc` (`Malloc.PayloadSuffices`).
- The comment on quadratic rehash says that it never fails; in a full segment all of whose names
  hash alike it does (`SymbolTable.BotchRun`, and the exact condition in `SymTab.Lookup`).
- A library member that is backed out may leave a larger common behind (`LoaderSymbols.RejectionRestores`).
- `gdelete` leaves another current line than the loop it stands for when one line is marked (`EditText.DotsAgree`).
- `grep` accepts a reference to a group that is still open (`GrepGroups.CompiledWellFormed`).
- A file with more blocks than its address array can lead to has the rest written to block 0, one over
  the other (`Restor.Restorer.RstrFile`); a direct block mapped twice is lost (`Restor.Restorer.BMap`).
- In the temporary file the path that writes into the input buffer is never taken (`ichanged` stays 0).

## Model

| member | source | states |
|---|---|---|
| Malloc.PayloadSuffices | new/malloc.c:42-44 | the words computed for a request hold its bytes exactly if the request is at most 2^32-4 bytes; from 2^32-3 on the unsigned sum wraps and the block is too small |
| Malloc.BlocksDisjoint | new/malloc.c:63-67 | in a tiled arena no two blocks share a word |
| Malloc.CutTiling | new/malloc.c:63-65 | splitting a block leaves a tiling of the same words |
| Malloc.MergeTiling | new/malloc.c:111-119 | joining two blocks that touch leaves a tiling of the same words |
| Malloc.SplitKeeps | new/malloc.c:62-68 | cutting an allocation from the front of a free block keeps the whole arena invariant |
| Malloc.InsertKeeps | new/malloc.c:105-115 | linking a freed block in keeps the arena invariant, the list in address order |
| Malloc.MergeKeeps | new/malloc.c:111-120 | joining list neighbours keeps the arena invariant |
| Malloc.InsertCoalesces | new/malloc.c:110-120 | after a block is linked in, the only free neighbours that touch are those about to be joined |
| Malloc.AppendCoalesced | new/malloc.c:54-58 | a new block from sbrk that does not touch the last free block keeps the free list coalesced |
| Malloc.Arena.FindPred | new/malloc.c:75-97 | the wrap-around search ends, and returns the predecessor of the next fitting block from rover on, or the last block if none fits anywhere |
| Malloc.Arena.Grow | new/malloc.c:47-59 | sbrk is called only when no free block fits; afterwards one does, and live words are untouched |
| Malloc.Arena.Carve | new/malloc.c:60-72 | the block returned has the size asked for or one word more, the rest stays free, rover is on the list |
| Malloc.Arena.Malloc | new/malloc.c:35-73 | over any state: the invariant is kept, the block returned is new, large enough and disjoint from all live ones, live words keep their contents |
| Malloc.Arena.JoinRight | new/malloc.c:110-115 | linking the freed block and joining it with the free block behind it keeps the arena |
| Malloc.Arena.JoinLeft | new/malloc.c:116-120 | joining it with the free block before it leaves the list coalesced |
| Malloc.Arena.Free | new/malloc.c:99-121 | freeing a live block keeps the invariant and makes exactly its words free; a pointer into free space changes nothing; no two adjacent free blocks remain |
| RestorBlocks.PushInCore | old/512restor.c:917-917 | a block put on a chunk with room is the new top of the stack the chain stands for |
| RestorBlocks.PushSpilled | old/512restor.c:910-917 | a full chunk written into the freed block is still the stack below it |
| RestorBlocks.Pop | old/512restor.c:934-947 | taking the last entry, and reading the spilled chunk back when it was the first, pops the stack |
| RestorBlocks.GrowTree | old/512restor.c:1005-1016 | hanging one new block under any node of an indirect tree adds exactly that block to the tree's blocks |
| RestorBlocks.GrowWalk | old/512restor.c:1005-1016 | and every other offset still leads where it led |
| RestorBlocks.WalkInjective | old/512restor.c:1005-1017 | different offsets of one tree lead to different blocks |
| RestorBlocks.NodeIsNoLeaf | old/512restor.c:1005-1016 | a node on the path is never the data block of any offset |
| RestorBlocks.IndexInOrder | old/512restor.c:1005-1008 | offsets go through an indirect block entry by entry, and through each entry's tree in order |
| RestorFile.FilledInOrder | old/512restor.c:963-1004 | file blocks fill the trees from the first address on, each from its first offset to its last |
| RestorBlocks.MaskedIndex | old/512restor.c:1007-1008 | shifting and masking the block number gives the index that division by the subtree's size gives |
| RestorBlocks.CapIsPow2 | old/512restor.c:985-986 | the capacity of a tree of a level is the power of two bmap shifts to |
| RestorBlocks.LeafWrite | old/512restor.c:1116-1116 | writing a data block changes no path of its tree |
| RestorFile.FileWalkInjective | old/512restor.c:970-1017 | across direct and single, double, triple indirect slots, different block numbers lead to different blocks |
| RestorFile.FileWrite | old/512restor.c:1112-1116 | writing the data of one block of a file keeps all its paths |
| RestorFile.GrowRoot | old/512restor.c:998-1000 | a new root in an empty slot adds exactly itself to the file's blocks |
| RestorFile.GrowSlot | old/512restor.c:1009-1014 | a block hung below a slot adds exactly itself to the file's blocks |
| RestorFile.RootKept | old/512restor.c:998-1000 | a new root leaves every block found before where it was |
| RestorFile.NodeKept | old/512restor.c:1009-1014 | a block hung anywhere leaves every block found before where it was, contents and all |
| RestorFile.WriteKept | old/512restor.c:1112-1116 | and so does writing the one asked for |
| RestorFile.RestoredMore | old/512restor.c:1109-1118 | what has been restored stays restored through each later step |
| RestorFile.EmptyRestored | old/512restor.c:423-424 | an all-zero address array is the file with nothing restored yet |
| Restor.WriteThrough | old/512restor.c:766-776 | a write leaves every cache entry equal to its disk block |
| Restor.LoadKeeps | old/512restor.c:808-819 | so does replacing the oldest entry |
| Restor.Restorer.DWrite | old/512restor.c:760-784 | the disk has the new block, the cache agrees with the disk |
| Restor.Restorer.DRead | old/512restor.c:786-820 | the answer is the first cache entry of that number or the disk block; for every nonzero number that is what is on the disk |
| Restor.SeenIsDisk | old/512restor.c:795-806 | a cache entry met in the search has what is on the disk, for every block but 0 |
| Restor.Restorer.BFree | old/512restor.c:901-918 | the block is pushed on the stack of free blocks, spilled or not |
| Restor.Restorer.BAlloc | old/512restor.c:920-950 | the top of the stack is popped and zeroed; it fails exactly when the stack is empty |
| Restor.Restorer.TLoop | old/512restor.c:877-899 | freeing a tree frees every data and indirect block of it exactly once |
| Restor.Restorer.ITrunc | old/512restor.c:841-875 | truncating a file frees each of its blocks exactly once, or nothing for a mode that has none |
| RestorFile.FileFrame | old/512restor.c:1112-1116 | a write to a block that is not the file's is not seen in the file |
| RestorFile.DropDirect | old/512restor.c:967-970 | a direct block that is mapped again is lost to the file, and no other block of it changes |
| RestorFile.LacksFew | old/512restor.c:978-1016 | a file block lacks four disk blocks at most, itself and the indirect ones on its path |
| RestorFile.HungNext | old/512restor.c:1009-1015 | a block hung on the path is the next one on it, and one block less is missing |
| Restor.Restorer.BMap | old/512restor.c:957-1018 | the block returned is where the walk of the address array now leads for that number, every other number leads where it led; file, free and lost blocks together are conserved, and only a direct block mapped before is lost; it fails exactly if fewer blocks are free than are missing on the path, and takes exactly those |
| Restor.Restorer.NewDirect | old/512restor.c:967-970 | a direct block gets a new disk block, whatever was there |
| Restor.Restorer.FollowPath | old/512restor.c:1005-1017 | the loop through the indirect blocks, each missing one allocated |
| Restor.Restorer.RstrFile | old/512restor.c:1109-1118 | the block is stored so that the walk finds its data, and no other block of the file changes; it fails exactly if too few blocks are free; behind the last block that a file can have the data goes to block 0 |
| Restor.Restorer.GetFile | old/512restor.c:420-426 | after any strictly increasing run of blocks every one that a file can have is found with its own data, all in distinct places; block 0 has the last one behind those |
| Restor.Restorer.RestoreAndTruncate | old/512restor.c:841-875 | restoring such a file and truncating it gives back the set of free blocks there was; with four free blocks for each piece it cannot fail |
| Rotor.TurnTwice | bin/ed.c:1646-1646 | one byte through the rotors twice, at the same counters, is the byte |
| Rotor.CryptTwice | bin/ed.c:1628-1655 | a block enciphered twice from the same start is the block |
| Rotor.CryptPieces | bin/ed.c:1642-1654 | a stream may be cut into pieces with matching starts |
| Rotor.CryptPeriod | bin/ed.c:1642-1643 | the start counts only modulo 65536 |
| Rotor.CrBlock | bin/ed.c:1628-1655 | the loop over the buffer computes that cipher in place |
| Rotor.ReflectorStep | bin/ed.c:1642-1652 | 256 bytes on, a byte goes through as before with the reflector turned on by one: this is the second counter |
| Rotor.RotorStep | bin/ed.c:1646-1648 | one byte on, a byte goes through as before with the rotor turned on by one: this is the first counter |
| Rotor.WholeTurn | bin/ed.c:1647-1653 | after a whole turn of the rotor the reflector is turned on by one as well |
| Rotor.WheelsTurn | bin/ed.c:1628-1655 | a machine without counters, whose wheels turn behind each byte, enciphers every byte of the stream the same |
| Rotor.FindPartner | bin/ed.c:1741-1744 | the search for a free partner never divides by zero, ends, and pairs two positions |
| Rotor.PartnerLeft | bin/ed.c:1740-1742 | as long as a position is unpaired there is a free one below it |
| Rotor.Invert | bin/ed.c:1746-1747 | t2 becomes the inverse of the permutation t1 |
| Rotor.CrInit | bin/ed.c:1688-1749 | for every key t1 is a permutation, t2 its inverse, t3 an involution without fixed point, and they are the tables that the key's steps of wiring make |
| Rotor.WireStep | bin/ed.c:1731-1745 | one turn of the loop swaps and pairs off as the seed says, and leaves an even number of positions unpaired |
| Rotor.FirstWire | bin/ed.c:1731-1745 | from seed 123, a key that begins with 97 exchanges bytes 255 and 200 and pairs 255 with 2 |
| Rotor.LongIs | bin/ed.c:1726-1732 | a seed is kept to what stays of it in a signed 32-bit word |
| Rotor.RemainderIs | bin/ed.c:1733-1733 | the remainder of a negative seed is a negative number, kept in an unsigned word |
| Rotor.SameKeySameTables | bin/ed.c:1721-1747 | one key makes one set of tables |
| Rotor.SameKeyDeciphers | bin/ed.c:1628-1655 | what a machine enciphers, another one set up with the same key deciphers |
| TempFile.LoadKeeps | bin/ed.c:922-926 | reading another block into the input buffer changes no byte of the file as seen through the buffers |
| TempFile.WriteBackKeeps | bin/ed.c:916-921 | nor does writing the input buffer back |
| TempFile.FlushKeeps | bin/ed.c:928-940 | nor does writing out the output buffer and turning to the next block |
| TempFile.PokeKeeps | bin/ed.c:878-878 | a byte put through the output buffer changes that byte of the view and no other |
| TempFile.AddressStep | bin/ed.c:889-890 | the next address is even, and its byte lies behind the record just written |
| TempFile.PuttingDone | bin/ed.c:866-892 | when the NUL is written the record is held at its address, apart from every other |
| TempFile.TempBuffer.GetBlock | bin/ed.c:894-942 | the pointer returned stands at the byte the address names, whichever buffer holds it; it fails exactly for blocks from 255 on |
| TempFile.TempBuffer.GetLine | bin/ed.c:848-864 | the text recorded at an address is read back, mark bit or not, encrypted or not |
| TempFile.TempBuffer.PutLine | bin/ed.c:865-892 | the line is added to the map of lines, every recorded line stays; it succeeds exactly if its last byte lies before block 255 |
| QuadraticProbe.Euclid | bin/ld.c:84-92 | 1103 is prime: if it divides a product and not the first, smaller factor, it divides the other |
| QuadraticProbe.ProbesDifferTwice | bin/ld.c:84-92 | the first 1103 probes of a table of 2206 buckets are all different |
| QuadraticProbe.ProbesDifferPrime | etc/sa.c:116-119 | the first 552 probes of a table of 1103 buckets are all different |
| QuadraticProbe.NextProbe | bin/ld.c:1674-1677 | adding the odd steps and wrapping once visits bucket h + k*k modulo the table |
| QuadraticProbe.SomeProbeEmpty | bin/ld.c:89-91 | with fewer buckets occupied than probes, some probe meets an empty one |
| QuadraticProbe.AllProbesOccupied | bin/ld.c:1664-1680 | with as many occupied, all of them on the path, every probe is occupied |
| SymbolSegments.AddOk | bin/ld.c:1728-1738 | entering a symbol at the first empty bucket of its path keeps every probe chain |
| SymbolSegments.DropOk | bin/ld.c:1698-1700 | backing out the newest symbol breaks no probe chain |
| SymbolSegments.DropUndoesAdd | bin/ld.c:1698-1704 | and gives the segment back as it was |
| SymbolSegments.NotFullHasEmpty | bin/ld.c:89-91 | in a segment that is not full every path has an empty bucket |
| SymbolSegments.CollisionsSaturate | bin/ld.c:1679-1680 | a full segment of names that hash alike leaves no empty bucket on their path |
| SymbolSegments.MissedIsAbsent | bin/ld.c:1664-1678 | a symbol is met on its path before any empty bucket, or is not in the segment |
| SymbolSegments.Search | bin/ld.c:1662-1678 | the inner loop finds the name, the bucket where it belongs, or that the path is full |
| SymbolTable.NamesAreUnique | bin/ld.c:1649-1681 | no name is listed twice over all segments |
| SymbolTable.AbsentIffUnlisted | bin/ld.c:1649-1681 | a name is in no segment exactly if it is not on the list of names |
| SymbolTable.AddKeepsTable | bin/ld.c:1731-1737 | entering appends to the list and keeps the table |
| SymbolTable.DropKeepsTable | bin/ld.c:1698-1700 | backing out takes the last off the list and keeps the table |
| SymbolTable.RedefineKeepsTable | bin/ld.c:813-814 | a new type and value for a symbol keep the table and change only that entry |
| SymbolTable.SameListSameTable | bin/ld.c:1686-1710 | the list determines the table, hash buckets included: a back-out restores it wholly |
| SymbolTable.SaturatedEnds | bin/ld.c:1679-1680 | behind a segment whose path for a name is full there is no such name |
| SymbolTable.NoneSaturated | bin/ld.c:1660-1668 | and no segment before a waiting bucket has a full path |
| SymbolTable.XSymInverts | bin/ld.c:95-100 | xsym of a symbol's number is the symbol |
| SymbolTable.SymTab.Lookup | bin/ld.c:1636-1684 | finds a bucket holding the name exactly if the name is listed, else the bucket where it belongs; 'hash table botch' exactly if the name is unlisted and some segment's path for it is full |
| SymbolTable.SymTab.Enter | bin/ld.c:1723-1743 | a new name is appended to the list, a known one only pointed to |
| SymbolTable.SymTab.SymFree | bin/ld.c:1686-1710 | back to a mark, the list is cut to what it was at the mark |
| SymbolTable.SymTab.SymX | bin/ld.c:1745-1758 | the number of a symbol, inverse to xsym, and the length of the list for nextsym |
| SymbolTable.SymTab.SetSym | bin/ld.c:813-814 | one symbol gets a new type and value, nothing else changes |
| SymbolTable.SpellingsHashAlike | bin/ld.c:1645-1648 | names spelt with two syllables that fold alike all hash alike |
| SymbolTable.BotchRun | bin/ld.c:84-92 | 1103 names that hash alike fill the first segment, and looking the next one up ends in 'hash table botch': the claim of the comment holds for segments that are not full only |
| LoaderSymbols.AfterGrows | bin/ld.c:785-815 | reading a module keeps every symbol's number and name, every definition, and never lowers a size asked for |
| LoaderSymbols.DefinedSettles | bin/ld.c:801-814 | a symbol that the module defines, or has as a common, is not undefined with value 0 afterwards |
| LoaderSymbols.RejectedOnlyRaises | bin/ld.c:805-809 | a member that defines nothing needed changes at most sizes of commons among the old symbols |
| LoaderSymbols.RejectionRestores | bin/ld.c:833-839 | backing it out gives the old table back exactly if it asks for no larger common than the table has |
| LoaderSymbols.RejectionCanLeaveCommon | bin/ld.c:805-809 | an input where it does not: a member backed out turns an undefined symbol into a common |
| LoaderSymbols.TakenIffSupplies | bin/ld.c:810-816 | if no name occurs twice in a member, it is taken exactly for a symbol of it that the table needed |
| LoaderSymbols.TakenHasOrigins | bin/ld.c:800-814 | every definition in the table is some loaded module's symbol, relocated to that module's place |
| Loader.NoBucketIsFull | bin/ld.c:1679-1682 | the loader gives up on a name only when a whole segment is full |
| Loader.ReadIsKnown | bin/ld.c:801-802 | every external name of a module read is in the table |
| Loader.TriedSuppliesNone | bin/ld.c:796-840 | after a member was tried, taken or not, it has no definition left that an undefined symbol or common of the table would take |
| Loader.TriedSettles | bin/ld.c:737-740 | after a member was tried, no symbol that its table of contents entry names is still needed |
| Loader.Loader.Meet | bin/ld.c:801-814 | lookup, enter and the rules for commons on the real table do one step of the list |
| Loader.Loader.ReadSyms | bin/ld.c:785-815 | the loop of load1 over the real table computes the list after the module and the count of definitions |
| Loader.Loader.Load1 | bin/ld.c:745-840 | a file is loaded, a member exactly if it defines something needed, and else backed out; sizes, origins and known names follow; a bad header always ends the run |
| Loader.Loader.Ldrand | bin/ld.c:716-743 | one pass; if it adds no symbol, no name of an accurate table of contents is needed any more, and no member named there for a symbol that is undefined or a common has anything left to define |
| Loader.Loader.Search | bin/ld.c:650-651 | the passes end, and then no symbol undefined with value 0 is named in the table of contents, no member named there for an undefined symbol or common has anything left to define; only members of the library were loaded |
| LoadRules.CommonIsLargest | bin/ld.c:801-808 | a name that a module only asks for becomes a common of the largest size asked for |
| LoadRules.FirstWins | bin/ld.c:801-814 | the first definition of a name counts, a text symbol only if no common was asked for |
| LoadRules.TextLeavesCommon | bin/ld.c:810-811 | a text symbol leaves a common what it is |
| LoadMap.WrapTwice | bin/ld.c:940-950 | adding a scale and then a base in 32-bit words is adding their sum |
| LoadMap.PassesAgree | bin/ld.c:1143-1164 | the value pass 2 computes for the definition that pass 1 chose is the value fixed between the passes |
| LoadMap.CommonsApart | bin/ld.c:888-903 | commons lie apart in their region, each aligned by its size |
| LoadMap.SameKindApart | bin/ld.c:1223-1225 | text, data and bss of different modules are disjoint |
| LoadMap.OtherKindsApart | bin/ld.c:911-917 | text, data and bss regions of any two modules are disjoint from each other |
| LoadMap.CommonInside | bin/ld.c:948-951 | a common ends up inside the region of commons, at the address in the final table |
| LoadMap.CommonsLieApart | bin/ld.c:911-917 | commons are disjoint from all text, data and bss |
| LoadMap.CommonsLieApartFromEachOther | bin/ld.c:888-903 | and from each other |
| LoadMap.Linker.PlaceCommons | bin/ld.c:888-909 | the loop over the real table gives every common its place and returns their total size |
| LoadMap.Linker.SetFinal | bin/ld.c:920-953 | the loop over the real table adds each symbol its region's base |
| LoadMap.Linker.Middle | bin/ld.c:842-953 | the table after middle, entry by entry, and the origins for pass 2 |
| LoadMap.Linker.Resolve | bin/ld.c:1134-1209 | references lead to the table's symbol of their name; exactly the definitions that differ from the table are reported |
| LoadMap.Linker.Load2 | bin/ld.c:1097-1227 | one module of pass 2, and the origins of the next |
| LoadMap.Linker.Pass2 | bin/ld.c:1065-1095 | over all loaded modules no definition chosen in pass 1 is reported as multiply defined, and no symbol is missing |
| LoadImage.SecondLands | bin/ld.c:1823-1832 | text, data and bss of a module are moved as a whole from where its own header puts them, data page-rounded for NMAGIC and ZMAGIC, bss right behind the data, to its places in the output |
| LoadImage.MovedInside | bin/ld.c:1106-1112 | an address so many bytes into a module's region is as many bytes into that region of the output |
| LoadImage.ImageInOrder | bin/ld.c:875-885 | text begins at textbase, data at a page boundary or long word behind it and hsize further, commons behind the data |
| LoadImage.BssBehindCommons | bin/ld.c:912-916 | bss begins at the first long word behind the commons, at once if none were given places |
| LoadImage.PartsPacked | bin/ld.c:1223-1225 | modules follow one another: texts at once, data and bss each at the next long word |
| LoadImage.EndsAreEnds | bin/ld.c:886-889 | all text is below the end of text, all data below the end of data, all bss below the end, and the last module's come up to it |
| LoadImage.SpecialsAreEnds | bin/ld.c:886-889 | _etext, _edata and _end, where nothing else defines them, are the ends of text, data and bss |
| LoadImage.CommonLands | bin/ld.c:890-905 | a common gets an address between the data and the bss, with room for its size, aligned by it |
| LoadRun.AllResolved | bin/ld.c:1143-1164 | every defined symbol came from a symbol of a loaded module: its entry is that symbol's address moved with its text, data or bss, and it is not reported |
| LoadRun.AllCompleted | bin/ld.c:877-939 | every symbol without a definition: a common gets a place in the bss, a name of the loader's own the end it names, any other stays undefined |
| LoadRun.ReportsAreRight | bin/ld.c:1143-1164 | a definition is reported as made twice exactly if the final table has not that definition for its name |
| LoadRun.LoadOne | bin/ld.c:590-656 | one name of the command line: a file is loaded, a library searched until nothing in it is needed |
| LoadRun.Pass1 | bin/ld.c:590-656 | pass 1 over any list of files and libraries: every file is a good one and loaded if it has symbols, and a last library has nothing left that is needed or asked for |
| LoadRun.Link | bin/ld.c:842-953 | for every list of files and libraries: each defined symbol ends up where its module's text, data or bss lies, commons and the loader's names have their places, reports are exactly right; the run fails only for a bad file or a full table |
| BufferedOutput.FlushKeeps | bin/ld.c:1945-1952 | a buffer written to its place is the stream's next stretch of the file, and the next boundary is a block's |
| BufferedOutput.DirectKeeps | bin/ld.c:1909-1919 | so are whole blocks written past the empty buffer |
| BufferedOutput.StepKeepsAll | bin/ld.c:1906-1924 | a step of one stream inside its room leaves every other stream as it was |
| BufferedOutput.BioFile.BOpen | bin/ld.c:1870-1879 | a new stream over a region apart from the others; its first buffer ends at a block boundary |
| BufferedOutput.BioFile.Trip | bin/ld.c:1891-1923 | one trip round the label takes bytes, or makes room so that the next one does |
| BufferedOutput.BioFile.BWrite | bin/ld.c:1883-1924 | the loop ends, the stream's text is the old one and the new bytes, nothing outside the stream's room changes |
| BufferedOutput.BioFile.BPutc | bin/ld.c:292-293 | the same for one byte, with or without a flush |
| BufferedOutput.BioFile.BFlush1 | bin/ld.c:1936-1953 | the buffer is emptied to its place despite the cached file position |
| BufferedOutput.BioFile.BFlush | bin/ld.c:1926-1934 | after any interleaving the file holds each stream's bytes, in order, from the stream's start |
| GrepMatch.PathRises | bin/grep.c:337-442 | positions of a match never go back and never pass the line's end |
| GrepMatch.BackStep | bin/grep.c:372-381 | a back-reference matches exactly the text of its group again |
| GrepMatch.ManyAllows | bin/grep.c:398-420 | a repeated item may stop at every place up to where its characters end, and nowhere else |
| GrepMatch.AllTried | bin/grep.c:433-437 | when every number of repetitions has failed there is no match |
| GrepMatch.Matcher.Ecmp | bin/grep.c:470-477 | true exactly if the two stretches hold the same text; never reads past the NUL |
| GrepMatch.Matcher.Scan | bin/grep.c:398-415 | the scan stops at the first character that does not fit, at the NUL at the latest |
| GrepMatch.Matcher.TryFewer | bin/grep.c:417-437 | true exactly if some number of repetitions leads to a match, with the shortcut for a plain next character |
| GrepMatch.Matcher.Advance | bin/grep.c:329-442 | ends, and is true exactly if some choice of positions matches the items from there on |
| GrepMatch.Matcher.Execute | bin/grep.c:297-322 | found exactly if the pattern matches from some place, from the start with a caret; the first-character shortcut changes nothing; no state of earlier lines matters |
| GrepCompile.ReadElems | bin/grep.c:202-226 | a bracket expression of characters and ranges is read as the set it means |
| GrepCompile.CompileSpelt | bin/grep.c:171-261 | a pattern written out of pieces compiles to the items the pieces stand for |
| GrepCompile.CompileSpeltWhole | bin/grep.c:162-261 | the same with a caret in front and a dollar behind; RE error exactly if it needs 256 bytes or more |
| GrepCompile.TooLong | bin/grep.c:168-201 | a pattern that needs too many bytes ends in RE error, wherever it gets too long |
| GrepCompile.ClassSound | bin/grep.c:208-222 | a bracket expression never fits the NUL, and the pattern goes on behind it |
| GrepCompile.RestSound | bin/grep.c:171-261 | whatever compiles has groups numbered once, closed after they open, and references to groups opened before |
| GrepCompile.ReadBracket | bin/grep.c:203-217 | the loop over a bracket expression computes that reading |
| GrepCompile.Compile | bin/grep.c:149-264 | the loop over the pattern computes the compiled items or the error |
| GrepGroups.RestRefs | bin/grep.c:248-254 | reading on in the pattern, the items get a reference to an open group exactly if the text has one |
| GrepGroups.CompiledWellFormed | bin/grep.c:248-254 | for every pattern that compiles: the items are well formed exactly if the pattern's text has no reference to a group that is open there |
| GrepGroups.PiecesWellFormed | bin/grep.c:248-254 | a pattern in pieces is well formed exactly if each reference is to a group that is closed |
| GrepGroups.CompilesRefToOpen | bin/grep.c:248-254 | a pattern whose reference is to an open group compiles: only the number of closed groups is compared |
| GrepPieces.ClassFits | bin/grep.c:198-226 | a bracket expression fits exactly the characters it names, one by one or between the ends of a range, and with a caret exactly the others |
| GrepPieces.TopCloses | bin/grep.c:228-246 | a closing bracket closes the group that brackets counted from its opening say, and gets that group's number |
| GrepPieces.LineMeans | bin/grep.c:323-400 | the compiled items match somewhere in a line exactly if its text is taken up piece by piece as the pattern describes, groups and references counted in the pattern |
| GrepPieces.GrepLine | bin/grep.c:266-322 | compiling a written pattern and running it finds a line exactly if the line has what the pieces describe; RE error exactly if the pattern needs too many bytes |
| AccountTable.KeysAgree | etc/sa.c:1066-1075 | two names have the same key exactly if they agree on their first NC characters or up to a NUL before |
| AccountTable.PassedIsAbsent | etc/sa.c:1058-1077 | a name not met before an empty bucket, or in all compared probes, is not in the segment |
| AccountTable.RoomOnPath | etc/sa.c:1078-1082 | in a segment below the load limit one of the compared probes is empty |
| AccountTable.PutKeeps | etc/sa.c:1092-1099 | a new cell at the first empty bucket keeps every path, and is never at the last probe, which is not compared |
| AccountTable.AllocKeeps | etc/sa.c:1008-1022 | a new segment behind the first keeps every cell reachable |
| AccountTable.InstallKeeps | etc/sa.c:1092-1099 | installing a cell keeps the whole table |
| AccountTable.ProbeSegment | etc/sa.c:1058-1077 | the inner loop finds the cell or how far the path goes |
| AccountTable.AcctTable.Search | etc/sa.c:1057-1083 | over all segments: the cell exactly if the name is in the table, else the first segment with room |
| AccountTable.AcctTable.Enter | etc/sa.c:1032-1101 | the same cell exactly for names with the same key; a new cell is appended only if asked for |
| AccountTable.Merge | etc/sa.c:489-515 | the merge puts out every element of the sorted chunks exactly as often as it occurs, in order |
| EditBuffer.ThreeReversals | bin/ed.c:1213-1220 | three reversals exchange two neighbouring stretches |
| EditText.TakeOut | bin/ed.c:827-846 | taking out a marked line keeps the other lines' order and where the last marked one ends up |
| EditText.DotsAgree | bin/ed.c:827-846 | the loop of d keeps the same lines as gdelete; with one line marked the current line is the same exactly if that line is it, or both are the last line or the one before |
| EditText.DotsCanDiffer | bin/ed.c:835-844 | an input where they differ: one marked line, another current |
| EditText.RunCounts | bin/ed.c:160-371 | no command creates a marked line, for all addresses: a, i, c, d, j, m, t, ranged s, u, r, p |
| EditText.SubstCounts | bin/ed.c:1056-1087 | nor does a substitution over any range of lines, with any line breaks |
| EditText.MoveCounts | bin/ed.c:1202-1219 | nor does a move of any block, whose marks go |
| EditText.PassCounts | bin/ed.c:1017-1024 | one pass strictly lowers the number of marked lines, whatever the commands do |
| EditText.GlobalDelete | bin/ed.c:1013-1016 | running d on each marked line through the loop of global leaves exactly the unmarked lines, in order |
| EditText.UndoneSubst | bin/ed.c:315-323 | u after a substitution in a line gives the line back |
| EditText.FailedStays | bin/ed.c:1021-1022 | behind a command that fails no other is run |
| EditLaws.CommasStay | bin/ed.c:171-187 | behind commas the current line stays, every address is read from there, and the last two count; one counts twice |
| EditLaws.SemicolonMoves | bin/ed.c:179-184 | what follows a semicolon is read as from the text whose current line is where the address before it led |
| EditLaws.CommaOrSemicolon | bin/ed.c:179-184 | the second of two lines is counted from the current line behind a comma, from the first line behind a semicolon |
| EditLaws.SearchNearest | bin/ed.c:420-440 | a search meets the nearest matching line below, or above, first, then goes round the buffer; it fails exactly if no line matches |
| EditLaws.NewLines | bin/ed.c:190-236 | a, i and r: new lines stand behind or before the addressed line, all others as they were, the last new one current |
| EditLaws.LinesReplaced | bin/ed.c:195-246 | c, j and t: new lines stand in place of the addressed ones, or copies behind the target, the last of them current |
| EditLaws.DeletedLines | bin/ed.c:808-825 | d: the addressed lines are gone, and the line behind them is current, or the last |
| EditLaws.MovedLines | bin/ed.c:1202-1224 | m: with the block taken out, before and after, the lines are the same; it stands behind the target, its last line current |
| EditLaws.SubstInTwo | bin/ed.c:1056-1087 | s over two stretches is s over the first and then over the second where that has come to lie: no line it brings in is tried |
| EditLaws.SubstInOne | bin/ed.c:1056-1087 | s in one line: an error, nothing, or a new line and those behind its line breaks, and what u needs to give the old one back |
| EditLaws.PrintedAndUndone | bin/ed.c:269-323 | p leaves its last line current and u the line it gives back; no other line changes |
| EditLaws.WithoutAddress | bin/ed.c:474-492 | without addresses r goes to the end, j takes the next line too, the others the current line |
| EditLaws.MarksAre | bin/ed.c:1005-1009 | g marks exactly the addressed lines that match, v those that do not |
| EditLaws.GlobalForAll | bin/ed.c:482-490 | without addresses a global command is for all lines, an error if there are none |
| EditBuffer.Buffer.Reverse | bin/ed.c:1226-1238 | the stretch is reversed in place |
| EditBuffer.Buffer.Grow | bin/ed.c:745-755 | a longer array has the same lines |
| EditBuffer.Buffer.AppendLines | bin/ed.c:737-769 | the new lines stand behind line a, the last of them current |
| EditBuffer.Buffer.RDelete | bin/ed.c:808-825 | exactly the addressed lines go; the line behind them is current |
| EditBuffer.Buffer.GDelete | bin/ed.c:827-846 | exactly the marked lines go, the others keep their order |
| EditBuffer.Buffer.MoveLines | bin/ed.c:1202-1224 | the block stands behind the target line, unmarked, all other lines in order; refused exactly for a target inside the block |
| EditBuffer.Buffer.CopyLines | bin/ed.c:1193-1219 | new lines of the same texts stand behind the target line, all others in order |
| EditBuffer.Buffer.JoinLines | bin/ed.c:1028-1048 | one new line stands for the lines joined; refused exactly if they are too long together |
| EditBuffer.Buffer.SubstLines | bin/ed.c:1056-1087 | the loop over the range: each matching line gets a new word and its line breaks, up to the first that gets too long |
| EditBuffer.Buffer.SearchLine | bin/ed.c:422-439 | the first matching line round the buffer from the current one, which is tried last |
| EditBuffer.Buffer.Addresses | bin/ed.c:171-185 | the last two addresses count, a semicolon moves the current line |
| EditBuffer.Buffer.Mark | bin/ed.c:1005-1009 | exactly the addressed lines that match as asked are marked |
| EditBuffer.Buffer.Run | bin/ed.c:160-371 | a command changes lines, current line and what u remembers as the commands' meaning says, and fails exactly when that says so |
| EditBuffer.Buffer.RunAll | bin/ed.c:1021-1022 | the command list is run to its end or to the first failure |
| EditBuffer.Buffer.GlobalPass | bin/ed.c:1018-1023 | one pass: the mark goes, the line becomes current, the commands run |
| EditBuffer.Buffer.Global | bin/ed.c:1017-1025 | the loop ends, for every command list, in the state that repeated passes for the first marked line lead to |
| EditBuffer.Buffer.GlobalCommand | bin/ed.c:976-1025 | g and v as a whole; no line is marked afterwards unless a command failed |
| Substitute.EndsBeyond | bin/ed.c:1520-1528 | a match at or behind the last substitution ends strictly behind it |
| Substitute.EndsShifted | bin/ed.c:1386-1393 | a match behind the last substitution depends only on the text there |
| Substitute.EndsOnce | bin/ed.c:1520-1528 | with each repeated item as long as it can be, from left to right, a match has one end |
| Substitute.SoEndsShifted | bin/ed.c:1386-1393 | and that end depends only on the text behind the last substitution |
| Substitute.MatchOnce | bin/ed.c:1401-1425 | there is one first match at most |
| Substitute.NextMatchFits | bin/ed.c:1064-1068 | whether a line gets too long is settled by the next match and the text behind it |
| Substitute.BecomesOnce | bin/ed.c:1056-1069 | what becomes of a line is settled by the line, the pattern and the replacement |
| Substitute.ExpandAnd | bin/ed.c:1148-1150 | an ampersand that is not quoted stands for the match |
| Substitute.ExpandPlain | bin/ed.c:1155-1155 | a replacement without one stands for itself, quote bits off, and has no part of the match |
| Substitute.ExpandParts | bin/ed.c:1147-1158 | parts of a replacement are put out one behind the other |
| Substitute.AmpersandBecomes | bin/ed.c:1137-1168 | the replacement & leaves every line as it was, once or everywhere |
| Substitute.AmpersandFits | bin/ed.c:1156-1163 | and makes no line too long |
| Substitute.Substituter.Star | bin/ed.c:1520-1528 | the largest number of repetitions, not ending at locs, that lets the rest match is taken; false exactly if there is none |
| Substitute.Substituter.Advance | bin/ed.c:1428-1533 | true exactly if the items match from there; loc2 is the end with each repeated item as long as it can be |
| Substitute.Substituter.Execute | bin/ed.c:1377-1426 | the first place where the pattern matches, in the line or behind the last substitution, and the end of the match there |
| Substitute.Substituter.DoSub | bin/ed.c:1137-1181 | the text before and behind the match is kept around the expanded replacement; it fails exactly if the line gets too long |
| Substitute.Substituter.SubstituteNext | bin/ed.c:1064-1068 | each pass of the loop leaves strictly less text behind loc2 |
| Substitute.Substituter.SubstituteLine | bin/ed.c:1056-1069 | the first match, or every one from left to right, is replaced; a line without a match is untouched, and so is one whose matches are replaced by &; it fails exactly if one of these replacements makes the line too long |
| FragCount.FreeInAll | etc/mkfs.c:589-614 | whole blocks and loose fragments together make up all that is free |
| FragMap.IsBlockMeans | etc/mkfs.c:838-865 | isblock holds exactly if every fragment of the block is free, for each legal fragments-per-block |
| FragMap.SetBlockAt | etc/mkfs.c:901-927 | setblock frees exactly the fragments of its block |
| FragMap.ClrBlockAt | etc/mkfs.c:870-896 | clrblock takes exactly the fragments of its block |
| FragMap.ContainsMask | etc/mkfs.c:846-857 | a byte contains a mask exactly if it has all the mask's bits |
| CylinderGroup.WantedCount | etc/mkfs.c:587-589 | fs_dsize grows by the number of free fragments of the group |
| CylinderGroup.BlockChanged | etc/mkfs.c:728-748 | a whole block broken up lowers the count of whole blocks by one and raises the loose ones by what is left |
| CylinderGroup.TotalChanged | etc/mkfs.c:730-745 | the file-system totals follow a group's counters |
| CylinderGroup.TotalIs | etc/mkfs.c:617-620 | directories, whole blocks and loose fragments are summed each for itself |
| CylinderGroup.HowManyHold | etc/mkfs.c:741-741 | the fragments asked for hold the size, and fewer would not |
| CylinderGroup.FileSystem.BuildMap | etc/mkfs.c:573-616 | the free map of a new group is exactly what the group's bounds say, and the counters count it |
| CylinderGroup.FileSystem.InitCg | etc/mkfs.c:507-624 | free in a new group is exactly what is below the superblock's copy, but in the first group, and between its tables and its end; its counters equal those recounted, and the totals are their sums |
| CylinderGroup.FileSystem.FirstWhole | etc/mkfs.c:723-727 | with a whole block counted the search finds the first one: its internal error cannot happen |
| CylinderGroup.FileSystem.Alloc | etc/mkfs.c:702-752 | the first whole block is taken but for the fragments that the size does not need; a whole block less, that many loose fragments more, in the group and in the totals; it fails exactly if no whole block is counted |
| CylinderGroup.FileSystem.MapFromUsed | etc/icheck.c:517-552 | the rebuilt map is the complement of the used map within the group, and its counters agree |
| CylinderGroup.FileSystem.MakeCg | etc/icheck.c:455-560 | so for every group, and the totals are the sums |
| Floppy.EntriesApart | etc/arff.c:412-430 | files of a segment lie one behind the other, inside it |
| Floppy.PlaceKept | etc/arff.c:717-721 | a stretch of entries exchanged for another as long moves no other file |
| Floppy.AddedKeeps | etc/arff.c:694-733 | adding a file in a free entry moves no other file and keeps the segment's total |
| Floppy.AddedFound | etc/arff.c:717-735 | the new file lies where the free entry began |
| Floppy.RemovedKeeps | etc/arff.c:785-804 | removing a file moves no other file and keeps the total |
| Floppy.MergedKeeps | etc/arff.c:815-820 | joining two free entries moves no file and keeps the total |
| Floppy.ScrunchSegment | etc/arff.c:814-823 | the loop leaves no two adjacent free entries in the segment |
| Floppy.Directory.Lookup | etc/arff.c:394-434 | the first file of that name, at the place the lengths before it add up to |
| Floppy.Directory.MkEnt | etc/arff.c:694-736 | the entry and the free rest behind it; it fails exactly if the segment has no room for the rest's entry |
| Floppy.Directory.Rtk | etc/arff.c:785-804 | the file's entry becomes free; every other name is found where it was |
| Floppy.Directory.Scrunch | etc/arff.c:806-828 | no adjacent free entries anywhere, every file where it was, every total the same |
| Floppy.Directory.Rtr | etc/arff.c:640-692 | reused if it fits, else put in the first free entry large enough, refused if that one's segment has no room for what is left over; every other file where it was |

## Left out

- `realloc`, `calloc` and `bcopy` of new/malloc.c, and a failing `sbrk`.
- Disk, tape and terminal errors, signals, and the exits of `longjmp`: an error is a result here.
- The constants NICFREE, NINDIR, NADDR and NSHIFT of old/512restor.c come from headers that are not part of this model; they are 50, 128, 13 and 7.
- Restor.Restorer.GetFile: starts from an all-zero address array; the first address that the original copies from the dump is not modelled.
- bin/ed.c: `k` marks and the addresses that name them, `e`, which starts the buffer anew, and writing files.
- EditBuffer.Buffer.Run: the texts behind the words.  Which words a pattern matches, or a substitution makes too long, are sets that the command carries; the word of a new line is the next even number.  A full temporary file is an error of `TempFile` only.
- EditBuffer.Buffer.RDelete: the original may read one word behind its array; the model's array has that word.
- Substitute.Substituter.Advance: patterns with groups or back-references are not modelled; for them the loop of `s///g` need not end.
- SymbolTable.SymTab.Lookup: the segments' lazy allocation; all 40 start empty.
- SymbolTable.SymTab.SymFree: the null mark of a table nothing was ever entered in.  The original then walks to before its first segment; a library with a table of contents never brings it there.
- LoadMap.Linker.Middle: -A and -D, the list of undefined symbols that is printed, and debugger symbols.
- LoadMap.Linker.Load2: the relocation of text and data bytes, and what is written to the output file.
- Loader.Loader.Search: archives without a usable table of contents; a member's offset is its number.
- BufferedOutput.BioFile.BFlush: the chain that `-z` starts anew after the header.
- GrepMatch.Matcher.Advance: starred back-references, and characters outside 7 bits.
- GrepCompile.Compile: a trailing backslash and a bracket not closed behind a dash, where the original reads past the pattern, are a result of their own; classes are sets, not bit maps.
- AccountTable.AcctTable.Enter: the clean-up passes that rename cells, and the chunks that cells are allocated in.
- AccountTable.Merge: the sort of each chunk is the C library's; ranks stand for the comparison.
- CylinderGroup.FileSystem.InitCg: inode maps, rotational tables and `cg_frsum`; layout macros are numbers.  A group so short that the block its own tables cut reaches behind the group's end is not modelled: the original marks fragments behind the end as free there.
- CylinderGroup.FileSystem.MakeCg: `fragacct` and its tables.
- Floppy.Directory.Rtr: the file's contents, dates, the conversion to RAD50, and -m and -o.
- Games, terminal setup, mail, process control, option parsing and printing would add easy members.

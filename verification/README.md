# Patrons: verification model

Patrons keeps a 32-bit Android process from running out of address space by shrinking ART's region
space, and finds the functions it needs through a bundled copy of xhook. This project models the parts
of that code that carry an algorithm, in the form the code has, and proves what they promise.

| files | what they model |
|---|---|
| `CString`, `Options`, `Bits` | `strcmp` order; absent values; powers of two, bitwise operators and remainders on unbounded numbers |
| `RbImage`, `RbLinks`, `RbInsert`, `RbRemove`, `RbLookup` | the red-black tree of `tree.h`, on nodes with left, right and parent links |
| `SplayImage`, `SplayCost`, `Splay` | the top-down splay tree of `tree.h`, and what it costs in the long run |
| `TailQ` | the tail queues of `queue.h`, whose back links are addresses |
| `Sleb128`, `PackedRelocs` | the SLEB128 decoder and the `APS2` relocation iterator of `xh_elf.c`, and the packing they undo |
| `ElfHash`, `SymbolLookup` | the two symbol hashes and hash-table lookups of `xh_elf.c` |
| `KnownAnswers`, `KnownTables` | bytes, names and a hash table in numbers, with what decoder, hashes and lookup make of them |
| `Dynamic` | the dynamic-section loop of `xh_elf_init` |
| `Hook` | `xh_elf_hook`: lookup, three relocation tables, one update of memory |
| `ElfHook` | `xh_elf_init` behind the program headers and `xh_elf_hook` together: from dynamic entries to memory |
| `ElfTables` | what the fields of an initialised library lead to, table by table and word by word |
| `MemProtect` | `xh_util_get_mem_protect` and the page macros of `xh_util.c` |
| `HookFilter`, `Reconcile`, `Refresh` | `xh_core_refresh_impl`: which libraries are looked at, the reconciliation on maps, and its refinement by the two red-black trees |
| `HookLibraries`, `RefreshHooks` | `xh_core_hook_impl`: all hooks of one library, of several, and of a refresh, as what they make of memory |
| `RefreshProtocol`, `RefreshOutcomes` | the mutexes and the condition variable between requesters, refresh thread, synchronous refreshers and `xh_core_clear`, and what each call comes to over a run |
| `Shrink` | the timer-driven shrink controller of `_Patrons.java` over the clamp of `patrons_core.c`, raced by the allocator |

How the parts fit together:

- Trees. A node's fields live in the heap; a ghost image (a tree as a value, and a zipper for the loops
  that climb) says what they hold. Each macro is a method whose result is an image, and pure lemmas
  show that the image keeps the node sequence and the colour rules. Removal relinks nodes and never
  copies their contents, which is why `RbLookup.RemoveEach` may hold the next node while it removes one
  and why `Refresh` may move a node from one tree to another.
- Splaying. A round of the loop handles one or two levels of the search path. The potential is the sum over
  all subtrees of the whole part of lg of their size; while a splay goes on the side trees are counted as
  large as they will be in the end, which the search path decides (`SplayCost.Over`, `SplayCost.Under`).
- `SPLAY_REMOVE` returns its argument, not the node it took out; the model does the same.
- ELF. Word width is a parameter throughout. `Hook.Hook` composes the symbol lookup and the packed
  iterator: on a well-formed table its effect is a function of the relocations alone, not of how they
  were grouped or encoded. `ElfHook` builds what `Hook` works on from the fields `Dynamic` leaves and the
  bytes they point to. Methods of the iterator also run on malformed input; what they promise then
  is that they stay in range and end.
- The decoder's shifts of a word's width or more, which C leaves undefined and which need an encoding
  of more than ceil(W/7) bytes, are taken to give 0.
- Hook addresses are words of memory indexed by address; `*old_func` is a cell of its own, so it is not
  one of the slots. A cell never written reads as 0, and no access faults.
- Refresh. The mapping list comes as parsed records. Regular expressions and the ELF header check are
  predicates. `*(hi->base_addr)` is written before repetitions are noticed, so a caller's cell ends with
  the last eligible base while the tree keeps the first (`Refresh.TakeLines`, `Reconcile.FirstBaseKept`).
- Threads. A step is what a thread does between two points where others can see a difference. A spurious
  wake-up may happen at any time, and does not count as progress. Clear begins when no caller is in
  the initialisation part of `xh_core_refresh`, and no caller enters while it lasts; requests and
  synchronous refreshes already past that point go on.
- Shrink. A run of the timer task does not overlap the foreground and background calls; the allocator,
  which takes the lock, may act before and after the clamp. Step is positive and the checking period at
  least 2 seconds, so that its half is a period `Timer.schedule` accepts. The comment on `periodOfCheck`
  in `Patrons.java` speaks of 10 frequent checks; the code makes 5, and so does the model.

What turned out false of the code, with the exact condition and a failing input each:

- The two hash tables agree on whether a symbol is there: except on the null symbol's name
  (`SymbolLookup.TablesAgree`). They agree on its index exactly when, besides, the searched name is not that
  of two other symbols (`SymbolLookup.IndicesAgreeExactly`); `SymbolLookup.RepeatedName` is an input where it is.
- `xh_util_get_mem_protect` covers the range it is asked for: only the first byte of an empty range and
  of one that reaches the end of the address space (`MemProtect.CheckMeans`, `MemProtect.UncoveredRange`).
- The order of the dynamic entries does not matter: it does for the SysV chain count when both hash tables
  and a chain are there (`Dynamic.ChainCntOrder`, `Dynamic.ChainCntIndependent`, `Dynamic.ChainCntWitness`).
- A library is looked at whenever some hook applies to it: only if the first that matches does
  (`HookFilter.AdmittedMeansFirstApplies`, `HookFilter.PassedOver`).
- A shrink that is reported has happened: not where protected mode drops the first check's refusal, nor
  where the allocator has reached the target before the lock (`Shrink.SilentFailure`,
  `Shrink.RefusedButReported`, `Shrink.OvertakenButReported`).
- A refresh is refused only if setting up has failed: also while another caller's first call is setting up,
  since the flag tested first is set before the outcome is known (`RefreshOutcomes.Refused`,
  `RefreshOutcomes.RefusedThread`, `RefreshOutcomes.RefusedThoughFine`).

## Model

| member | source | states |
|---|---|---|
| `RbLinks.RotateLeft` | patrons/src/main/cpp/xhook/tree.h:343-361 | The rotation macro leaves every left, right, parent and root link as the image of the tree with the two nodes exchanged prescribes, anywhere in a tree |
| `RbLinks.RotateRight` | patrons/src/main/cpp/xhook/tree.h:363-381 | The mirror image |
| `RbInsert.FixedLeftRules` | patrons/src/main/cpp/xhook/tree.h:415-430 | One round of the insertion fix-up, on the left: the colour rules hold again but for at most one red-red edge, now two levels higher or gone |
| `RbInsert.FixedLeftOrder` | patrons/src/main/cpp/xhook/tree.h:415-430 | The round keeps the in-order sequence of nodes |
| `RbInsert.FixLeft` | patrons/src/main/cpp/xhook/tree.h:415-430 | The link and colour writes of the round produce exactly that tree; the grandparent exists |
| `RbInsert.FixedRightRules` | patrons/src/main/cpp/xhook/tree.h:431-447 | The same for the mirror-image round |
| `RbInsert.FixedRightOrder` | patrons/src/main/cpp/xhook/tree.h:431-447 | It keeps the in-order sequence |
| `RbInsert.FixRight` | patrons/src/main/cpp/xhook/tree.h:431-447 | Its writes produce exactly that tree |
| `RbInsert.InsertColor` | patrons/src/main/cpp/xhook/tree.h:408-450 | RB_INSERT_COLOR ends, restores black root, no red-red edge and equal black heights, and keeps the node sequence |
| `RbInsert.Insert` | patrons/src/main/cpp/xhook/tree.h:598-626 | RB_INSERT of any element on any valid tree: with the key absent it joins at its place in the sorted sequence, otherwise the node with the key (an element already in the tree: itself) is returned and nothing changes; all links, order and colour rules hold afterwards |
| `RbRemove.SiblingExists` | patrons/src/main/cpp/xhook/tree.h:459-469 | Where a black is missing the sibling that RB_REMOVE_COLOR dereferences is a node |
| `RbRemove.FreedLeftRules` | patrons/src/main/cpp/xhook/tree.h:460-464 | A red sibling is rotated away without spoiling the rules elsewhere |
| `RbRemove.BothBlackRules` | patrons/src/main/cpp/xhook/tree.h:465-471 | With black nephews the missing black moves one level up |
| `RbRemove.MendedLeftRules` | patrons/src/main/cpp/xhook/tree.h:472-490 | With a red nephew the rotations and recolouring supply the missing black |
| `RbRemove.MendedRightRules` | patrons/src/main/cpp/xhook/tree.h:505-523 | The mirror image |
| `RbRemove.RoundLeft` | patrons/src/main/cpp/xhook/tree.h:458-490 | The writes of one round on the left produce that tree |
| `RbRemove.RoundRight` | patrons/src/main/cpp/xhook/tree.h:491-524 | And on the right |
| `RbRemove.RemoveColor` | patrons/src/main/cpp/xhook/tree.h:452-528 | RB_REMOVE_COLOR ends and turns a tree short of one black into a red-black tree with the same node sequence |
| `RbRemove.RemoveTwo` | patrons/src/main/cpp/xhook/tree.h:539-578 | Removal of a node with two children: its successor takes over its links and colour by relinking, not by copying |
| `RbRemove.Remove` | patrons/src/main/cpp/xhook/tree.h:530-595 | RB_REMOVE on any valid tree and any of its nodes: exactly that node leaves the sorted sequence, every other node stays the same object at its place, and all links, order and colour rules hold afterwards |
| `RbImage.HeightBound` | patrons/src/main/cpp/xhook/tree.h:54-63 | The height of every red-black tree is at most 2 lg (n+1), as the file's own comment promises |
| `RbLookup.Find` | patrons/src/main/cpp/xhook/tree.h:629-644 | RB_FIND returns the node with the key, or null if there is none; its comparisons are the nodes of the search path, so within that bound |
| `RbLookup.Nfind` | patrons/src/main/cpp/xhook/tree.h:647-665 | RB_NFIND returns the least node not below the key, with the same comparisons |
| `RbLookup.MinMax` | patrons/src/main/cpp/xhook/tree.h:711-724 | RB_MINMAX returns the first or the last node of the sequence |
| `RbLookup.Next` | patrons/src/main/cpp/xhook/tree.h:668-687 | RB_NEXT returns the next node of the sequence, climbing by parent links where needed |
| `RbLookup.Prev` | patrons/src/main/cpp/xhook/tree.h:690-709 | RB_PREV returns the one before |
| `RbLookup.RemoveEach` | patrons/src/main/cpp/xhook/tree.h:748-751 | RB_FOREACH_SAFE around RB_REMOVE visits every node once in ascending order and leaves an empty tree |
| `Splay.RotateRight` | patrons/src/main/cpp/xhook/tree.h:89-93 | The rotation at the head, with both side trees untouched |
| `Splay.RotateLeft` | patrons/src/main/cpp/xhook/tree.h:95-99 | The mirror image |
| `Splay.LinkLeft` | patrons/src/main/cpp/xhook/tree.h:101-105 | Handing the root and its right part to the right side tree |
| `Splay.LinkRight` | patrons/src/main/cpp/xhook/tree.h:107-111 | Handing the root and its left part to the left side tree |
| `Splay.Assemble` | patrons/src/main/cpp/xhook/tree.h:113-118 | The two side trees become the root's subtrees |
| `Splay.SplayTo` | patrons/src/main/cpp/xhook/tree.h:210-243 | SPLAY keeps the in-order sequence; its root has the key if it is there, and is otherwise a neighbour of the key's place; its rounds and twice the new potential are at most twice the old one plus 6 lg n + 2, and no round comes more than two nodes nearer to the key, so that at least half the search path is counted |
| `SplayCost.LinkLeftCost` | patrons/src/main/cpp/xhook/tree.h:220-229 | A round without rotation is paid for by the ranks lost, together with the round after it |
| `SplayCost.TwiceLeftCost` | patrons/src/main/cpp/xhook/tree.h:220-229 | A round with a rotation is paid for by the ranks it loses |
| `SplayCost.JoinedPot` | patrons/src/main/cpp/xhook/tree.h:113-118 | The assembled tree has no more potential than the parts were counted with |
| `SplayCost.Balance` | patrons/src/main/cpp/xhook/tree.h:50-52 | The Balance Theorem: any m operations from the empty tree, with never more than n nodes, take at most m (12 lg n + 4) rounds of splaying |
| `SplayCost.Accesses` | patrons/src/main/cpp/xhook/tree.h:51-52 | Any m accesses to any tree of n nodes take at most m (6 lg n + 2) + 2 n lg n rounds |
| `Splay.MinMax` | patrons/src/main/cpp/xhook/tree.h:248-279 | SPLAY_MINMAX keeps the sequence and brings its first or last node to the root, within the bound of a splay |
| `Splay.Find` | patrons/src/main/cpp/xhook/tree.h:129-138 | SPLAY_FIND answers whether the key is there, with its node at the root, within the bound of a splay |
| `Splay.Next` | patrons/src/main/cpp/xhook/tree.h:140-152 | SPLAY_NEXT returns the successor of a node of the tree |
| `Splay.Insert` | patrons/src/main/cpp/xhook/tree.h:165-187 | SPLAY_INSERT of any element: it joins the sorted sequence, or the node with its key is returned (an element already in the tree: itself); amortised 8 lg n + 2 rounds |
| `Splay.LastHasNoRight` | patrons/src/main/cpp/xhook/tree.h:198-202 | Splaying the left subtree by the removed key leaves a root without right child, so that hanging the right subtree there loses nothing |
| `Splay.Remove` | patrons/src/main/cpp/xhook/tree.h:189-208 | SPLAY_REMOVE takes exactly the node with the argument's key out of the sequence, and returns its argument; amortised 12 lg n + 4 rounds |
| `Sleb128.EncodeInverse` | patrons/src/main/cpp/xhook/xh_elf.c:111-135 | The reference encoding denotes the number it encodes |
| `Sleb128.EncodeLength` | patrons/src/main/cpp/xhook/xh_elf.c:113-126 | Numbers of 7n bits take at most n bytes |
| `Sleb128.Padded` | patrons/src/main/cpp/xhook/xh_elf.c:118-126 | Padding an encoding by a byte leaves its number |
| `Sleb128.CollectByte` | patrons/src/main/cpp/xhook/xh_elf.c:124-125 | Shifting and ORing in a byte collects its seven bits modulo the word size |
| `Sleb128.ExtendSign` | patrons/src/main/cpp/xhook/xh_elf.c:128-131 | ORing in minus a power of two extends the sign |
| `Sleb128.Decoder.Next` | patrons/src/main/cpp/xhook/xh_elf.c:111-135 | For every word width and every encoding, minimal or padded, the decoder yields the signed number modulo the word size and consumes exactly the encoding; on input cut short it reports a format error and reads nothing past the end |
| `PackedRelocs.Iterator.ReadGroupFields` | patrons/src/main/cpp/xhook/xh_elf.c:174-206 | A group header: size, flags and the shared fields its flags announce, with the addend accumulated or cleared |
| `PackedRelocs.Iterator.Next` | patrons/src/main/cpp/xhook/xh_elf.c:208-256 | The next relocation of any well-formed section, whatever the grouping; total, ending and in range on any other input |
| `PackedRelocs.Iterator.Init` | patrons/src/main/cpp/xhook/xh_elf.c:169-171 | The two leading words: the count and the start offset |
| `PackedRelocs.Open` | patrons/src/main/cpp/xhook/xh_elf.c:160-172 | After the two leading words the whole list lies ahead |
| `PackedRelocs.DecodeAll` | patrons/src/main/cpp/xhook/xh_elf.c:160-256 | For every grouping, every valid flags and every encoding of the words, init and repeated next yield exactly the list of relocations modulo the word size, then NULL |
| `PackedRelocs.PackThenDecode` | patrons/src/main/cpp/xhook/xh_elf.c:160-256 | Packing any fitting groups and decoding gives the relocations back |
| `PackedRelocs.EveryListFits` | patrons/src/main/cpp/xhook/xh_elf.c:174-256 | Every list of relocations, the empty one included, has a fitting grouping |
| `PackedRelocs.WordsDetermined` | patrons/src/main/cpp/xhook/xh_elf.c:111-135 | The bytes determine the words: no byte string encodes two sections |
| `PackedRelocs.AddendsMean` | patrons/src/main/cpp/xhook/xh_elf.c:188-202 | The addends of a group that fits: 0 without the addend flag (8), the group's own with both addend flags (8 and 4) |
| `PackedRelocs.SharedMeans` | patrons/src/main/cpp/xhook/xh_elf.c:182-230 | With flag 1 all have the group's info; with flag 2 each lies the group's distance behind the one before, the first behind what came before the group |
| `PackedRelocs.NothingShared` | patrons/src/main/cpp/xhook/xh_elf.c:208-256 | The words of two relocations that share nothing and of one behind them without addend: differences to the one before, in this order |
| `KnownAnswers.KnownNumbers` | patrons/src/main/cpp/xhook/xh_elf.c:111-135 | Six encodings in bytes and their numbers, as section 7.6 of DWARF version 4 gives them |
| `KnownAnswers.KnownSection` | patrons/src/main/cpp/xhook/xh_elf.c:160-256 | A packed section of 23 bytes with each kind of group decodes to four relocations given in numbers |
| `ElfHash.StepsAgree` | patrons/src/main/cpp/xhook/xh_elf.c:306-311 | Clearing the top four bits as the code does equals the gABI's way, and leaves the hash below 2^28 |
| `ElfHash.Hash` | patrons/src/main/cpp/xhook/xh_elf.c:301-314 | The hash of a name of any length is the gABI hash in 32-bit wrapping arithmetic |
| `ElfHash.DjbWraps` | patrons/src/main/cpp/xhook/xh_elf.c:317-326 | Wrapping at each step of the GNU hash equals wrapping once at the end |
| `ElfHash.HashGnu` | patrons/src/main/cpp/xhook/xh_elf.c:317-326 | The GNU hash is 33h + c over the name, modulo 2^32 |
| `ElfHash.GnuHashClosed` | patrons/src/main/cpp/xhook/xh_elf.c:317-326 | In one formula: 5381 times 33^n and each character times 33 to the number of those behind it, modulo 2^32 |
| `KnownAnswers.GnuHashOfExit` | patrons/src/main/cpp/xhook/xh_elf.c:317-326 | The GNU hash of `exit` is 0x7c967e3f |
| `KnownAnswers.SysvHashOfSyscall` | patrons/src/main/cpp/xhook/xh_elf.c:301-314 | The System V hash of `syscall` is 0xb09985c |
| `SymbolLookup.SysvLookup` | patrons/src/main/cpp/xhook/xh_elf.c:356-375 | For well-formed tables the lookup ends and succeeds exactly when a symbol other than the first has the name; its index is the first one of the chain |
| `SymbolLookup.SysvScanFinds` | patrons/src/main/cpp/xhook/xh_elf.c:356-375 | That first one of the chain is a symbol with the name, and there is none exactly when no symbol but the null symbol has it |
| `SymbolLookup.BloomTest` | patrons/src/main/cpp/xhook/xh_elf.c:382-388 | The test of the masked word is the test of the two bits |
| `SymbolLookup.BloomKnows` | patrons/src/main/cpp/xhook/xh_elf.c:387-388 | The bloom filter has no false negatives |
| `SymbolLookup.ChainTurn` | patrons/src/main/cpp/xhook/xh_elf.c:395-411 | Ignoring the low bit of the hash loses no match, and that bit ends the walk exactly behind the last candidate |
| `SymbolLookup.GnuLookupDef` | patrons/src/main/cpp/xhook/xh_elf.c:377-414 | The lookup among the hashed symbols returns what a scan of all of them returns, and stays inside the table |
| `SymbolLookup.GnuLookupUndef` | patrons/src/main/cpp/xhook/xh_elf.c:416-431 | The lookup among the others is the scan of them |
| `SymbolLookup.GnuLookup` | patrons/src/main/cpp/xhook/xh_elf.c:433-438 | Together: the scan of the defined symbols followed by that of the undefined ones, same result and same index |
| `SymbolLookup.BuiltWellFormed` | patrons/src/main/cpp/xhook/xh_elf.c:377-414 | Every symbol list sorted by bucket has such a table |
| `KnownTables.KnownGnuTable` | patrons/src/main/cpp/xhook/xh_elf.c:377-438 | A GNU table in numbers, with two bloom words, two buckets and a chain of three, is well-formed, and what five names are found as in it |
| `KnownTables.ChangedGnuTable` | patrons/src/main/cpp/xhook/xh_elf.c:377-414 | With one of its words changed it is not: low bits of the chain, bucket starts, bloom word or shift |
| `SymbolLookup.FindSymidx` | patrons/src/main/cpp/xhook/xh_elf.c:440-446 | The search through whichever table the file has |
| `SymbolLookup.TablesAgree` | patrons/src/main/cpp/xhook/xh_elf.c:356-446 | For every list of names: the two tables of one symbol list both find a name or both do not, exactly when it is not the null symbol's or is also another symbol's |
| `SymbolLookup.IndicesAgree` | patrons/src/main/cpp/xhook/xh_elf.c:356-446 | For a name that no two symbols but the null symbol share, both tables give the same index exactly when the name is not the null symbol's, or is also that of a hashed one |
| `SymbolLookup.IndicesAgreeExactly` | patrons/src/main/cpp/xhook/xh_elf.c:356-446 | For every list of names: the GNU index is that of every System V table of the list exactly when the name does not repeat among the other symbols and meets that condition |
| `SymbolLookup.RepeatedName` | patrons/src/main/cpp/xhook/xh_elf.c:356-446 | An instance where it repeats: well-formed tables of three symbols that answer 2 and 1 |
| `Hook.ReplaceFunction` | patrons/src/main/cpp/xhook/xh_elf.c:448-497 | One word: nothing if it holds the function already, an error if its page's protection cannot be read or widened, else the old value is saved and the word set |
| `Hook.FindAndReplaceFunc` | patrons/src/main/cpp/xhook/xh_elf.c:928-989 | One relocation: matched by symbol and type, refused below the base, read only for a null function, else replaced |
| `Hook.HookPlt` | patrons/src/main/cpp/xhook/xh_elf.c:1015-1027 | The PLT loop ends at the first match |
| `Hook.HookDyn` | patrons/src/main/cpp/xhook/xh_elf.c:1029-1040 | The dynamic loop takes every match |
| `Hook.HookAndroid` | patrons/src/main/cpp/xhook/xh_elf.c:1042-1053 | The loop over the packed table takes every match of all its relocations |
| `Hook.Hook` | patrons/src/main/cpp/xhook/xh_elf.c:991-1056 | From the symbol's name to the words written: lookup, the three tables in order, the first error ends it; an unknown symbol is no error and changes nothing |
| `Hook.TargetMeans` | patrons/src/main/cpp/xhook/xh_elf.c:958-973 | A word is a target exactly if it is bias plus offset, modulo the word size, of the first PLT relocation whose info splits into the symbol and the jump-slot type, or of some dynamic or packed one whose info splits into the symbol and one of the two data types |
| `Hook.TargetsByTable` | patrons/src/main/cpp/xhook/xh_elf.c:1015-1053 | The order of the targets: those of the PLT table, the dynamic table, the packed table |
| `Hook.OneMoreTarget` | patrons/src/main/cpp/xhook/xh_elf.c:1029-1053 | A further relocation at the end of the dynamic or the packed table adds its word behind the targets of that table exactly if it is one of the symbol |
| `Hook.FaultMeans` | patrons/src/main/cpp/xhook/xh_elf.c:455-474 | A word can be set exactly if it is not below the base and holds the function already, or its page is readable and writable, or can be made so; otherwise which of the three codes is returned |
| `ElfHook.Init` | patrons/src/main/cpp/xhook/xh_elf.c:797-919 | From the dynamic entries to an initialised library: refused exactly when an entry is refused, the packed table lacks its magic or a field is null; else the fields describe the library the entries declare |
| `ElfHook.InitAndHook` | patrons/src/main/cpp/xhook/xh_core.c:246-283 | End to end, from the dynamic entries and a name to the memory: exactly the slots are set that the declared tables name for the symbol the declared hash table finds, the last original is saved, and a fault ends it behind an exact prefix |
| `ElfHook.OrderIrrelevant` | patrons/src/main/cpp/xhook/xh_elf.c:797-919 | Permuted dynamic entries declare the same library, so hooking it comes to the same |
| `ElfTables.InitialisableNeeds` | patrons/src/main/cpp/xhook/xh_elf.c:797-914 | What can be hooked has a base, a bias and program headers, entries for a string table, a symbol table and one of the hash tables, and no entry that is refused |
| `ElfTables.InitialisableMeans` | patrons/src/main/cpp/xhook/xh_elf.c:797-914 | With those entries and a GNU table: exactly when, besides, none of the addresses they lead to is 0 and a packed table begins with its magic |
| `ElfTables.TablesDeclared` | patrons/src/main/cpp/xhook/xh_elf.c:80-95 | The relocations hooked from are those that the declared addresses and sizes lead to: as many as begin in the table, the k-th at k times the size of one, each from two or three words |
| `ElfTables.PackedDeclared` | patrons/src/main/cpp/xhook/xh_elf.c:891-907 | What is decoded are the bytes behind the four of the magic, if there is a packed table |
| `ElfTables.HashDeclared` | patrons/src/main/cpp/xhook/xh_elf.c:859-885 | Symbol names, bloom words, buckets and chain are those at the declared addresses, element by element |
| `Hook.EndState` | patrons/src/main/cpp/xhook/xh_elf.c:1015-1055 | Hooking succeeds exactly when no target has a fault, and then sets exactly the targets and no other word; otherwise exactly a prefix of them is set and the next one's fault returned |
| `Hook.Repeated` | patrons/src/main/cpp/xhook/xh_elf.c:455-457 | Hooking again changes neither memory nor *old_func |
| `Hook.OldNeverNew` | patrons/src/main/cpp/xhook/xh_elf.c:455-481 | Over any run of hooks in any libraries and writes by others, *old_func never becomes the new function |
| `Hook.SavedIsLastReplaced` | patrons/src/main/cpp/xhook/xh_elf.c:476-481 | After a success *old_func is what the last word replaced held before |
| `Hook.NullOnlyReads` | patrons/src/main/cpp/xhook/xh_elf.c:975-980 | A null function leaves memory as it is and reports the last target's word |
| `Dynamic.Elf.Take` | patrons/src/main/cpp/xhook/xh_elf.c:806-888 | One dynamic entry: it is refused exactly if it points below the base and is not an ignored DT_HASH; else the fields become those of the longer list |
| `Dynamic.Elf.Parse` | patrons/src/main/cpp/xhook/xh_elf.c:804-889 | The loop up to DT_NULL fails exactly if an entry is refused, and otherwise leaves each field as the last entry of its kind declares it |
| `Dynamic.OrderInsensitive` | patrons/src/main/cpp/xhook/xh_elf.c:804-889 | Any permutation of entries with each recognised kind at most once and all pointers in range is accepted and gives the same fields, the SysV chain count apart |
| `Dynamic.ChainCntIs` | patrons/src/main/cpp/xhook/xh_elf.c:859-871 | That count is the table's exactly if DT_HASH stands before any DT_GNU_HASH, and else 0 |
| `Dynamic.ChainCntOrder` | patrons/src/main/cpp/xhook/xh_elf.c:859-871 | So two orders of the same entries give the same count exactly when there is no DT_HASH, it stands first in both or in neither, or its table has no chain |
| `Dynamic.ChainCntIndependent` | patrons/src/main/cpp/xhook/xh_elf.c:859-871 | And all orders do exactly when one of the two tables, or the chain, is missing |
| `Dynamic.ChainCntWitness` | patrons/src/main/cpp/xhook/xh_elf.c:859-871 | The two orders of two entries, with different counts |
| `Dynamic.GnuHashWins` | patrons/src/main/cpp/xhook/xh_elf.c:859-885 | DT_GNU_HASH wins over DT_HASH wherever the two stand |
| `Dynamic.AddressesMean` | patrons/src/main/cpp/xhook/xh_elf.c:812-854 | By tag number: the last entry with tag 5, 6, 23, 17 or 7, 0x6000000f or 0x60000011 gives the address of the string, symbol, PLT, dynamic or packed table |
| `Dynamic.SizesMean` | patrons/src/main/cpp/xhook/xh_elf.c:824-858 | By tag number: 2, 18 or 8, 0x60000010 or 0x60000012 give their sizes in 32 bits, and 20 whether there are addends |
| `Dynamic.AbsentMeans` | patrons/src/main/cpp/xhook/xh_elf.c:812-854 | An address that no entry declares is null |
| `Dynamic.GnuFieldsMean` | patrons/src/main/cpp/xhook/xh_elf.c:872-885 | Which word or address of the GNU table each field is |
| `Dynamic.SysvFieldsMean` | patrons/src/main/cpp/xhook/xh_elf.c:859-871 | Which word or address of the System V table each field is, where there is no GNU table |
| `Dynamic.SysvCountMeans` | patrons/src/main/cpp/xhook/xh_elf.c:859-871 | And the chain count is its second word |
| `Dynamic.RefusedMeans` | patrons/src/main/cpp/xhook/xh_elf.c:812-885 | The entries refused: by tag number those with an address below the base, but not a DT_HASH behind a DT_GNU_HASH |
| `MemProtect.GetMemProtect` | patrons/src/main/cpp/xhook/xh_util.c:44-94 | For any sorted disjoint mappings it succeeds exactly when the checked range is covered by private mappings that pass the path filter, and then returns the intersection of their permissions |
| `MemProtect.CheckMeans` | patrons/src/main/cpp/xhook/xh_util.c:44-94 | The checked range is the whole range, except that of an empty range and of one that reaches or wraps around the end of the address space only the first byte is checked |
| `MemProtect.UncoveredRange` | patrons/src/main/cpp/xhook/xh_util.c:44-94 | Such a range that succeeds although a byte of it is not mapped |
| `MemProtect.InMapMeans` | patrons/src/main/cpp/xhook/xh_util.c:61-68 | A byte counts as mapped exactly if a private mapping holds it that has the wanted path, if one is wanted |
| `MemProtect.OthersRefused` | patrons/src/main/cpp/xhook/xh_util.c:61-68 | So a range whose first byte is mapped shared, or under another path, is refused |
| `MemProtect.IntersectionMeans` | patrons/src/main/cpp/xhook/xh_util.c:70-85 | The permissions given are exactly those that every byte of the range has |
| `MemProtect.MaskRounds` | patrons/src/main/cpp/xhook/xh_util.c:40 | PAGE_START rounds down to a multiple of the page size |
| `MemProtect.CoverIsLeast` | patrons/src/main/cpp/xhook/xh_util.c:40-42 | PAGE_START and PAGE_COVER give the least page-aligned range that holds the word, also where PAGE_END wraps to 0 |
| `TailQ.Head.constructor` | patrons/src/main/cpp/xhook/queue.h:428-431 | TAILQ_INIT makes an empty queue |
| `TailQ.Init` | patrons/src/main/cpp/xhook/queue.h:428-431 | So it does of a queue in memory among others |
| `TailQ.InsertHead` | patrons/src/main/cpp/xhook/queue.h:485-493 | TAILQ_INSERT_HEAD prepends |
| `TailQ.InsertTail` | patrons/src/main/cpp/xhook/queue.h:512-517 | TAILQ_INSERT_TAIL appends, through the address of the last link |
| `TailQ.InsertBefore` | patrons/src/main/cpp/xhook/queue.h:495-500 | TAILQ_INSERT_BEFORE inserts in front of an element without knowing the head |
| `TailQ.InsertAfter` | patrons/src/main/cpp/xhook/queue.h:502-510 | TAILQ_INSERT_AFTER inserts behind an element |
| `TailQ.Remove` | patrons/src/main/cpp/xhook/queue.h:528-535 | TAILQ_REMOVE takes out one element, whose own forward link stays |
| `TailQ.Concat` | patrons/src/main/cpp/xhook/queue.h:519-526 | TAILQ_CONCAT appends the second queue to the first and leaves it empty |
| `TailQ.Swap` | patrons/src/main/cpp/xhook/queue.h:537-552 | TAILQ_SWAP exchanges the contents of two queues |
| `TailQ.InsertedImage` | patrons/src/main/cpp/xhook/queue.h:485-517 | The four words an insertion writes keep every back link the address of the one link that points at its element, and the head's that of the final null link |
| `TailQ.RemovedImage` | patrons/src/main/cpp/xhook/queue.h:528-535 | So do the two words a removal writes |
| `TailQ.Behind` | patrons/src/main/cpp/xhook/queue.h:439-443 | Read as a head, the pair at a link's address leads one element back |
| `TailQ.Last` | patrons/src/main/cpp/xhook/queue.h:442-443 | TAILQ_LAST |
| `TailQ.Prev` | patrons/src/main/cpp/xhook/queue.h:439-440 | TAILQ_PREV |
| `TailQ.ForEach` | patrons/src/main/cpp/xhook/queue.h:445-448 | TAILQ_FOREACH visits the elements in order |
| `TailQ.ForEachReverse` | patrons/src/main/cpp/xhook/queue.h:465-468 | TAILQ_FOREACH_REVERSE visits the reverse |
| `TailQ.Clear` | patrons/src/main/cpp/xhook/xh_core.c:624-635 | TAILQ_FOREACH_SAFE with TAILQ_REMOVE visits each element once and empties the queue |
| `HookFilter.FindHook` | patrons/src/main/cpp/xhook/xh_core.c:360-385 | A library is looked at exactly when the first hook matching its path is not excluded there |
| `HookFilter.HookAll` | patrons/src/main/cpp/xhook/xh_core.c:256-283 | The hooks applied to a library: none if it is excluded whole, else those that match and are not excluded, in the order of registration |
| `HookLibraries.HookImpl` | patrons/src/main/cpp/xhook/xh_core.c:248-283 | The library is initialised once; memory and the cells for old functions are then what the outcomes of the hooks that apply make of them, one after the other |
| `HookLibraries.HookLoads` | patrons/src/main/cpp/xhook/xh_core.c:412-444 | The same over several libraries |
| `HookLibraries.LoadsChange` | patrons/src/main/cpp/xhook/xh_core.c:248-283 | However many libraries are hooked: a word that differs afterwards is a slot, in one of them, of a hook that applies to it, and holds that hook's function |
| `HookFilter.AppliedIs` | patrons/src/main/cpp/xhook/xh_core.c:256-283 | A hook is among them exactly if its pattern matches and no exclusion takes its symbol out |
| `HookFilter.AdmittedMeansFirstApplies` | patrons/src/main/cpp/xhook/xh_core.c:360-385 | The filter admits a library exactly when the first hook that matches it would be applied |
| `HookFilter.PassedOver` | patrons/src/main/cpp/xhook/xh_core.c:360-385 | So a library can be passed over although a later hook would apply: a concrete case |
| `HookFilter.AppliedInOrder` | patrons/src/main/cpp/xhook/xh_core.c:256-283 | Each at most once, in the order of their registration |
| `HookFilter.ExcludedMeans` | patrons/src/main/cpp/xhook/xh_core.c:261-272 | A symbol is taken out of a library exactly if some exclusion matches its path and names this symbol or none |
| `HookFilter.AdmittedMeans` | patrons/src/main/cpp/xhook/xh_core.c:360-385 | Admitted means that there is a hook which matches the path, none before it does, and its symbol is not excluded |
| `HookLibraries.LastHookWins` | patrons/src/main/cpp/xhook/xh_core.c:256-283 | Among the hooks of a library the last one that sets a word decides what it holds |
| `HookLibraries.TwoHooks` | patrons/src/main/cpp/xhook/xh_core.c:256-283 | Two hooks on one word: it ends as the second function, the second's old function is the first one, and the first's old function is what the word held before |
| `HookLibraries.TwoLoads` | patrons/src/main/cpp/xhook/xh_core.c:412-444 | The second of two libraries is hooked in what the first has made of memory |
| `Reconcile.KeysApart` | patrons/src/main/cpp/xhook/xh_core.c:393-444 | The old entries left are those not seen and the new ones those seen, so the duplicate branch of the update side is unreachable |
| `Reconcile.FirstBaseKept` | patrons/src/main/cpp/xhook/xh_core.c:400-444 | Each path gets the base address of its first eligible mapping |
| `Reconcile.HookedExactly` | patrons/src/main/cpp/xhook/xh_core.c:412-444 | The hook runs for exactly the first mapping of each path that is new or whose base changed |
| `Reconcile.HookedOnce` | patrons/src/main/cpp/xhook/xh_core.c:412-444 | And at most once for a path |
| `Reconcile.Again` | patrons/src/main/cpp/xhook/xh_core.c:393-444 | A second refresh of the same mappings runs no hook, keeps every entry and drops none |
| `Reconcile.HookedInOrder` | patrons/src/main/cpp/xhook/xh_core.c:412-444 | The hooks run in the order of the mapping list |
| `Refresh.EligibleMeans` | patrons/src/main/cpp/xhook/xh_core.c:335-391 | A line counts exactly if it is readable, private, at file offset 0, of a path that is neither empty nor bracketed, of an ELF file, and the library is admitted |
| `Refresh.LoadsConcat` | patrons/src/main/cpp/xhook/xh_core.c:330-445 | The lines are taken in their order, each on its own |
| `Refresh.OneLoad` | patrons/src/main/cpp/xhook/xh_core.c:335-391 | A line gives one load, its path and its base, or none |
| `Refresh.Skipped` | patrons/src/main/cpp/xhook/xh_core.c:335-391 | A line that does not count changes no book and no base cell, wherever it stands in the list |
| `Refresh.CellMeans` | patrons/src/main/cpp/xhook/xh_core.c:391 | A hook's base cell ends with the base of the last line that counts and whose first matching hook has this cell, or as it was |
| `Refresh.MoveOver` | patrons/src/main/cpp/xhook/xh_core.c:395-417 | The branch for a known library, on the two trees: removed from one, inserted into the other, re-based without touching the links; no entry appears or is lost |
| `Refresh.AddNew` | patrons/src/main/cpp/xhook/xh_core.c:418-444 | The branch for an unknown one: the new entry is inserted, or dropped if it is a repetition |
| `Refresh.TakeLine` | patrons/src/main/cpp/xhook/xh_core.c:391-444 | An eligible mapping: the hook's base cell is written first, then one step on both trees, with every entry accounted for |
| `Refresh.TakeLines` | patrons/src/main/cpp/xhook/xh_core.c:330-445 | The loop over the mapping list refines the steps on maps, the two trees share no node and no key throughout, and a hook's base cell ends with the last eligible base |
| `Refresh.RefreshImpl` | patrons/src/main/cpp/xhook/xh_core.c:307-468 | The whole refresh on the real trees: the new tree holds each eligible path at its first base and the hooks run are those of the map model; every entry known before or created on the way is either in the tree or freed, once, and of the known ones exactly those not seen are freed |
| `RefreshHooks.RefreshAndHook` | patrons/src/main/cpp/xhook/xh_core.c:307-468 | With the hooks run: memory is afterwards what hooking the new and the moved libraries, one after the other, makes of it |
| `RefreshHooks.SecondRefresh` | patrons/src/main/cpp/xhook/xh_core.c:307-468 | Refreshing again from the same mapping list leaves the known libraries and memory as they are |
| `RefreshHooks.OnlySlotsChange` | patrons/src/main/cpp/xhook/xh_core.c:307-468 | A word that a refresh changes is a slot, in a library that is new or has moved, of a hook that applies to it, and holds that hook's function |
| `RefreshProtocol.StepKeepsInv` | patrons/src/main/cpp/xhook/xh_core.c:470-651 | Every step of every thread, in any interleaving, keeps the invariant: mutexes held exactly between lock and unlock, one refresh thread, no lost wake-up, no lost request |
| `RefreshProtocol.RunKeepsInv` | patrons/src/main/cpp/xhook/xh_core.c:470-651 | So it holds all along every run |
| `RefreshProtocol.RefreshesExclude` | patrons/src/main/cpp/xhook/xh_core.c:491-494 | xh_core_refresh_impl never runs twice at once, nor while clear frees the tree |
| `RefreshProtocol.SleepIsIdle` | patrons/src/main/cpp/xhook/xh_core.c:479-483 | A sleeping thread with the mutex free means no pending request and still running |
| `RefreshProtocol.SomeoneMoves` | patrons/src/main/cpp/xhook/xh_core.c:470-651 | No reachable state deadlocks |
| `RefreshProtocol.Nearer` | patrons/src/main/cpp/xhook/xh_core.c:476-496 | While a request waits, every step of the refresh thread brings the next refresh nearer and no other step defers it |
| `RefreshProtocol.RequestServed` | patrons/src/main/cpp/xhook/xh_core.c:559-577 | Whatever the other threads do, a request is followed by the start of a refresh within nine steps of the refresh thread, as long as it is not told to stop |
| `RefreshProtocol.HolderReleases` | patrons/src/main/cpp/xhook/xh_core.c:501-586 | A caller never waits while it holds a mutex, and comes nearer to releasing it with each step |
| `RefreshProtocol.StepShortens` | patrons/src/main/cpp/xhook/xh_core.c:470-651 | While clear lasts, every step of every thread takes from the work left, spurious wake-ups apart |
| `RefreshProtocol.ClearEnds` | patrons/src/main/cpp/xhook/xh_core.c:588-651 | Clear ends: once begun, all threads together take at most 37 steps, 18 for each caller and 6 for each spurious wake-up until it is over, and until then one of them can take a step |
| `RefreshOutcomes.SyncCall` | patrons/src/main/cpp/xhook/xh_core.c:578-585 | In every run a synchronous call that has returned has refreshed in between, or found the initialisation not done well |
| `RefreshOutcomes.AsyncCall` | patrons/src/main/cpp/xhook/xh_core.c:565-576 | An asynchronous one has noted its request, or found one of the two initialisations not done well |
| `RefreshOutcomes.SyncInitialised` | patrons/src/main/cpp/xhook/xh_core.c:561-583 | Nobody comes to a synchronous refresh but through that test |
| `RefreshOutcomes.RequestInitialised` | patrons/src/main/cpp/xhook/xh_core.c:567-576 | Nobody comes to a request but through the other |
| `RefreshOutcomes.HandlerOnce` | patrons/src/main/cpp/xhook/xh_core.c:501-532 | Between two installations of the signal handler clear has reset the flags |
| `RefreshOutcomes.ThreadOnce` | patrons/src/main/cpp/xhook/xh_core.c:534-557 | Between two creations of the refresh thread too |
| `RefreshOutcomes.FlagsTell` | patrons/src/main/cpp/xhook/xh_core.c:501-557 | What the four flags say, in every state of every run, of the failures since the last clear |
| `RefreshOutcomes.Refused` | patrons/src/main/cpp/xhook/xh_core.c:561-563 | A call is refused exactly when the handler could not be installed since the last clear, or another caller is just installing it |
| `RefreshOutcomes.RefusedThread` | patrons/src/main/cpp/xhook/xh_core.c:567-569 | And likewise for the creation of the thread |
| `RefreshOutcomes.RefusedThoughFine` | patrons/src/main/cpp/xhook/xh_core.c:501-532 | A run of two callers in which the second is refused although nothing fails |
| `RefreshOutcomes.NoMoreThanRequested` | patrons/src/main/cpp/xhook/xh_core.c:476-496 | The refresh thread starts at most as many refreshes as there were requests |
| `RefreshOutcomes.StoppedEnds` | patrons/src/main/cpp/xhook/xh_core.c:476-489 | Told to stop, a thread that waits for requests ends without another refresh |
| `RefreshOutcomes.StoppedAtTop` | patrons/src/main/cpp/xhook/xh_core.c:476-498 | And one at the top of its loop without touching the mutex |
| `RefreshOutcomes.ClearCall` | patrons/src/main/cpp/xhook/xh_core.c:588-651 | A clear that has returned has freed the tree, when neither handler nor thread was set up any more |
| `RefreshOutcomes.ClearJoins` | patrons/src/main/cpp/xhook/xh_core.c:591-600 | A refresh thread is joined, at its end, before that |
| `RefreshOutcomes.ClearLeavesBare` | patrons/src/main/cpp/xhook/xh_core.c:599-609 | When it returns all four flags are off and there is no thread, so that the next call sets up everything again |
| `Shrink.ClampSound` | patrons/src/main/cpp/patrons_core.c:64-81 | Whatever the capacity, clamping leaves begin <= end <= limit, num_regions = (limit - begin) / kRegionSize and the regions in use within them |
| `Shrink.RegionSpace.ClampGrowthLimit` | patrons/src/main/cpp/patrons_core.c:64-81 | The writes under the lock: the space stays sound, and its size becomes the new capacity exactly if that holds more than is in use |
| `Shrink.RegionSpace.ResizeRegionSpace` | patrons/src/main/cpp/patrons_core.c:280-313 | The checks without the lock, then the clamp of whatever the allocator has left meanwhile; a sound space stays sound and never grows |
| `Shrink.Patrons.Init` | patrons/src/main/java/com/alibaba/android/patronus/_Patrons.java:95-120 | Which check of the initialisation fails with which code; success leaves a state from which the runs below start, with the timer at the full period in automatic mode |
| `Shrink.Patrons.Foreground` | patrons/src/main/java/com/alibaba/android/patronus/_Patrons.java:166-169 | Whatever the strict count was, mode and timer agree afterwards |
| `Shrink.Patrons.Stop` | patrons/src/main/java/com/alibaba/android/patronus/_Patrons.java:211-214 | From any state in which mode and timer agree no timer is left, and automatic mode is off |
| `Shrink.Patrons.Count` | patrons/src/main/java/com/alibaba/android/patronus/_Patrons.java:227-235 | One more strict check is counted, and the sixth ends strict mode; mode and timer stay in agreement |
| `Shrink.Patrons.Run` | patrons/src/main/java/com/alibaba/android/patronus/_Patrons.java:224-273 | One run of the timer task over the native side, the target stored before the attempt: its outcome is the task of the model, the space stays sound and never grows, mode and timer agree as before |
| `Shrink.TaskKeeps` | patrons/src/main/java/com/alibaba/android/patronus/_Patrons.java:224-273 | The task of the model keeps that agreement and soundness for every configuration and every allocator |
| `Shrink.RunIsSteps` | patrons/src/main/java/com/alibaba/android/patronus/_Patrons.java:224-273 | And it is exactly the task's steps of the interleaving, with the allocator between check and lock |
| `Shrink.StepKeepsInv` | patrons/src/main/java/com/alibaba/android/patronus/_Patrons.java:224-273 | Every step of the task, the allocator and the two lifecycle calls keeps the invariant of both layers |
| `Shrink.StepKeepsCount` | patrons/src/main/java/com/alibaba/android/patronus/_Patrons.java:246 | Each shrink asked for takes exactly one step off the stored size, whatever comes of it |
| `Shrink.RegionSafe` | patrons/src/main/java/com/alibaba/android/patronus/_Patrons.java:224-273 | In every interleaving the region space stays at least lowerLimit MB and sound |
| `Shrink.OnlyShrinks` | patrons/src/main/cpp/patrons_core.c:280-313 | Its size never grows, and is only ever set to the stored target |
| `Shrink.NetsUnused` | patrons/src/main/java/com/alibaba/android/patronus/_Patrons.java:264-266 | The size is never found below the limit, nor a growth asked for: two checks that are never needed |
| `Shrink.AttemptsBounded` | patrons/src/main/java/com/alibaba/android/patronus/_Patrons.java:237-246 | Shrinks are asked for at most (initial - lowerLimit) / step times |
| `Shrink.OverTicksCounted` | patrons/src/main/java/com/alibaba/android/patronus/_Patrons.java:237-252 | So the task finds the memory over the threshold at most once more than that before it stops |
| `Shrink.HalfPeriodIffStrict` | patrons/src/main/java/com/alibaba/android/patronus/_Patrons.java:227-263 | A live timer has the half period exactly when strictCount is in 1..5 |
| `Shrink.StrictLasts` | patrons/src/main/java/com/alibaba/android/patronus/_Patrons.java:227-235 | After a shrink the next four checks come at the half period and the fifth brings the full one back, as long as nothing is shrunk or stopped |
| `Shrink.TaskDecides` | patrons/src/main/java/com/alibaba/android/patronus/_Patrons.java:237-273 | When a run of the task stores a smaller size and when it stops the controller, for every configuration and state |
| `Shrink.ClampMeans` | patrons/src/main/cpp/patrons_core.c:64-81 | What the clamp writes, in bytes: limit, end and number of regions, or nothing |
| `Shrink.StopsForGood` | patrons/src/main/java/com/alibaba/android/patronus/_Patrons.java:211-214 | Once stopped: no timer, no shrink, same size for ever |
| `Shrink.SilentFailure` | patrons/src/main/cpp/patrons_core.c:280-338 | For every configuration: a shrink is reported without the size changing exactly when protected mode swallows the refusal of the first check, or what is in use has reached the target between check and lock, or the target is the present size |
| `Shrink.RefusedButReported` | patrons/src/main/cpp/patrons_core.c:329-338 | A concrete refusal that protected mode reports as done |
| `Shrink.OvertakenButReported` | patrons/src/main/cpp/patrons_core.c:280-313 | A concrete race, without protection |

## Left out

- JNI entry points, native initialisation, per-device offsets, property reads and dl symbol resolution: foreign tables without a law of their own.
- SIGSEGV handlers and their non-local jumps: no fault is assumed to occur.
- Text parsing of the mapping list, the process status and regular expressions: taken as parsed records and predicates.
- ELF and program header checks, and finding the load bias: plain tests; bias, base and program header are given.
- Allocation failure in refresh: every allocation is granted.
- `ElfHook.InitAndHook`: the tables are read from bytes that hooking does not change, and an end of a table that wraps around the address space is not modelled.
- `Splay.Next`: states no cost; its splay is within the amortised bound, but the walk from there to the successor is not splayed and may take n steps each time.
- `RefreshHooks.RefreshAndHook`: the hooks of a refresh run in their order, but after the loop over the mapping list and not inside it; the loop and the hooks touch nothing in common.
- `HookLibraries.HookImpl`: of a library whose packed table is not well-formed nothing is said of memory, and later libraries depend on it.
- Aliasing between hooked words, relocation tables and `*old_func`, and overlapping words at unaligned addresses: memory is word cells by address.
- Failure to restore a page's protection, which is only logged, and the instruction-cache flush.
- `Hook.Hook`: of a table that is not well-formed it says only which of the relocations yielded were applied.
- `Sleb128.Decoder.Next`: for encodings longer than ceil(W/7) bytes the shifts are undefined in C, as said above.
- `RefreshProtocol.RequestServed`: counts steps of the refresh thread; that a thread which can go on does go on, and that mutexes are granted eventually, is the scheduler's part.
- The result of `shrinkRegionSpace` in protected mode when a fault is caught.
- SLIST, LIST and STAILQ: easier variants of the tail queue that the project does not use.
- `RB_FOREACH_REVERSE` and the FROM variants, which follow from `RbLookup.Prev` and `RbLookup.Next`.
- The native log ring buffer, debug dumps, file writing, the thin wrappers of `xhook.c` and the demo application.

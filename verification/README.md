# Verified models of the hard parts of the operating system

The project models four parts of the system, each with the state the code keeps, and proves what the code relies on.

- **Red-black tree** (`RbShape`, `RbOrder`, `RbLinks`, `RbTree`, `FreeSpace`). The intrusive tree with index links, parent
  pointers and no sentinel. The links live in an array that the methods rewrite in place; a ghost tree and a zipper
  (a subtree and its surroundings) say what the links mean. Insert and remove keep search order, colours, black
  heights and parent links, and change the in-order sequence by exactly the one node. `FreeSpace` is the index of free
  extents of the file system, which keeps one pool of slots in two such trees.
- **Kernel memory** (`BuddyLayout`, `BuddyRegion`, `Buddy`; `PageTree`, `PageRelease`, `PageAccess`, `PageBits`,
  `PageTable`). The buddy allocator with one `page_order` byte per page, stale bytes included, against a partition of each region into
  blocks; the four-level page tables of all address spaces at once, with the kernel half shared between them.
- **PNG and deflate decoding** (`Bits`, `HuffmanCode`, `Huffman`, `Deflate`, `DeflateCodes`, `Supply`, `FixedCode`,
  `Inflate`; `Pixels`, `PngFilter`, `PngSamples`, `PngImage`, `Adam7`, `Png`, `PngBytes`). Canonical Huffman tables with a fast and a slow
  path, blocks with overlapping copies into a growing buffer, row unfiltering, sample unpacking, alpha insertion in
  place and Adam7 placement. Each is proved against the plain definition in RFC 1951 or in the PNG specification,
  second edition.
- **Compositor protocol** (`Handshake`, `EventRing`). The double-buffer handshake and the input event ring, as state
  machines over the atomic steps of the two processes, for every interleaving.

`Powers` holds what the others share about powers of two and alignment, `Options` an option type.

The tables, constants and formats that the code and its contracts share are tied to the numbers of the standards and of
the hardware by results of their own, which do not mention how the model computes them: the length and distance codes of
deflate and the codes of its fixed code (`DeflateCodes`, `FixedCode`), every byte of a decoded PNG image
(`PngBytes`), every bit of a page table entry and of the indices of an address (`PageBits`), and the numbers of the
buddy allocator (`Buddy.OrderIs`, `Buddy.TightFit`, `Buddy.UsableIs`, `BuddyRegion.MetaNumbers`).

Some results say exactly when the code does what it is for:

- A block from `malloc` covers the size asked for exactly if rounding the size up to pages does not wrap at 2^32
  (`Buddy.BlockCovers`); a request of 0xFFFFF001 bytes is one that gets a single page (`Buddy.WrappedSize`).
- Half of a block from `malloc` would never hold the size asked for (`Buddy.TightFit`), and no free block that would do
  is smaller than the one that is cut (`BuddyRegion.Region.Alloc`). No page that holds a `page_order` byte is ever
  handed out, and no page is kept back that holds none (`BuddyRegion.Region.BytesKept`).
- The length checks of the Huffman table builder accept exactly the code lengths that meet the Kraft inequality
  (`HuffmanCode.Kraft`, `Huffman.HuffmanTable.Build`).
- The double-buffer handshake is safe for as many as k frames exactly if k < 2^32. With frame 2^32 the client's
  counter is zero again, `beginFrame` does not wait, and the client draws into the buffer being copied
  (`Handshake.WrapConflict`, `Handshake.SafeBound`). The event ring has no such bound.
- A compressed block is decoded exactly if its bits can be supplied and its output finds room
  (`Inflate.Decoder.CompleteBlock`). Both conditions are computed from the block, without the decoder. There is always
  room in a buffer of the size of the output; otherwise each doubling has to stay below 2^32 and be granted. The bits
  of a block that lies in its input can always be supplied (`Supply.InsideLasts`), so such a block is decoded exactly
  if there is room (`Inflate.Decoder.BlockInside`). If the block is not decoded, the outcome names the reason, and the
  reason holds.
- A block that is cut off before its end may be accepted all the same, because the reader supplies zero bits behind the
  input. The three header bits before the first block always leave 32 bits fetched (`FixedCode.FirstBlock`). From there
  the one byte 0x63, the header of a block in the fixed code and the beginning of a literal, is decoded as a whole block,
  while the four bytes 0x63 0x60 0x60 0x00, with three literals and no end either, are refused
  (`FixedCode.TruncatedAccepted`, `FixedCode.TruncatedRefused`). In general the end-of-block symbol must begin within
  the input or have the code of zero bits, and it ends at most 14 or 62 bits past the input (`Supply.Truncated`,
  `Inflate.Decoder.DonePastInput`). With that code it can be read anywhere past the input (`Supply.EndsPastInput`); it
  is then accepted exactly if input is still to be fetched or the bits fetched reach its end (`Supply.EndAccepted`).
- For every bit depth and channel count, an interlaced PNG image decodes to the output for the same image without
  interlacing (`Png.InterlaceSamePicture`, `Png.DecodeInterlaced`). If the image itself is not too large, the sizes that
  the code checks for each pass are never too large (`Png.PassSizes`).
- A 4 KB page can be written exactly if it is mapped with the write flag and the tables already on its way have the
  write bit, which every table made for it has. It can be reached from user code exactly if it is mapped with the user
  flag and the tables already on its way have the user bit; a table that is already there keeps the bits it has. A 2 MB
  page is reached from user code exactly if no table was missing and both upper entries had the bit, because a table
  made for it never gets it (`PageTable.PageTables.MapPage4KB`,
  `PageTable.PageTables.MapPage2MB`).
- The only frames that are lost are the page tables that 2 MB entries replace: such a table stays allocated, is met by
  no walk again and does not go back to the allocator (`PageTable.PageTables.MapPage2MB`, `PageAccess.CutOffUnmet`).

## Model

| member | source | states |
|---|---|---|
| RbTree.IntrusiveRbTree.Insert | programs/include/RbTree.hpp:27-50 | every red-black, order and link invariant is kept; the in-order sequence gains the node after all nodes it is not less than and before all others, so equal keys keep insertion order |
| RbTree.IntrusiveRbTree.FindParent | programs/include/RbTree.hpp:29-36 | the descent ends at the empty place where the node keeps the sequence sorted |
| RbTree.IntrusiveRbTree.InsertFixup | programs/include/RbTree.hpp:204-261 | a tree whose only fault is a red node under a red parent becomes valid again, with the same in-order sequence; the loop ends |
| RbTree.IntrusiveRbTree.InsertFlip | programs/include/RbTree.hpp:214-220 | with a red uncle the fault moves two levels up and nothing else changes |
| RbTree.IntrusiveRbTree.InsertRotateRight | programs/include/RbTree.hpp:221-233 | with a black uncle one or two rotations remove the fault, left side |
| RbTree.IntrusiveRbTree.InsertRotateLeft | programs/include/RbTree.hpp:245-257 | with a black uncle one or two rotations remove the fault, right side |
| RbTree.IntrusiveRbTree.RotateLeft | programs/include/RbTree.hpp:170-185 | the links represent the rotated tree in the same surroundings; the in-order sequence is the same |
| RbTree.IntrusiveRbTree.RotateRight | programs/include/RbTree.hpp:187-202 | the mirror image of the left rotation |
| RbTree.IntrusiveRbTree.Remove | programs/include/RbTree.hpp:52-96 | every invariant is kept and the in-order sequence loses exactly the one node |
| RbTree.IntrusiveRbTree.TakeOut | programs/include/RbTree.hpp:54-92 | the node leaves the links, and what is left is one black node short at a known place exactly if a black node went away |
| RbTree.IntrusiveRbTree.Bypass | programs/include/RbTree.hpp:58-69 | a node with at most one child gives its place to that child |
| RbTree.IntrusiveRbTree.Transplant | programs/include/RbTree.hpp:263-274 | the links and the root after one node takes another's place under its parent |
| RbTree.IntrusiveRbTree.Minimum | programs/include/RbTree.hpp:98-103 | the end of the left spine, split off from the subtree it belongs to |
| RbTree.IntrusiveRbTree.Exchange | programs/include/RbTree.hpp:70-92 | a node with two children is replaced by its successor |
| RbTree.IntrusiveRbTree.RemoveFixup | programs/include/RbTree.hpp:276-351 | a subtree one black node short is repaired with the same in-order sequence; the loop ends and every sibling read is a node |
| RbTree.IntrusiveRbTree.FixStepLeft | programs/include/RbTree.hpp:280-313 | one pass for a left child: the shortage moves up or is gone, the sequence stays |
| RbTree.IntrusiveRbTree.FixStepRight | programs/include/RbTree.hpp:314-347 | one pass for a right child |
| RbLinks.ReadSibling | programs/include/RbTree.hpp:278-284 | a black shortage makes the sibling a node, and the parent's left link tells which side the shortage is on even when it is empty |
| RbTree.IntrusiveRbTree.LowerBound | programs/include/RbTree.hpp:114-129 | the first node of the in-order sequence where the predicate is false, as a scan finds it, in at most 2 log2(n+1) steps |
| RbTree.IntrusiveRbTree.LastWhere | programs/include/RbTree.hpp:131-146 | the last node where the predicate is true, in at most 2 log2(n+1) steps |
| RbTree.IntrusiveRbTree.Visit | programs/include/RbTree.hpp:148-168 | visits the nodes in sorted order |
| RbTree.IntrusiveRbTree.constructor | programs/include/RbTree.hpp:21-23 | the empty tree is valid |
| RbTree.IntrusiveRbTree.SetOrder | programs/include/FileSystem/TemrixFs/FreeSpaceIndex.hpp:54-62 | the keys of nodes that are not linked may change: the tree stays valid while linked nodes compare as before |
| RbTree.IntrusiveRbTree.Rekey | programs/include/FileSystem/TemrixFs/FreeSpaceIndex.hpp:54-62 | removing a node, changing its key and inserting it again keeps a valid tree, with the node at its new place and all others in their order |
| RbShape.HeightBound | programs/include/RbTree.hpp:114-146 | a red-black tree of n nodes has height at most 2 log2(n+1) |
| RbOrder.InsertRemove | programs/include/RbTree.hpp:27-96 | removing the node just inserted gives the old sequence back |
| RbOrder.RemovedSorted | programs/include/RbTree.hpp:52-96 | removal keeps a sorted sequence sorted |
| FreeSpace.FreeSpaceIndex.Insert | programs/include/FileSystem/TemrixFs/FreeSpaceIndex.hpp:30-42 | a free slot, if there is one, gets the extent and is linked into both trees; nothing else changes, and the counters stay right |
| FreeSpace.FreeSpaceIndex.Remove | programs/include/FileSystem/TemrixFs/FreeSpaceIndex.hpp:44-51 | exactly that slot leaves both trees and becomes free |
| FreeSpace.FreeSpaceIndex.Resize | programs/include/FileSystem/TemrixFs/FreeSpaceIndex.hpp:54-62 | exactly that slot has the new extent, both trees are sorted by the new keys and still hold the same slots |
| FreeSpace.FreeSpaceIndex.FindBestFit | programs/include/FileSystem/TemrixFs/FreeSpaceIndex.hpp:64-67 | the smallest extent of at least the blocks asked for, the first of those of that size, or that there is none |
| FreeSpace.FreeSpaceIndex.FindExact | programs/include/FileSystem/TemrixFs/FreeSpaceIndex.hpp:71-75 | the extent that starts at the block, or that there is none |
| FreeSpace.FreeSpaceIndex.PredecessorOfKey | programs/include/FileSystem/TemrixFs/FreeSpaceIndex.hpp:77-80 | the last extent that starts before the block, or that there is none |
| FreeSpace.FreeSpaceIndex.Enumerate | programs/include/FileSystem/TemrixFs/FreeSpaceIndex.hpp:82-91 | the first extents in order of their starting blocks |
| FreeSpace.BestFitFound | programs/include/FileSystem/TemrixFs/FreeSpaceIndex.hpp:64-67 | in a sequence sorted by size the first extent not too small is the best fit |
| BuddyLayout.Partition | src/kernel/BuddyAllocator.cpp:131-197 | blocks that share a page are the same block |
| BuddyLayout.BuddyHead | src/kernel/BuddyAllocator.cpp:180-188 | the buddy page of a block is always the head of a block, of no larger order |
| BuddyLayout.MergeTest | src/kernel/BuddyAllocator.cpp:183-186 | despite stale bytes the merge test passes exactly if the buddy is a free block of the same order |
| BuddyLayout.Coalesced | src/kernel/BuddyAllocator.cpp:180-194 | without free buddies of one order, an aligned run of free pages lies within one block |
| BuddyLayout.LayoutDetermined | src/kernel/BuddyAllocator.cpp:79-98 | two divisions without mergeable buddies and with the same pages free are equal |
| BuddyRegion.LargestFit | src/kernel/BuddyAllocator.cpp:81-89 | the largest aligned block that still fits in the region |
| BuddyRegion.Region.Divide | src/kernel/BuddyAllocator.cpp:79-98 | the greedy loop gives a region without mergeable buddies, wholly free outside its metadata, in bytes all but 4096 for each page that the `page_order` bytes need |
| BuddyRegion.Region.PushFreeBlock | src/kernel/BuddyAllocator.cpp:32-37 | a taken block becomes the head of its free list, bytes and links included, and every other list is as it was |
| BuddyRegion.Region.UnlinkBlock | src/kernel/BuddyAllocator.cpp:18-30 | a free block is always found in its list and only that one entry goes, the others in their order; a block that is not there changes nothing |
| BuddyRegion.Region.Alloc | src/kernel/BuddyAllocator.cpp:142-157 | a live block of the order on pages that were free, everything else free or live as before, cut from a smallest free block that is large enough, whose upper halves join the lists of their orders and no other list changes; fails only if no free block is as large, and then changes nothing |
| BuddyRegion.Region.Release | src/kernel/BuddyAllocator.cpp:172-194 | exactly a pointer to the head of a live block frees it, and freeing undoes the allocation; the buddies that were joined left their lists and the joined block heads the list of its order; interior pages and free blocks change nothing |
| Buddy.BuddyAllocator.Init | src/kernel/BuddyAllocator.cpp:47-102 | the first 32 usable descriptors become regions, apart from one another and wholly free, and `free_memory` is the sum of their pages less those that hold page_order bytes, in bytes |
| Buddy.BuddyAllocator.FindRegionByPhys | src/kernel/BuddyAllocator.cpp:4-16 | the region and the page that hold an address, or that none does |
| Buddy.BuddyAllocator.Malloc | src/kernel/BuddyAllocator.cpp:131-163 | null exactly for size zero, a size above 64 MB for which rounding does not wrap, or no free block as large anywhere; otherwise a new live block, on pages that were free, in the first region with a free block as large, and `free_memory` less by its bytes; the block holds the size unless rounding wraps, and half of it would not |
| Buddy.BuddyAllocator.Free | src/kernel/BuddyAllocator.cpp:165-196 | undoes the allocation of the live block whose first page holds the pointer and adds its bytes to `free_memory`; any other pointer changes nothing |
| Buddy.BuddyAllocator.AllFreed | src/kernel/BuddyAllocator.cpp:180-194 | after any run that leaves nothing allocated, the free blocks are exactly those that init built |
| Buddy.BlockCovers | src/kernel/BuddyAllocator.cpp:134-137 | the block covers the size exactly if rounding up does not wrap |
| Buddy.WrappedSize | src/kernel/BuddyAllocator.cpp:134-137 | a size for which rounding wraps, and which gets a single page |
| Buddy.OrderIs | src/kernel/BuddyAllocator.cpp:134-137 | the order for a size is at most k exactly if 2^k pages of 4096 bytes hold it, or rounding wraps |
| Buddy.TightFit | src/kernel/BuddyAllocator.cpp:134-137 | half of the block for a size would not hold it |
| Buddy.UsableIs | src/kernel/BuddyAllocator.cpp:60-64 | the descriptors used are those of type 7 with at least two pages |
| Buddy.UsableInOrder | src/kernel/BuddyAllocator.cpp:54-64 | the usable descriptors are taken each once, in the order of the map |
| Buddy.DirectMap | src/kernel/BuddyAllocator.cpp:66-68 | physical and virtual addresses determine each other, and physical 0 lies at 0xffff888000000000 |
| BuddyRegion.MetaNumbers | src/kernel/BuddyAllocator.cpp:62-64 | as many pages as one byte for every page needs, and no more |
| BuddyRegion.Region.BytesKept | src/kernel/BuddyAllocator.cpp:66-77 | in every valid state each page_order byte lies in a page that is never free or live, and no page without such a byte is kept back |
| Buddy.UsableFacts | src/kernel/BuddyAllocator.cpp:60-68 | usable descriptors of a sane map lie in the direct map and apart |
| Powers.FlipFacts | src/kernel/BuddyAllocator.cpp:39-41 | exclusive or with the block size exchanges the two halves of the block of the next order |
| Powers.AlignedMod | src/kernel/BuddyAllocator.cpp:43-45 | the mask test and the remainder agree |
| PageTree.PageNumber | src/kernel/PageTable.cpp:62-66 | two addresses with the same four indices lie on the same 48-bit page, and conversely |
| PageTree.WalkFacts | src/kernel/PageTable.cpp:62-81 | every table met on a walk has the level of its depth and its one parent slot |
| PageTree.SharedTables | src/kernel/PageTable.cpp:41-60 | walks that meet in a table come from one slot: the lower halves are unaliased trees |
| PageTree.KernelHalfShared | src/kernel/PageTable.cpp:125-144 | kernel-half addresses translate the same in every address space |
| PageAccess.LeafAccess | src/kernel/PageTable.cpp:59 | a page table entry decides about the write and the user access of exactly its page |
| PageAccess.HugeAccess | src/kernel/PageTable.cpp:38 | a 2 MB entry decides about the write and the user access of exactly its page |
| PageAccess.NewTableAccess | src/kernel/PageTable.cpp:18-21 | hanging in an empty table makes no page grant more or less |
| PageAccess.CutOffUnmet | src/kernel/PageTable.cpp:38 | no walk meets a table that was cut off |
| PageTable.PageTables.GetOrCreateTable | src/kernel/PageTable.cpp:11-22 | the table of the next level below a slot, made if absent, by an entry of its address and the bits 0 and 1, and 2 if asked for; no translation and no access changes, no frame is lost |
| PageTable.PageTables.MapPage4KB | src/kernel/PageTable.cpp:41-60 | exactly that page of the address space, or of all of them in the kernel half, translates to the new frame; it may be written exactly if the write flag is given and the tables already on its way have the write bit, and is a user page exactly if the same holds of the user flag and bit; the entry met by the walk is the frame with all the flags and bit 0; every other page and every other entry that was present is unchanged; no frame is lost, and frames are needed only for the tables that are missing |
| PageTable.PageTables.MapPage2MB | src/kernel/PageTable.cpp:24-39 | the same for a page of 2 MB, with bits 0 and 7 in its entry, which is a user page exactly if the flag is given and both upper tables were there with the user bit; exactly the page table it replaces is lost |
| PageTable.PageTables.VirtToPhys | src/kernel/PageTable.cpp:62-81 | the translation of the address in the model, 0 where there is none |
| PageTable.PageTables.CreateProcessPageTable | src/kernel/PageTable.cpp:130-144 | a new address space with an empty lower half and the kernel's upper half; no other address space changes, no frame is lost |
| PageTable.PageTables.SyncKernelMappings | src/kernel/PageTable.cpp:125-128 | changes nothing, so no address space ever needs it |
| PageTable.PageTables.FillKernelHalf | src/bootloader/memory.cpp:111-112 | every kernel-half slot has a table afterwards; no translation and no access changes, no frame is lost |
| PageTable.PageTables.FreePageTable | src/kernel/PageTable.cpp:146-172 | returns exactly the tables below the address space and its root, each once and while in use; every other address space translates as before, with the same writable and user pages; tables cut off earlier stay lost |
| PageRelease.BelowIsReachable | src/kernel/PageTable.cpp:147-170 | what is returned is the root and the tables that some lower-half walk meets, so no leaf frame, huge page or shared table |
| PageRelease.ReleasedSound | src/kernel/PageTable.cpp:146-172 | the remaining tables keep the invariant |
| PageRelease.ReleasedWalk | src/kernel/PageTable.cpp:146-172 | other walks never go through a returned table |
| PageBits.IndexBits | src/kernel/PageTable.cpp:63-66 | the four indices are bits 39 to 47, 30 to 38, 21 to 29 and 12 to 20 of the address |
| PageBits.KernelHalf | src/kernel/PageTable.cpp:126-127 | the kernel half are the addresses with bit 47 set |
| PageBits.EntryBits | src/kernel/PageTable.cpp:68-76 | present is bit 0 of an entry, writable bit 1, user bit 2 and huge bit 7 |
| PageBits.AddrBits | src/kernel/PageTable.cpp:69-80 | the frame of an entry are its bits from 12 on, that of a 2 MB entry those from 21 on |
| PageBits.LeafBits | src/kernel/PageTable.cpp:45-59 | every bit of the word for a 4 KB page: bit 0 set, the other low bits from the flags, the rest from the frame |
| PageBits.HugeBits | src/kernel/PageTable.cpp:28-38 | every bit of the word for a 2 MB page: bits 0 and 7 set, the other low bits from the flags, the rest from the frame |
| PageBits.TableBits | src/kernel/PageTable.cpp:18-21 | every bit of the word for a fresh table: bits 0 and 1 set, bit 2 for user code, the rest from its address |
| Bits.SwapAllBit | programs/Example/stb_image.hpp:4106-4113 | the four mask-and-shift steps move bit i to bit 15-i |
| Bits.BitReverseIs | programs/Example/stb_image.hpp:4106-4121 | the bit trick reverses the low 16 bits, and shifted down it reverses any number of that many bits |
| Bits.RevBit | programs/Example/stb_image.hpp:4115-4121 | reversing k bits puts bit t where bit k-1-t was |
| Bits.RevRev | programs/Example/stb_image.hpp:4106-4121 | reversing twice gives the low bits back |
| Bits.RevSplit | programs/Example/stb_image.hpp:4115-4121 | the reversed prefix of a word is the high part of the reversed word |
| HuffmanCode.PrefixFree | programs/Example/stb_image.hpp:4123-4168 | no word starts with the canonical codes of two symbols |
| HuffmanCode.FindMatch | programs/Example/stb_image.hpp:4229-4236 | a word between two length bounds starts with the code of exactly the symbol at the computed rank |
| HuffmanCode.ShortMatches | programs/Example/stb_image.hpp:4262-4268 | a nine-bit entry fits a word exactly if the word starts with a short code |
| HuffmanCode.ShortEntries | programs/Example/stb_image.hpp:4157-4163 | the entries for a code are the numbers that end in its reversed bits |
| HuffmanCode.Kraft | programs/Example/stb_image.hpp:4134-4144 | the checks by length hold exactly if the Kraft sum fits |
| HuffmanCode.KraftIsEndCode | programs/Example/stb_image.hpp:4138-4147 | the running code counts the words that start with a code so far |
| HuffmanCode.RankFacts | programs/Example/stb_image.hpp:4153-4156 | symbols sorted by length and value have distinct places inside the tables |
| DeflateCodes.CodeIs | programs/Example/stb_image.hpp:4137-4149 | the code of a symbol and the symbols of its length from it on make up the words that start with a code |
| DeflateCodes.NextOfLength | programs/Example/stb_image.hpp:4150-4166 | codes of one length are consecutive, in the order of their symbols |
| DeflateCodes.ShorterFirst | programs/Example/stb_image.hpp:4137-4149 | shorter codes come before longer ones |
| DeflateCodes.CodeBits | programs/Example/stb_image.hpp:4223-4240 | a symbol stands at a place of the stream exactly if the bits from there on are those of its code, the highest first |
| DeflateCodes.LengthTable | programs/Example/stb_image.hpp:4294-4300 | the length codes start at 3 and each begins where the one before ends, up to 258; the extra bits by their closed form |
| DeflateCodes.DistanceTable | programs/Example/stb_image.hpp:4302-4306 | the same for the distance codes, from 1 to 32768 |
| DeflateCodes.OneCopy | programs/Example/stb_image.hpp:4335-4341 | every length from 3 to 258 and distance from 1 to 32768 has exactly one pair of codes and extra bits, but for code 28 |
| DeflateCodes.InBounds | programs/Example/stb_image.hpp:4294-4306 | codes and extra bits stand for no other lengths and distances, and code 28 for 258 |
| DeflateCodes.CopyRange | programs/Example/stb_image.hpp:4335-4341 | a block can only copy 3 to 258 bytes from 1 to 32768 bytes back |
| Huffman.HuffmanTable.CountLengths | programs/Example/stb_image.hpp:4129-4133 | how many symbols have each length |
| Huffman.HuffmanTable.AssignCodes | programs/Example/stb_image.hpp:4137-4149 | first codes, bounds and first symbols of each length; fails exactly if some length has too many codes |
| Huffman.HuffmanTable.FillFast | programs/Example/stb_image.hpp:4158-4162 | exactly the entries that end in the reversed code are set |
| Huffman.HuffmanTable.FillSymbols | programs/Example/stb_image.hpp:4150-4166 | every symbol is listed at its rank, and the fast table names exactly the short codes |
| Huffman.HuffmanTable.Build | programs/Example/stb_image.hpp:4123-4168 | succeeds exactly if the codes take at most 32768 of the 32768 words of 15 bits, with tables that decode the canonical code of the lengths |
| Huffman.HuffmanTable.FastEntry | programs/Example/stb_image.hpp:4262-4268 | a non-zero entry names the symbol and length of the code that starts the word; zero means no code of nine bits or less does |
| Huffman.HuffmanTable.SlowSymbol | programs/Example/stb_image.hpp:4223-4240 | the symbol whose code starts the word, or that no code does; the two extra tests never fail |
| Deflate.StreamByte | programs/Example/stb_image.hpp:4191-4199 | the bytes of the zero-extended stream |
| Deflate.ItemUnique | programs/Example/stb_image.hpp:4312-4341 | at most one item can be read at a place |
| Deflate.BlockUnique | programs/Example/stb_image.hpp:4311-4356 | a block has at most one complete reading, and a complete reading never gets stuck |
| Deflate.CopyEchoes | programs/Example/stb_image.hpp:4347-4353 | every copied byte equals the one a distance before it |
| Deflate.CopyIsPeriodic | programs/Example/stb_image.hpp:4347-4353 | a copy longer than its distance repeats the last bytes with that period |
| Inflate.Decoder.FillBits | programs/Example/stb_image.hpp:4201-4211 | more than 24 bits in the buffer, the reading position unchanged; the give-up test never holds |
| Inflate.Decoder.Receive | programs/Example/stb_image.hpp:4213-4221 | the next n bits of the stream, consumed |
| Inflate.Decoder.BlockHeader | programs/Example/stb_image.hpp:4489-4490 | the next three bits, and what has been fetched after them |
| Inflate.Decoder.Prepare | programs/Example/stb_image.hpp:4245-4261 | 16 bits are ready and the supply is what the rule says, or the rule says that it has run out |
| Inflate.Decoder.Decode | programs/Example/stb_image.hpp:4242-4268 | the one symbol whose code comes next, consuming exactly its length; -1 exactly if the supply has run out or there is none |
| Inflate.Decoder.Grow | programs/Example/stb_image.hpp:4272-4292 | the buffer doubled until the bytes asked for fit, the prefix kept; out of memory exactly if that size is beyond 32 bits or not granted, output limit exactly if the buffer may not grow |
| Inflate.DoubledTwice | programs/Example/stb_image.hpp:4281-4284 | growing in two steps gives the size of growing at once |
| Inflate.Decoder.CopyForward | programs/Example/stb_image.hpp:4347-4353 | the byte-by-byte copy, for the distance-1 shortcut as well |
| Inflate.Decoder.PutCopy | programs/Example/stb_image.hpp:4342-4353 | fails with a bad distance exactly if it reaches before the start of the output; otherwise it is carried out exactly if the buffer holds it or can be made to |
| Inflate.Decoder.ReadCopy | programs/Example/stb_image.hpp:4335-4341 | reads the rest of the item that starts with a length symbol, or there is no item that the supply is enough for |
| Inflate.Decoder.ParseItem | programs/Example/stb_image.hpp:4311-4355 | one item is read and carried out, or the loop stops for the reason it gives: no room only if what the item stands for fits neither into the buffer nor into a granted larger one |
| Inflate.Decoder.ParseBlock | programs/Example/stb_image.hpp:4308-4356 | the output is extended by what the items in the stream stand for, up to the end-of-block symbol; every failure is for the reason given, at the item or symbol it names |
| Inflate.Decoder.CompleteBlock | programs/Example/stb_image.hpp:4308-4356 | a block with a complete reading is decoded exactly if the bits last and every item finds room, and then to that one reading |
| Inflate.Decoder.DecodeBlock | programs/Example/stb_image.hpp:4308-4356 | the call for a block with a complete reading: decoded exactly if the bits last and there is room, with the output that its items stand for |
| Inflate.Decoder.FixedBlock | programs/Example/stb_image.hpp:4496-4503 | the same for a block in the fixed code, with its tables built first, which never fails |
| Inflate.Decoder.BlockInside | programs/Example/stb_image.hpp:4308-4356 | a block that lies in its input is decoded exactly if there is room, and always if the buffer given holds its output |
| Inflate.Decoder.DonePastInput | programs/Example/stb_image.hpp:4323-4333 | a block decoded past its input has its end-of-block symbol begin in the input or coded by zero bits, and ends at most 14 or 62 bits past it |
| Supply.InsideLasts | programs/Example/stb_image.hpp:4242-4261 | the supply never runs out within a block that lies in its input |
| Supply.Truncated | programs/Example/stb_image.hpp:4196-4199 | where a block that runs past its input can end, whether it is accepted or not |
| Supply.EndsPastInput | programs/Example/stb_image.hpp:4196-4199 | past the input an end of the block stands at every place exactly if its code is that of zero bits |
| Supply.PastEndIsZero | programs/Example/stb_image.hpp:4196-4199 | past the input only the code of zero bits can be read, and it can be read anywhere |
| Supply.EndAccepted | programs/Example/stb_image.hpp:4323-4333 | the test after the end-of-block symbol passes exactly if input is still to be fetched or the bits fetched reach its end |
| FixedCode.FixedAccepted | programs/Example/stb_image.hpp:4451-4466 | tables can be built for the literal and the distance code of the fixed code |
| FixedCode.FixedLengthIs | programs/Example/stb_image.hpp:4451-4462 | the lengths of the 288 codes of the fixed code |
| FixedCode.FixedCodes | programs/Example/stb_image.hpp:4451-4462 | the codes of all 288 symbols of the fixed code, as numbers |
| FixedCode.FixedDistanceCodes | programs/Example/stb_image.hpp:4463-4466 | the 32 distance codes are the numbers of five bits |
| FixedCode.AbcAbc | programs/Example/stb_image.hpp:4308-4356 | six bytes of input are read as three letters and a copy, and stand for abcabc |
| FixedCode.FirstBlock | programs/Example/stb_image.hpp:4484-4490 | the header bits before the first block leave 32 bits fetched, whatever the input |
| FixedCode.TruncatedAccepted | programs/Example/stb_image.hpp:4487-4503 | after the header of a last block in the fixed code, a one-byte input is accepted as a block although its end is missing |
| FixedCode.TruncatedRefused | programs/Example/stb_image.hpp:4487-4503 | after the same header a four-byte input with three literals and no end is refused |
| PngFilter.PaethIsPredictor | programs/Example/stb_image.hpp:4656-4667 | the branch-reduced form equals PaethPredictor for all integers |
| PngFilter.ReconFilter | programs/Example/stb_image.hpp:4754-4784 | reconstruction undoes each of the five filters |
| PngFilter.FilterRecon | programs/Example/stb_image.hpp:4754-4784 | filtering undoes reconstruction, so the row is the only one with its filtered form |
| PngFilter.SuitsAdds | programs/Example/stb_image.hpp:4647-4654 | the substituted filter on the first row equals the original one under a row of zeros |
| PngFilter.UnfilterRow | programs/Example/stb_image.hpp:4751-4786 | the row reconstructed in its half of the working buffer, nothing else written |
| PngSamples.Unpack | programs/Example/stb_image.hpp:4789-4816 | one scaled byte per packed sample, high-order bits first |
| PngSamples.InHandTop | programs/Example/stb_image.hpp:4797-4816 | the top bits of the shifted byte are the next sample of the original byte |
| PngSamples.AlphaExpand | programs/Example/stb_image.hpp:4674-4692 | an opaque alpha byte after each pixel, also when source and destination are the same memory |
| PngSamples.StoreWide | programs/Example/stb_image.hpp:4829-4833 | big-endian samples in host order |
| PngSamples.StoreWideAlpha | programs/Example/stb_image.hpp:4834-4850 | the same with an opaque alpha sample after each pixel |
| PngSamples.StoreRow | programs/Example/stb_image.hpp:4789-4851 | the output row for every depth and channel count, nothing else written |
| PngSamples.PixelOfDestRow | programs/Example/stb_image.hpp:4789-4851 | every output pixel is made of the samples of the same pixel of the row, and of opaque alpha if it is added |
| PngImage.RowsOfEncode | programs/Example/stb_image.hpp:4736-4786 | for every image and choice of filters the rows come back |
| PngImage.EncodeOfRows | programs/Example/stb_image.hpp:4736-4786 | encoding the rows with the filters found gives the stream back |
| PngImage.CreateRaw | programs/Example/stb_image.hpp:4695-4858 | succeeds exactly if memory is granted and sizes, data length and filter bytes are in range, and the output is the rows of the stream, converted; its bytes are those that the rows below on PngBytes give |
| PngBytes.DecodedByte | programs/Example/stb_image.hpp:4707-4786 | every byte of every row from its byte of the stream and the decoded bytes to its left, above it and above that on its left, where left is one pixel, or one byte if pixels are smaller |
| PngBytes.RowsByte | programs/Example/stb_image.hpp:4736-4786 | the same for any row width, unit and row above |
| PngBytes.Predictions | programs/Example/stb_image.hpp:4754-4784 | what the filter types 0 to 4 predict from the three neighbours |
| PngBytes.Nearest | programs/Example/stb_image.hpp:4656-4667 | the Paeth prediction is the neighbour nearest to a + b - c, of equally near ones the first |
| PngBytes.UnitIs | programs/Example/stb_image.hpp:4707-4733 | the filter unit has the bits of a pixel, or eight if samples are smaller than a byte |
| PngBytes.LeftPixel | programs/Example/stb_image.hpp:4759-4762 | byte m of a pixel has byte m of the pixel before it to its left, and nothing left of the first |
| PngBytes.WidthTight | programs/Example/stb_image.hpp:4717 | a row takes as many bytes as its bits need, and no more |
| PngBytes.TwoPixels | programs/Example/stb_image.hpp:4758-4762 | two pixels of three bytes under filter 1 |
| PngBytes.BadFilter | programs/Example/stb_image.hpp:4744-4748 | data that is long enough is refused only for a filter byte above 4 |
| PngBytes.GoodFilters | programs/Example/stb_image.hpp:4744-4748 | accepted data is long enough and has filter bytes of at most 4 |
| PngBytes.SizeLimits | programs/Example/stb_image.hpp:4710-4718 | where each of the size checks alone decides, as numbers |
| PngBytes.SampleBits | programs/Example/stb_image.hpp:4789-4816 | the samples are the bits of the row, the high bit of a byte first, and the first bit of a sample is its highest |
| PngBytes.ScaleIs | programs/Example/stb_image.hpp:4669 | the largest grey sample becomes 255, and other samples stay as they are |
| PngBytes.OutPixelByte | programs/Example/stb_image.hpp:4789-4851 | every byte of an output pixel: a scaled sample, a byte of a wide sample in host order, or 255 |
| PngBytes.PictureByte | programs/Example/stb_image.hpp:4699-4740 | where the bytes of each pixel stand in the output |
| PngBytes.PassGrid | programs/Example/stb_image.hpp:4873-4876 | the pattern of the seven passes in each block of eight by eight pixels |
| PngBytes.InterlacedByte | programs/Example/stb_image.hpp:4887-4894 | where the bytes of each pixel of a deinterlaced image stand, and where they stood in the image of its pass |
| Adam7.InPassIs | programs/Example/stb_image.hpp:4873-4876 | which of the seven passes a pixel belongs to |
| Adam7.OnePass | programs/Example/stb_image.hpp:4873-4876 | every pixel belongs to exactly one pass |
| Adam7.CountSteps | programs/Example/stb_image.hpp:4879-4880 | the size of a pass counts its columns or rows, although the subtraction may wrap |
| Adam7.PassCells | programs/Example/stb_image.hpp:4879-4894 | the grid of a pass is exactly its part of the image, nothing outside |
| Adam7.PlacePass | programs/Example/stb_image.hpp:4887-4894 | the pixels of the pass come from the sub-image, every other pixel is as it was |
| Png.Deinterlace | programs/Example/stb_image.hpp:4870-4903 | succeeds exactly if memory is granted and every pass can be decoded from its part of the data, and every pixel comes from its pass |
| Png.PassSizes | programs/Example/stb_image.hpp:4713-4716 | no pass of an image that is not too large is too large |
| Png.DecodeInterlaced | programs/Example/stb_image.hpp:4870-4903 | the interlaced stream of an image decodes exactly if memory is granted, to the output for the image without interlacing |
| Png.PassesRoundTrip | programs/Example/stb_image.hpp:4881-4900 | for every seven lists of rows each pass is found again in the stream |
| Png.InterlaceSamePicture | programs/Example/stb_image.hpp:4870-4903 | for every depth and channel count and any filters, passes that hold the pixels of an image that is not too large decode to the output for that image without interlacing |
| Png.InterlaceRoundTrip | programs/Example/stb_image.hpp:4870-4903 | interlacing and filtering an 8-bit image without added alpha in any way and decoding it gives the image itself back |
| Handshake.InvStep | programs/include/CompositorClient.hpp:94-141 | every step of either process keeps the invariant of counters, buffers and snapshot |
| Handshake.LoadIndexInv | programs/include/Compositor.hpp:468-478 | a dirty snapshot names the buffer of its frame or of the next one, already presented |
| Handshake.WaitsTwoAhead | programs/include/CompositorClient.hpp:126-141 | the client waits exactly while two frames it has presented are not consumed yet |
| Handshake.DrawnPixel | programs/include/CompositorClient.hpp:94-110 | what the client has drawn is what it presents |
| Handshake.CopiedPixel | programs/include/Compositor.hpp:468-560 | the pixel copied is that of the presented frame, and no other is copied or forgotten |
| Handshake.PixelArrives | programs/include/CompositorClient.hpp:94-141 | a pixel drawn into any of the first 2^32 - 1 frames can arrive in the compositor's copy |
| Handshake.AlwaysSafe | programs/include/Compositor.hpp:454-560 | in every interleaving of fewer than 2^32 frames the client never writes the buffer being copied, every copy is of one whole frame, and consumed <= dirty <= consumed + 2 |
| Handshake.WrapConflict | programs/include/CompositorClient.hpp:126-141 | a run with 2^32 frames in which the client writes the buffer being copied |
| Handshake.SafeBound | programs/include/CompositorClient.hpp:94-141 | the protocol is safe for k frames exactly if k < 2^32 |
| Handshake.WaitEnds | programs/include/CompositorClient.hpp:136-140 | a waiting client is let go by the compositor alone |
| EventRing.InOrderOnce | programs/include/Compositor.hpp:217-231 | in every interleaving the client has received the first accepted events, each once and in order, and all not given back are intact in the ring, also when indices wrap |
| EventRing.NoneLeft | programs/include/Window.hpp:92-122 | when the loop ends, exactly the events visible at its start have been received |
| EventRing.InputRing.PushEvent | programs/include/Compositor.hpp:217-231 | without interruption, the event joins the end of the queue exactly if fewer than sixteen wait |
| EventRing.InputRing.PollInput | programs/include/Window.hpp:92-122 | without interruption, hands out the whole queue in order and empties it |
| EventRing.WriteEventInv | programs/include/Compositor.hpp:223-230 | an accepted event goes to a place without an unread entry |
| EventRing.ReadEventInv | programs/include/Window.hpp:101-119 | the entry read is the next accepted event |
| EventRing.DroppedOnlyIfFull | programs/include/Compositor.hpp:226-227 | an event is turned away exactly if sixteen were waiting when the read index was loaded, whatever the client does before the decision |
| EventRing.ClientGoesOn | programs/include/Window.hpp:92-122 | the client reads exactly while events visible at the start of its loop are left, and then ends the loop |
| EventRing.ProducerGoesOn | programs/include/Compositor.hpp:217-231 | no step of the producer waits, and an event not turned away is the next one accepted |
| EventRing.IndexIs | programs/include/Compositor.hpp:223-230 | the indices count up to 2^32 and start again |
| EventRing.Difference | programs/include/Compositor.hpp:226 | the wrapped difference of the indices is the number of entries between them |
| EventRing.PlaceOfWrapped | programs/include/SharedFramebuffer.hpp:6 | the ring size divides 2^32, so wrapping does not disturb the places |

## Left out

- RbTree.IntrusiveRbTree.Insert: the policy is a strict weak order; the keys of linked nodes do not change, as any caller of the tree needs.
- FreeSpace.FreeSpaceIndex.Insert: free slots are a list of their own instead of a chain through the links of the first tree.
- FreeSpace.FreeSpaceIndex.Remove: only slots in use are removed or resized, as the callers arrange.
- findLargest and the counters of the index: one-line reads.
- The file system allocator above the index: merging of freed extents, and what is written to disk.
- treeMinimum, treeMaximum, reset, empty and getRoot of the tree: one-line reads.
- Buddy.BuddyAllocator.Init: assumes a firmware map whose usable entries are listed once, lie in the direct map and count fewer than 2^32 pages; the links of free pages are an array of the region rather than words in the pages themselves.
- mallocAligned: the pointer it returns may be on an interior page, which free ignores by design of the contract above.
- PageTable.PageTables.MapPage4KB: flags below 0x1000, no huge entry on the path, and a frame for each table that is missing, as its callers arrange; a null result of malloc in allocTable is not modelled.
- PageTable.PageTables.GetOrCreateTable: a frame is left if the slot is empty.
- PageTable.PageTables.MapPage2MB: flags below 0x1000 and a frame for each table that is missing.
- PageTable.PageTables.FillKernelHalf: run before any process address space exists, with a frame for each empty slot.
- PageTable.PageTables.CreateProcessPageTable: called once the kernel half is filled, as boot leaves it, with a frame left.
- PageTable.PageTables.FreePageTable: not for the kernel's own address space, which is never freed.
- initPageTables, mapMMIO and loading the table register: runs of the map calls above and hardware.
- Unmapping in the virtual memory manager: it can clear kernel-half slots of one address space, and its source is outside this model.
- Spinlocks and memory order: every locked call is one atomic step, every atomic load or store one sequentially consistent step.
- compute_huffman_codes, stored blocks, the zlib header and the loop over the blocks: straight-line users of the bit reader, the table builder and the block decoder.
- Inflate.Decoder.Grow: a buffer that may grow is not empty, since doubling an empty one would not end; whether a reallocation is granted depends on the size only.
- PngImage.CreateRaw: whether memory is granted is a parameter, one for the image and the working buffer together; the size checks are the products the code compares.
- PngSamples.StoreRow: samples of 16 bits are stored for a little-endian host.
- PngFilter.UnfilterRow: the choice between the filters is made for each byte and not once for the row.
- The branch for images that are not interlaced: it is the one call of PngImage.CreateRaw.
- Chunk parsing, palettes, transparency, gamma and the other image formats.
- Handshake.AlwaysSafe: covers snapshots marked dirty; re-rendering a slot that is not dirty reads a buffer without the handshake. The dirty rectangle, detaching a slot and claiming it for another client are not modelled. The two processes are a state machine of atomic steps, in which the waiting loop is a step that may be taken again.
- EventRing.InOrderOnce: a slot that stays attached; copying an entry is one step, which no step of the producer can disturb.
- Window placement, focus, drawing, cursor, fonts, drivers, file systems and networking.

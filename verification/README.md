# A model of Sandboxie's shared C library

A Dafny model of the data structures and algorithms in `Sandboxie/common`, and of two pieces of
`SandboxiePlus/QSbieAPI`, with proofs of what they promise. `dafny verify dfyconfig.toml` checks all of it.

**Red-black tree** (`Rb*.dfy`). Nodes are heap objects with parent, left and right links and one shared
sentinel. A ghost tree says which shape the links have, and a path of frames up to the root says where in it a
loop stands. Insert and delete, with the relinking swap of the delete and all cases of both fixups, keep links,
search order, colours, black heights and count; search and enumeration find what the order says.

**Big numbers** (`Bn*.dfy`). Words of 32 bits, filled and changed in arrays, against the number they stand for.
The refined digit of the long division is the true one or one more. The code then has no effective correction:
`bignum.c:717` subtracts in 32 bits before it widens, so the test at line 720 never succeeds. `Divide` is
therefore proved right exactly on the inputs where no digit is one too high, which include all divisors below
2^64; a concrete input of the other kind is given, and the correction that the comment at lines 662-668
describes is proved to repair every such digit. `ModPow` is right for every modulus below 2^64. For larger ones,
when the divisions before the last turn are exact, it is right exactly when the last one is too.

**Pool allocator** (`Pool*.dfy`, `Lists.dfy`). Pages with a byte bitmap and an estimated free count, two page
lists and large chunks. Cells come from the first page on the list that has them, and from the system only if
none has. Every reachable pool keeps its blocks apart and inside their pages, every bit set
exactly for padding, the pool's own cells and blocks, every count within the cells of the page, and every page
on the list its count calls for; what callers hold never overlaps.

**Lock and service call** (`Lock*.dfy`, `CallServer*.dfy`). Step relations over any number of threads, one
access to shared memory at a time. Besides safety: threads share the lock at once while no writer has claimed it,
and from every reachable state every waiting thread can still get the lock, and every caller can still return.

**Matchers** (`WildCompare.dfy`, `Pattern*.dfy`). Both against one recursive meaning of `*` and `?`. The
backtracking comparison decides it. The search by constant parts is sound. It goes on behind the end of a part
that did not help (`pattern.c:453`), and finds all matches of a pattern without a star at the end exactly when its
parts recover: from every overlap of two places of the last part, some part has a sure way on. For every other
pattern a string that is missed is built. Where the part before the last does not rely on question marks at its
front, the condition is the simpler one that this part catches every overlap of the last. A part behind exactly
two stars is not looked for beyond a backslash.

**Hash map** (`Hash*.dfy`), **firewall rules** (`Net*.dfy`), **Adler-32** (`Adler.dfy`) and **INI files**
(`Ini*.dfy`). Each fast or stateful form against a simple one. Where the code falls short of that, the exact
condition is proved, with the inputs that fail. The order of firewall rules is irrelevant exactly for settled
matches (`netfw.c:409-413` is no order otherwise). An accepted merge of rules changes no result exactly when
each new range that an old one hides is hidden by ranges of more than one key and found again, or over, behind
them (`netfw.c:155-157` refuses only new ranges inside an old one). Which of two rules comes first, when two
become one, and which traffic a list blocks are stated in terms of the rules. `ReadEntry` fails exactly on
settings with a blank for their value (`ini.cpp:396-402`), and loading exactly on texts with such a line. What is
read from any other text is told line by line, and exactly the documents of `GoodFile` survive saving and loading.

`Arith.dfy`, `Wrappers.dfy` and `CString.dfy` are shared by the others.

## Model

| member | source | states |
|---|---|---|
| `RbShape.RbTree.constructor` | Sandboxie/common/rbtree.c:74-80 | an empty tree over the shared sentinel |
| `RbShape.PlugRedBlack` | Sandboxie/common/rbtree.c:136-252 | a context and a subtree whose colours and black heights fit make a red-black tree |
| `RbShape.UnplugRedBlack` | Sandboxie/common/rbtree.c:136-252 | every cut of a red-black tree gives a context and a subtree that fit |
| `RbShape.PlugInOrder` | Sandboxie/common/rbtree.c:544-560 | the nodes of a tree in order are those before a position, those below it, and those after it |
| `RbRotate.RotateLeft` | Sandboxie/common/rbtree.c:86-107 | at any node with a right child, under any parent or at the root, the links after the rotation are those of the turned subtree in place, with parent links and root; nothing else is written |
| `RbRotate.RotateRight` | Sandboxie/common/rbtree.c:113-134 | the same to the other side |
| `RbRotate.RotationKeeps` | Sandboxie/common/rbtree.c:86-134 | both rotations keep the nodes of the subtree and their order |
| `RbSearch.FindLessEqual` | Sandboxie/common/rbtree.c:485-520 | the result is the greatest node not above the key, null exactly when every key is above it, and the flag tells an exact match |
| `RbSearch.Search` | Sandboxie/common/rbtree.c:259-269 | the node with the key, or null exactly when there is none |
| `RbSearch.First` | Sandboxie/common/rbtree.c:522-529 | the least node, or the sentinel of an empty tree |
| `RbSearch.Next` | Sandboxie/common/rbtree.c:544-560 | the node that follows in key order, or the sentinel after the last one |
| `RbSearch.SuccessorIsNext` | Sandboxie/common/rbtree.c:544-560 | the leftmost node of the right subtree, or else the nearest ancestor on whose left the node lies, is the one that follows in order |
| `RbSearch.Enumerate` | Sandboxie/common/rbtree.h:166-169 | RBTREE_FOR visits all nodes once in strictly increasing key order |
| `RbSearch.Descend` | Sandboxie/common/rbtree.c:500-518 | what a comparison at a node tells about all keys before and after the subtree that is left |
| `RbInsert.FindPlace` | Sandboxie/common/rbtree.c:207-229 | the descent ends at a node with the key or at the one free place that keeps the order |
| `RbInsert.FlipMovesUp` | Sandboxie/common/rbtree.c:148-157 | with a red uncle, repainting moves the only possible fault two levels up |
| `RbInsert.LeftOuterFits` | Sandboxie/common/rbtree.c:158-168 | with a black uncle, repainting and one rotation at the grandparent remove the fault |
| `RbInsert.LeftTurnedFits` | Sandboxie/common/rbtree.c:159-163 | a red grandchild on the inside is turned to the outside first |
| `RbInsert.FixRound` | Sandboxie/common/rbtree.c:142-195 | one round of the fixup loop keeps nodes, order and the single possible fault, and brings it nearer the root |
| `RbInsert.InsertFixup` | Sandboxie/common/rbtree.c:136-197 | from a red node with at most a red parent as fault to a red-black tree of the same nodes in the same order |
| `RbInsert.Insert` | Sandboxie/common/rbtree.c:207-252 | a fresh key joins: all links, colours, order and count are right again and exactly the new node is added; for a key that is there nothing changes |
| `RbSwap.ChangeParentPtr` | Sandboxie/common/rbtree.c:283-295 | the link of the parent, or the root, points to the other node and all others stay |
| `RbSwap.SwapPlaces` | Sandboxie/common/rbtree.c:325-350 | the pointer surgery of the delete makes two nodes change places and colours, also when one is the child of the other |
| `RbDelete.SwappedOrder` | Sandboxie/common/rbtree.c:312-350 | taking a node out after it changed places with its successor leaves the other nodes in their old order |
| `RbDelete.Exchange` | Sandboxie/common/rbtree.c:316-350 | a node with two children is brought to a place with at most one, and the rest stays a red-black tree without it |
| `RbDeleteFixup.RecolorUpLeft` | Sandboxie/common/rbtree.c:391-426 | with black children at the sibling, repainting it moves the missing black one level up |
| `RbDeleteFixup.MoveRedLeft` | Sandboxie/common/rbtree.c:428-438 | a red parent takes over the missing black |
| `RbDeleteFixup.FarRotatedLeftFits` | Sandboxie/common/rbtree.c:468-482 | with a red far nephew one rotation adds the missing black |
| `RbDeleteFixup.NearToFarLeftFits` | Sandboxie/common/rbtree.c:441-466 | with a red near nephew a rotation at the sibling makes the far one red |
| `RbDeleteFixup.DeleteFixup` | Sandboxie/common/rbtree.c:382-483 | a tree that is one black node short below one position becomes a red-black tree of the same nodes in the same order; the sentinel is as before |
| `RbDelete.Remove` | Sandboxie/common/rbtree.c:304-380 | removing a node that was found |
| `RbDelete.Delete` | Sandboxie/common/rbtree.c:304-380 | a key that is there leaves: all invariants hold again, exactly its node is gone from the order and its links and colour are reset, the count is one less; for another key nothing changes |
| `BnValue.ValueConcat` | Sandboxie/common/bignum.c:89-136 | the number of joined words |
| `BnValue.ValueInjective` | Sandboxie/common/bignum.c:168-210 | with equal lengths the number determines the words |
| `BnBasic.CreateFromBigNum` | Sandboxie/common/bignum.c:113-136 | the same number without leading zero words |
| `BnBasic.Compare` | Sandboxie/common/bignum.c:168-210 | the sign of the difference of the numbers |
| `BnBasic.Add` | Sandboxie/common/bignum.c:363-419 | the sum, without leading zero words |
| `BnBasic.Subtract` | Sandboxie/common/bignum.c:428-484 | the difference, or 0 when the second number is larger |
| `BnBasic.MultiplyRow` | Sandboxie/common/bignum.c:528-537 | the inner loop adds one word times a number at its place; no 64-bit intermediate overflows |
| `BnBasic.Multiply` | Sandboxie/common/bignum.c:490-543 | the product, without leading zero words |
| `BnShift.ShiftLeft` | Sandboxie/common/bignum.c:290-352 | the number times a power of two, with the given word or-ed in |
| `BnShift.ShiftOrAdds` | Sandboxie/common/bignum.c:290-352 | or-ing a value below the shift into the vacated bits adds it |
| `BnShift.ShiftRight` | Sandboxie/common/bignum.c:218-280 | the quotient by a power of two |
| `BnShort.DivideByInteger` | Sandboxie/common/bignum.c:551-635 | for any dividend and one nonzero word: dividend = quotient * divisor + remainder with remainder < divisor |
| `BnKnuth.Refine` | Sandboxie/common/bignum.c:692-707 | the digit estimate of the loop; its 64-bit intermediates do not wrap |
| `BnKnuth.RejectedTooHigh` | Sandboxie/common/bignum.c:698-707 | an estimate that the test rejects is above the true quotient digit |
| `BnKnuth.AcceptedNearlyRight` | Sandboxie/common/bignum.c:698-707 | an estimate that the test keeps is at most one too high |
| `BnKnuth.RefinedNearlyRight` | Sandboxie/common/bignum.c:690-707 | in a window below divisor * 2^32, for a divisor with its top bit set, the refined digit is the true one or one more |
| `BnDivide.EstimateNearlyRight` | Sandboxie/common/bignum.c:690-707 | the same for the words of the code |
| `BnDivide.MultiplySubtract` | Sandboxie/common/bignum.c:709-718 | the window becomes window - digit * divisor modulo the window size, and the value the next line compares with 0 is never negative |
| `BnDivide.DivideHelper` | Sandboxie/common/bignum.c:643-735 | when no refined digit is over-estimated the quotient and remainder are right; when one is, the remainder space ends at 2^(32n) or more for an n-word divisor |
| `BnDivide.RightDigit` | Sandboxie/common/bignum.c:709-735 | a digit that is not too high keeps dividend and quotient words on the way of paper division |
| `BnDivide.SpoiledTop` | Sandboxie/common/bignum.c:709-735 | a digit one too high leaves a nonzero word on top of the window |
| `BnLong.ScanTopBit` | Sandboxie/common/bignum.c:828-836 | the shift distance that sets the top bit of the divisor |
| `BnLong.LongDivide` | Sandboxie/common/bignum.c:821-883 | the division of shifted operands and the shift undone on the remainder: right exactly when no refined digit is over-estimated; also for a dividend with one leading zero word into which the shift spills |
| `BnLong.NormalWrites` | Sandboxie/common/bignum.c:840-861 | a dividend without leading zero words makes the division write all words of the quotient |
| `BnLong.Divide` | Sandboxie/common/bignum.c:744-899 | dividend = quotient * divisor + remainder with remainder < divisor exactly on the inputs for which no refined digit is over-estimated, which include all divisors below 2^64; on the others the remainder is not below the divisor |
| `BnDivide.TwoWordsExact` | Sandboxie/common/bignum.c:692-707 | against a divisor of two words no refined digit is too high, for any dividend and place |
| `BnLong.TwoWordsAreExact` | Sandboxie/common/bignum.c:744-899 | so no digit of a division by a number below 2^64 is over-estimated, however many words the dividend has |
| `BnLong.SmallDivisorExact` | Sandboxie/common/bignum.c:744-899 | and division by any such number is right |
| `BnLong.AddBackWouldRepair` | Sandboxie/common/bignum.c:662-668 | the correction that the comment describes would always give the true digit and remainder |
| `BnLong.OverestimateHappens` | Sandboxie/common/bignum.c:717-731 | a dividend of four words and a divisor of three for which a digit is over-estimated |
| `BnModPow.SmallModulusExact` | Sandboxie/common/bignum.c:907-966 | with a modulus below 2^64 every division that counts is exact |
| `BnModPow.StepKeeps` | Sandboxie/common/bignum.c:925-960 | one turn of the loop keeps result * base^exponent modulo the modulus |
| `BnModPow.ModPow` | Sandboxie/common/bignum.c:907-966 | for exponent 0 it is 1; for every modulus below 2^64 it is base^exponent mod modulus; for others, if the divisions before the last turn are exact (for exponent 1 there are none), it is that exactly when the last reduction is exact too, and after an inexact one the result is not below the modulus |
| `BnModPow.PowCanFail` | Sandboxie/common/bignum.c:907-966 | operands for which exponent 1 fails in that way |
| `PoolBits.RotateWalks` | Sandboxie/common/pool.c:774-777 | the shifted and folded mask walks through the bits of a byte and moves to the next byte after the last one |
| `PoolBitmap.SkipTaken` | Sandboxie/common/pool.c:778-791 | skips taken cells, whole bytes of 0xFF at once |
| `PoolBitmap.CountFree` | Sandboxie/common/pool.c:792-805 | counts free cells until there are enough, whole bytes of zeroes at once, and never runs past the last cell |
| `PoolBitmap.FindCells` | Sandboxie/common/pool.c:762-819 | the lowest start of a run of free cells, -1 exactly when there is none |
| `PoolBitmap.SetCells` | Sandboxie/common/pool.c:913-927 | exactly the given cells become taken |
| `PoolBitmap.ClearCells` | Sandboxie/common/pool.c:986-998 | exactly the given cells become free |
| `PoolBitmap.PrepareBitmap` | Sandboxie/common/pool.c:511-526 | exactly the bits that stand for no cell are set |
| `PoolBitmap.MarkHeader` | Sandboxie/common/pool.c:573-581 | the first cells become taken and no others change |
| `PoolLayout.BitmapCovers` | Sandboxie/common/pool.c:104-114 | the bitmap has a bit for every cell |
| `PoolLayout.Kernel64` | Sandboxie/common/pool.c:47-56 | the constants of the 64-bit driver are sound: 251 cells |
| `PoolLayout.User64` | Sandboxie/common/pool.c:61-69 | the constants of 64-bit user mode are sound: 510 cells |
| `PoolLayout.Kernel32` | Sandboxie/common/pool.c:47-56 | the constants of the 32-bit driver are sound: 252 cells |
| `PoolLayout.CellsHold` | Sandboxie/common/pool.c:99-101 | a request takes enough cells for its bytes and less than one too many |
| `PoolLayout.AddressRoundTrip` | Sandboxie/common/pool.c:931-959 | page and cell are found again from the address of a cell, and no cell is page-aligned |
| `PoolLayout.LargeHolds` | Sandboxie/common/pool.c:1016-1027 | a large chunk holds the request and its structure, in as few whole pages as that allows, computed without a carry out of 32 bits |
| `PoolPage.TakeKeeps` | Sandboxie/common/pool.c:913-927 | taking a free run keeps blocks apart and the meaning of every bit |
| `PoolPage.GiveKeeps` | Sandboxie/common/pool.c:984-998 | giving a block back does too |
| `PoolPage.Page.constructor` | Sandboxie/common/pool.c:451-475 | a page whose bits show nothing but the padding |
| `PoolPage.Page.First` | Sandboxie/common/pool.c:494-584 | the first page, with the cells of the POOL structure reserved |
| `PoolPage.Page.FindCells` | Sandboxie/common/pool.c:762-819 | the lowest run of free cells of the page |
| `PoolPage.Page.Take` | Sandboxie/common/pool.c:898-927 | the block is added, num_free drops by its size without wrapping, and the page invariant holds |
| `PoolPage.Page.Give` | Sandboxie/common/pool.c:982-998 | the block is taken away, num_free grows by its size and stays within the cells of the page |
| `PoolHeap.Pool.constructor` | Sandboxie/common/pool.c:494-584 | a pool with one page and no blocks |
| `PoolHeap.Pool.Reduce` | Sandboxie/common/pool.c:860-874 | a page without the cells counts as having at most one less, and moves to full_pages below the threshold |
| `PoolHeap.Pool.Search` | Sandboxie/common/pool.c:844-877 | the first page on the list that counts enough free cells and has them in a row; all pages before it were passed over for cause, and no block changes |
| `PoolSearch.PassedOn` | Sandboxie/common/pool.c:844-877 | what the search knows and leaves behind after it has passed one more page |
| `PoolHeap.Pool.AddPage` | Sandboxie/common/pool.c:451-475 | a page from the system joins at the head of the list |
| `PoolHeap.Pool.GetCells` | Sandboxie/common/pool.c:827-944 | exactly one block is added at the address that is returned: in the first page on the list that counts enough free cells and has them in a row, at the start of its lowest run, without asking the system; only if no page has room, in the first cell of a new page, or 0 if the system gave none; the counts of all pages and the order of the list are stated |
| `PoolHeap.Pool.FindPage` | Sandboxie/common/pool.c:844-892 | the choice of the page, and a new page only if no page on the list has room |
| `PoolSearch.OneFound` | Sandboxie/common/pool.c:844-858 | a page that is found with room is the first one on the list that had it |
| `PoolSearch.NoneFound` | Sandboxie/common/pool.c:844-892 | a search that ends without a page means that none had room |
| `PoolHeap.Pool.FullBelowFour` | Sandboxie/common/pool.c:869-873 | exactly the pages that count fewer than four free cells are left out of the search |
| `PoolHeap.Pool.FreeCells` | Sandboxie/common/pool.c:952-1001 | exactly the block at the address is taken away; its page counts so many cells more, and is the first one on the list if that makes it four or more again |
| `PoolHeap.Pool.GetLargeChunk` | Sandboxie/common/pool.c:1009-1043 | the new chunk is first on its list |
| `PoolHeap.HeaderTells` | Sandboxie/common/pool.c:1058-1080 | the structure found from the caller's size is that of the chunk, and removing it removes exactly that chunk |
| `PoolHeap.Pool.FreeLargeChunk` | Sandboxie/common/pool.c:1051-1085 | exactly the chunk of the address and size leaves |
| `PoolHeap.Pool.Alloc` | Sandboxie/common/pool.c:651-684 | keeps the pool invariant (bits, blocks, lists, num_free, page on full_pages exactly below four) and says for every request what is added, where, or why nothing is |
| `PoolHeap.Pool.Free` | Sandboxie/common/pool.c:692-719 | keeps the pool invariant and takes away exactly what a size-matched Pool_Alloc gave; alignment tells the two kinds apart |
| `PoolHeap.Pool.SmallNotAligned` | Sandboxie/common/pool.c:705-709 | a small block is never page-aligned |
| `PoolSafety.SmallInside` | Sandboxie/common/pool.c:931-932 | the bytes of a small block lie in its page behind header and bitmap |
| `PoolSafety.LargeInside` | Sandboxie/common/pool.c:1025-1027 | the bytes of a large one lie before its LARGE_CHUNK structure |
| `PoolSafety.MemoryApart` | Sandboxie/common/pool.c:651-719 | in every reachable state, what two callers hold does not overlap |
| `PoolSafety.HandedHolds` | Sandboxie/common/pool.c:898-943 | after Pool_Alloc exactly the new block is in use besides the old ones |
| `PoolSafety.ReturnedHolds` | Sandboxie/common/pool.c:970-1000 | after Pool_Free exactly the returned block is out of use |
| `Lists.UnlinkAt` | Sandboxie/common/list.c:111-136 | List_Remove takes out one element and keeps the order of the others |
| `LockProtocol.StepKeeps` | Sandboxie/common/lock.c:67-142 | every step of every thread keeps the invariant: the word is the number of holders plus the exclusive bit of at most one writer, and a writer that has the lock is the only holder |
| `LockProtocol.Words` | Sandboxie/common/lock.c:71-137 | what the masked, incremented and decremented words are, in terms of count and bit |
| `LockSafety.RunKeeps` | Sandboxie/common/lock.c:67-142 | the invariant in every reachable state, for any number of threads in any order |
| `LockSafety.WordCounts` | Sandboxie/common/lock.c:67-142 | the count in the word is the number of holders, the bit tells a writer, and the word is 0 exactly when nobody holds the lock |
| `LockSafety.MutualExclusion` | Sandboxie/common/lock.c:67-142 | while a thread has the lock for itself no other holds it in any way, and no two threads have set the bit |
| `LockSafety.NoEntryOnceClaimed` | Sandboxie/common/lock.c:71-109 | once the bit is set threads only leave |
| `LockSafety.CanLeave` | Sandboxie/common/lock.c:125-141 | a holder that does not wait for others can leave in a few steps of its own |
| `LockSafety.CanDrain` | Sandboxie/common/lock.c:82-142 | from every state the lock can become free without a step of the threads outside |
| `LockSafety.OpenLockIsTaken` | Sandboxie/common/lock.c:71-113 | while no writer has set the bit, a waiting thread comes in after at most three of its own steps and no step of others, whoever holds the lock |
| `LockSafety.SharesAtOnce` | Sandboxie/common/lock.c:101-113 | threads share the lock: from every reachable state without the bit, a thread about to read the word has its share after two steps, beside all holders |
| `LockSafety.ClaimsAtOnce` | Sandboxie/common/lock.c:71-80 | a writer sets the bit as soon, while the sharers still hold the lock |
| `LockSafety.FreeLockIsTaken` | Sandboxie/common/lock.c:71-113 | with no holder, the compare-exchange of a waiting thread succeeds after at most three of its own steps |
| `LockSafety.WaiterCanGetIn` | Sandboxie/common/lock.c:67-142 | no deadlock: from every reachable state every waiting thread can still get the lock, a writer for itself |
| `CallServer.CallerKeeps` | SandboxiePlus/QSbieAPI/SbieAPI.cpp:683-719 | every step of a caller keeps the invariant of the slot |
| `CallServer.WorkerKeeps` | SandboxiePlus/QSbieAPI/SbieAPI.cpp:642-649 | every step of the worker does |
| `CallServer.OneOwner` | SandboxiePlus/QSbieAPI/SbieAPI.cpp:693-716 | at most one caller is between taking the slot and giving it back |
| `CallServer.WorkerServesOwner` | SandboxiePlus/QSbieAPI/SbieAPI.cpp:642-646 | while the worker executes, the slot holds the request and the reply buffer of the caller that waits for it |
| `CallServer.ExecutedOnce` | SandboxiePlus/QSbieAPI/SbieAPI.cpp:642-649 | no request is executed twice, and each fills the reply buffer of its own call |
| `CallServer.FreeSlotIsEmpty` | SandboxiePlus/QSbieAPI/SbieAPI.cpp:712-716 | after the first call a free slot holds no pointer to a buffer of a caller |
| `CallServer.OwnStatus` | SandboxiePlus/QSbieAPI/SbieAPI.cpp:709-718 | a caller that returns has the status that the server gave to its own request, which was executed exactly once |
| `CallServer.NeverStuck` | SandboxiePlus/QSbieAPI/SbieAPI.cpp:642-719 | while callers are in a call, one of them or the worker can take a step that changes the state |
| `CallServerProgress.EveryCallerCanReturn` | SandboxiePlus/QSbieAPI/SbieAPI.cpp:642-719 | from every reachable state every caller can still return |
| `WildCompare.LastStar` | SandboxiePlus/QSbieAPI/SbieUtils.cpp:36-55 | when the characters between two stars fit, giving the first star more of the string gains nothing |
| `WildCompare.Mismatch` | SandboxiePlus/QSbieAPI/SbieUtils.cpp:50-54 | where they do not fit, the star takes one more character |
| `WildCompare.FitsGlob` | SandboxiePlus/QSbieAPI/SbieUtils.cpp:28-34 | a part without stars in front of a pattern |
| `WildCompare.WildCmpEx` | SandboxiePlus/QSbieAPI/SbieUtils.cpp:24-60 | ends, and is true exactly when the recursive meaning of the pattern is |
| `Pattern.Pattern.constructor` | Sandboxie/common/pattern.c:124-280 | the parts are the pieces between stars, each marked if exactly two stars precede it or __hex is in it, and the flags say what they are named for |
| `Pattern.Wcsnstr` | Sandboxie/common/pattern.c:646-665 | the first place where a part fits; with no_bs none if a backslash comes before it |
| `Pattern.Pattern.Match2` | Sandboxie/common/pattern.c:418-474 | the places tried are those of the specification Attempt, for parts with and without no_bs |
| `Pattern.Pattern.MatchX` | Sandboxie/common/pattern.c:369-410 | the answer is that of the specification Result |
| `PatternParts.EmbedsGlob` | Sandboxie/common/pattern.c:418-474 | places for the parts in their order make the pattern match |
| `PatternParts.GlobEmbeds` | Sandboxie/common/pattern.c:418-474 | a match gives places for the parts |
| `PatternParts.LeftEndLeast` | Sandboxie/common/pattern.c:433-453 | if the parts can be placed at all, the leftmost places end first |
| `PatternParts.AttemptTail` | Sandboxie/common/pattern.c:431-471 | with a star at the end the first places decide, and trying again finds nothing |
| `PatternRecover.CatchesRecovers` | Sandboxie/common/pattern.c:431-471 | parts recover if wherever two places of the last one can overlap, the part before it has a place of its own between their starts |
| `PatternRecover.RecoversAll` | Sandboxie/common/pattern.c:431-471 | whether parts recover is decided by the finitely many ways to spread them with gaps up to the length of the longest |
| `PatternRecover.AttemptComplete` | Sandboxie/common/pattern.c:431-471 | without a star at the end the search still misses nothing if the parts recover: whenever places of the last one overlap, and however the others are spread, one of them surely has another place with those after it |
| `Pattern.MatchSound` | Sandboxie/common/pattern.c:369-474 | an answer other than 0 means that the pattern matches |
| `Pattern.MatchComplete` | Sandboxie/common/pattern.c:369-474 | for patterns with a star at the end, with no star, or with parts that recover, it is 0 exactly when the pattern does not match |
| `Pattern.MatchLeftmost` | Sandboxie/common/pattern.c:453-471 | with a star at the end the answer minus one is the least end of any placement of the parts |
| `Pattern.SearchMisses` | Sandboxie/common/pattern.c:453 | the pattern *bb matches bbb, and the search says 0 |
| `PatternExact.Missed` | Sandboxie/common/pattern.c:431-471 | for gaps between the parts and an overlap of the last one from which no part recovers, a string that the pattern matches and the search misses |
| `PatternNarrow.Narrowed` | Sandboxie/common/pattern.c:431-471 | gaps from which no part recovers can be closed before the parts of question marks only, which the search finds at the first place it looks at |
| `PatternExact.RecoverExact` | Sandboxie/common/pattern.c:369-474 | for every pattern with a star but none at the end: the search finds all matches of all strings if and only if the parts recover |
| `PatternExact.CompleteExact` | Sandboxie/common/pattern.c:369-474 | of all patterns, the search finds all matches for exactly those with a star at the end, with no star, or with parts that recover |
| `PatternExact.SearchExact` | Sandboxie/common/pattern.c:369-474 | for patterns of one or two parts, and of more in which the part before the last, wherever it surely ends between places of the last, also lies there: the search is complete if and only if all overlaps of the last part are caught by the one before it |
| `PatternExact.LetterFirst` | Sandboxie/common/pattern.c:431-471 | a part before the last that does not begin with a question mark is of this kind |
| `PatternExact.OnePartExact` | Sandboxie/common/pattern.c:431-471 | for one part behind a star: if and only if it cannot overlap itself |
| `PatternExact.CaughtOverlap` | Sandboxie/common/pattern.c:431-471 | *b*bb is found in all strings it matches although its last part overlaps itself |
| `PatternExact.MarksRecover` | Sandboxie/common/pattern.c:431-471 | *?*??*bb is found in all strings it matches although the part before the last does not catch the overlap of the last |
| `PatternBackslash.SplitWritten` | Sandboxie/common/pattern.c:198-239 | a pattern written from pieces is cut into them; exactly the parts behind two stars are marked, and those with __hex in them |
| `PatternBackslash.PlaceMeans` | Sandboxie/common/pattern.c:646-665 | a part is found at the first place where it fits, and a marked one only if no backslash lies before that |
| `PatternBackslash.AttemptStrict` | Sandboxie/common/pattern.c:418-474 | if no part has a backslash or a question mark, what is found keeps to that: no backslash between a marked part and the one before |
| `PatternBackslash.StarsMean` | Sandboxie/common/pattern.c:369-474 | for such patterns with a star at the end the answer is not 0 exactly if the parts occur so, and the first one at the start if no star is there |
| `PatternBackslash.CrossesOver` | Sandboxie/common/pattern.c:453 | over a part that is a backslash itself the search goes on beyond it |
| `HashMap.BucketIdx` | Sandboxie/common/map.c:103-108 | the masked hash is its remainder by the number of buckets, a power of two |
| `HashTable.ResizeKeeps` | Sandboxie/common/map.c:122-154 | a resize keeps what the map holds under every key, in order |
| `HashTable.HookedHeld` | Sandboxie/common/map.c:111-119 | a node put at the front or the end of its chain is the first or last value under the matching keys |
| `HashTable.DroppedPick` | Sandboxie/common/map.c:265-290 | taking the first matching node out takes the first value and no other |
| `HashMap.HashMap.Unhook` | Sandboxie/common/map.c:128-138 | all nodes leave their chains and are listed, each chain backwards |
| `HashMap.HashMap.Resize` | Sandboxie/common/map.c:122-154 | the new buckets hold the same nodes, each where its hash says |
| `HashMap.HashMap.Add` | Sandboxie/common/map.c:191-218 | one value more, first or last under its key, all other keys unchanged; buckets stay 0 or a power of two in number, are doubled only when there are two nodes for each, and stay at least half as many as the nodes; the node count is right |
| `HashMap.HashMap.Get` | Sandboxie/common/map.c:258-263 | the first value under the key |
| `HashMap.HashMap.Take` | Sandboxie/common/map.c:273-290 | the first value under the key is returned and removed, everything else stays |
| `HashMap.HashMap.Clear` | Sandboxie/common/map.c:293-308 | nothing is left under any key |
| `HashIter.NextOfAll` | Sandboxie/common/map.c:333-369 | the next node of the iteration over all chains |
| `HashIter.Visit` | Sandboxie/common/map.c:333-369 | a whole iteration visits every node once |
| `HashIter.NextOfKey` | Sandboxie/common/map.c:337-369 | the next node of the key; from then on the iterator has the key of that node |
| `HashIter.VisitKey` | Sandboxie/common/map.c:333-369 | an iteration over a key gives its values in order |
| `HashIter.Erase` | Sandboxie/common/map.c:372-383 | the current node goes, those before and behind it stay, and the iteration, of all nodes or of one key, goes on with what was still to come |
| `NetRanges.LookupAgrees` | Sandboxie/common/netfw.c:167-179 | for ranges that do not overlap, the one lookup agrees with scanning all of them |
| `NetRanges.OverlapHides` | Sandboxie/common/netfw.c:167-179 | with overlapping ranges it can miss one |
| `NetRanges.MergeMaps` | Sandboxie/common/netfw.c:145-165 | a merge is refused exactly when a new range lies in the old one found for it, and otherwise inserts all |
| `NetRanges.FindMerged` | Sandboxie/common/netfw.c:145-179 | a lookup after a merge finds the range that begins later of those found in the two maps, the old one if both begin there; the ranges stay in order |
| `NetRanges.MergeKeepsLevels` | Sandboxie/common/netfw.c:145-179 | an accepted merge, also of maps with overlaps, keeps all matches with their levels if and only if each new range that an old one hides is hidden by ranges of more than one key, and another range begins no later than right behind the old one where the new one goes on; without the first half, if and only if every key that matched still does |
| `NetRanges.LosingKey` | Sandboxie/common/netfw.c:155-157 | a key that stops matching when the second half fails |
| `NetRanges.LosingLevel` | Sandboxie/common/netfw.c:155-157 | a key that loses a level when the first half fails |
| `NetRanges.CleanFits` | Sandboxie/common/netfw.c:145-179 | the condition for maps without overlaps of their own: two ranges that overlap have an old one of more than one key, and if the new one surrounds it the next old one begins right behind it |
| `NetRanges.MergedLevel` | Sandboxie/common/netfw.c:145-179 | what each key matches after an accepted merge: what the old map gave, or what the new one gave unless an old range that begins no earlier hides it there |
| `NetRanges.SurroundedLost` | Sandboxie/common/netfw.c:155-157 | ports 1 to 10 added to port 5 are accepted and lost |
| `NetRanges.SurroundedKept` | Sandboxie/common/netfw.c:155-157 | ports 1 to 5 added to 2 to 3 and 4 to 6 are accepted, and nothing is lost |
| `NetRanges.ApartAccepted` | Sandboxie/common/netfw.c:152-158 | maps that do not overlap at all are accepted, keep all matches and stay without overlaps |
| `NetRanges.SameMaps` | Sandboxie/common/netfw.c:127-143 | true exactly for equal maps |
| `NetFirewall.BetterMeans` | Sandboxie/common/netfw.c:396-416 | the comparison is: above in program, end point, port and address, or level with it and blocking against allowing or with a higher protocol level |
| `NetFirewall.BothBetter` | Sandboxie/common/netfw.c:408-413 | each of two matches can be better than the other |
| `NetFirewall.BlockTraffic` | Sandboxie/common/netfw.c:418-441 | traffic is blocked when the match left after all comparisons blocks; what that is in terms of the rules is in SettledVerdict and UnsettledVerdict |
| `NetFirewall.BestIsTop` | Sandboxie/common/netfw.c:418-441 | that match is maximal in program, end point, port and address |
| `NetFirewall.SettledDecides` | Sandboxie/common/netfw.c:408-441 | when some blocking match of the highest tier has no allowing one above its protocol level, or none blocks, traffic is blocked exactly when a match of that tier blocks |
| `NetFirewall.SameProtocolSettles` | Sandboxie/common/netfw.c:412-413 | equal protocol levels in the tier are enough for that |
| `NetFirewall.OrderDoesNotMatter` | Sandboxie/common/netfw.c:418-441 | in that case the order of the rules does not matter |
| `NetFirewall.LastDecides` | Sandboxie/common/netfw.c:408-441 | in every other case the last match can decide: a blocking one of the tier blocks, the strongest allowing one lets through |
| `NetFirewall.SomeOrderFails` | Sandboxie/common/netfw.c:408-441 | so one order of the rules blocks the traffic and another lets it through |
| `NetFirewall.OrderMatters` | Sandboxie/common/netfw.c:408-441 | the order of the rules is irrelevant if and only if their matches are settled |
| `NetPriority.MatchMeans` | Sandboxie/common/netfw.c:167-179 | the level of every match: 0 for none, 1 for an empty map, 3 for a range, 4 for a single key; the nearest range decides |
| `NetPriority.CleanReaches` | Sandboxie/common/netfw.c:167-179 | in a map without overlaps a key is matched if any range has it |
| `NetPriority.AppliesExact` | Sandboxie/common/netfw.c:374-391 | a rule gives a match exactly if both maps reach and the protocol is any or the same |
| `NetPriority.PreferredExact` | Sandboxie/common/netfw.c:374-416 | one of two rules is the better match exactly if it is of the higher program level; else has ports and addresses; of two such names the port or the address alone; else by ports, single port, addresses, single address; else blocks where the other allows, or has a protocol where the other has none |
| `NetPriority.BothOverOne` | Sandboxie/common/netfw.c:400-402 | a rule with ports and addresses comes before all of its program level that have not both |
| `NetPriority.SingleOverRange` | Sandboxie/common/netfw.c:400-404 | of two rules with both, the one that names the port or the address alone comes first |
| `NetPriority.ProtocolOverAny` | Sandboxie/common/netfw.c:412-413 | a rule with a protocol comes before the same rule without one |
| `NetPriority.SettledExact` | Sandboxie/common/netfw.c:418-441 | the rules are settled exactly if none of the highest blocks, or a blocking one has a protocol, or no allowing one has |
| `NetPriority.SettledVerdict` | Sandboxie/common/netfw.c:418-441 | settled traffic is blocked exactly if one of the highest rules that apply blocks |
| `NetPriority.UnsettledVerdict` | Sandboxie/common/netfw.c:418-441 | of all other traffic, the last of the highest rules that blocks or has a protocol decides |
| `NetPriority.SomeLastWord` | Sandboxie/common/netfw.c:418-441 | and there is one |
| `NetRules.RuleNode.Absorb` | Sandboxie/common/netfw.c:319-349 | the maps are merged as the specification Joined says |
| `NetRules.RuleList.AddRule` | Sandboxie/common/netfw.c:302-363 | the list becomes what the specification Added says: one rule grown, or the new one at the end; see AddedExact |
| `NetRules.JoinedMatches` | Sandboxie/common/netfw.c:319-355 | the merged rule matches what either of the two did, with the same result, if the maps put together keep their matches |
| `NetRules.LostTraffic` | Sandboxie/common/netfw.c:319-355 | otherwise some traffic loses the result of the new rule |
| `NetRules.MergeExact` | Sandboxie/common/netfw.c:319-355 | so merging two rules changes no result if and only if the maps keep their matches |
| `NetRules.SameResults` | Sandboxie/common/netfw.c:302-363 | for every port, address and protocol the set of match results equals that of the old list and the new rule, if the rule that takes it in, if any, keeps its matches |
| `NetRules.AddedTame` | Sandboxie/common/netfw.c:302-363 | whatever is merged, the maps stay such that this can be asked for the next rule |
| `NetRules.SameVerdict` | Sandboxie/common/netfw.c:302-441 | so adding a rule blocks what the rules side by side would, where their matches are settled |
| `NetRules.MergeLoses` | Sandboxie/common/netfw.c:302-363 | otherwise a result is lost, when no other rule gives it |
| `NetRules.MergedResult` | Sandboxie/common/netfw.c:319-355 | what a merged rule gives for each traffic: what the old one did, and what the new one did unless the merge takes it away there |
| `NetRules.AddedResults` | Sandboxie/common/netfw.c:302-363 | the results of a list for each traffic after a rule was added: those of the list, and that of the rule unless its merge takes it away there |
| `NetRules.ListExact` | Sandboxie/common/netfw.c:302-363 | so in a list of any length adding a rule changes no result for some traffic if and only if the merge takes nothing away there or an old rule gives the same |
| `NetRules.AddExact` | Sandboxie/common/netfw.c:302-363 | for a list of one rule, adding another changes no result of any traffic if and only if the maps keep their matches |
| `NetMerge.RefusedExact` | Sandboxie/common/netfw.c:152-158 | maps are not put together exactly if a new range lies in the old one nearest to its begin |
| `NetMerge.MergesExact` | Sandboxie/common/netfw.c:307-355 | two rules become one exactly if level, action and protocol agree and they have no maps; only ports or only addresses, with no new range in an old one; or both, one map being the same and the other the same or without a new range in an old one |
| `NetMerge.JoinedIsUnion` | Sandboxie/common/netfw.c:319-355 | the rule they become has the old ranges and the new ones that begin where no old one does |
| `NetMerge.AddedExact` | Sandboxie/common/netfw.c:302-363 | a new rule joins the first rule with which it becomes one, and nothing else changes; if there is none it comes last |
| `NetMerge.AddedLength` | Sandboxie/common/netfw.c:302-363 | so the list grows exactly if no rule takes the new one |
| `NetMerge.ApartBecomeOne` | Sandboxie/common/netfw.c:302-363 | rules of one kind with only ports, or only addresses, that do not overlap become one |
| `Adler.Folds` | Sandboxie/common/crc.c:81-82 | the fold keeps the remainder modulo 65521 |
| `Adler.NoOverflow` | Sandboxie/common/crc.c:74-80 | with blocks of 5550 bytes no 32-bit sum overflows |
| `Adler.Block` | Sandboxie/common/crc.c:75-80 | the sums after a block are those reduced after every byte |
| `Adler.Adler32` | Sandboxie/common/crc.c:69-93 | the checksum of section 2.2 of RFC 1950, for every byte string |
| `Adler.SumsAre` | Sandboxie/common/crc.c:69-93 | the first sum is 1 and all bytes, the second the number of bytes and each byte as often as there are bytes from it on, modulo 65521 |
| `Adler.KnownChecksum` | Sandboxie/common/crc.c:69-93 | the checksum of Wikipedia is 0x11E60398 |
| `IniFile.PrepLine` | Sandboxie/common/ini.cpp:360-377 | the trimmed line and where the next one starts |
| `IniFile.ReadEntry` | Sandboxie/common/ini.cpp:379-404 | the entry of a line, or none when the length of the value would be negative; see SettingRead, NoValueRead and PlainRead for what it is |
| `IniFile.CIniFile.ReadSection` | Sandboxie/common/ini.cpp:406-421 | the entries up to the next header, without the empty ones at the end |
| `IniFile.CIniFile.ReadHeader` | Sandboxie/common/ini.cpp:423-438 | a new section with the name up to the bracket |
| `IniFile.CIniFile.Load` | Sandboxie/common/ini.cpp:124-133 | the sections of the text |
| `IniRoundTrip.BuildText` | Sandboxie/common/ini.cpp:466-481 | the text of the sections |
| `IniRoundTrip.EntryBack` | Sandboxie/common/ini.cpp:379-404 | the line written for an entry is read back as that entry |
| `IniRoundTrip.RoundTrip` | Sandboxie/common/ini.cpp:124-481 | loading the text that was saved gives the same sections and entries in the same order |
| `IniExact.LineMust` | Sandboxie/common/ini.cpp:379-404 | an entry that is read back from its line is a good one |
| `IniExact.UnnamedLost` | Sandboxie/common/ini.cpp:406-481 | a document with an unnamed section behind another does not come back: no header is written for it, so that its entries join the section before |
| `IniExact.LoadCount` | Sandboxie/common/ini.cpp:124-438 | what is loaded takes a line for each entry and each header, and a blank line before a header or the end is lost |
| `IniExact.TextLines` | Sandboxie/common/ini.cpp:466-481 | the lines of a saved text: one for each entry, each section and each name, and a blank one before each header and the end |
| `IniExact.RoundTripExact` | Sandboxie/common/ini.cpp:124-481 | of all documents, exactly the good ones come back from the text that is saved for them |
| `IniRoundTrip.SaveAndLoad` | Sandboxie/common/ini.cpp:124-481 | the same for two file objects |
| `IniRoundTrip.LineFails` | Sandboxie/common/ini.cpp:396-402 | exactly the lines that fail: nothing between the first = and a blank that the trimming took away |
| `IniRoundTrip.LoadFails` | Sandboxie/common/ini.cpp:124-438 | loading fails if and only if such a line is in the text outside the headers |
| `IniRoundTrip.BlankValueFails` | Sandboxie/common/ini.cpp:396-402 | a setting with a blank for its value is one |
| `IniLines.SettingRead` | Sandboxie/common/ini.cpp:379-404 | name, spaces, the first =, spaces and value are read as that name and value |
| `IniLines.NoValueRead` | Sandboxie/common/ini.cpp:379-404 | a line that ends with its first = is read as the name without a value, or fails if a space or a tab follows |
| `IniLines.PlainRead` | Sandboxie/common/ini.cpp:379-392 | a line that begins with # or has no = is read as its text without a name |
| `IniLines.HeaderRead` | Sandboxie/common/ini.cpp:428-436 | the name of a section goes up to the first ], or to the end of the line without one |
| `IniLines.LineRead` | Sandboxie/common/ini.cpp:360-438 | the same with any blanks around the text of the line, and where the next line starts |
| `IniLines.LoadLaid` | Sandboxie/common/ini.cpp:124-438 | a text of such lines is read as a section for the lines before the first header and one for each header, with the entries of the lines in their order, and without empty ones at the end of a section |
| `IniLines.EveryText` | Sandboxie/common/ini.cpp:124-438 | every text is made of such lines, so that loading is determined for all texts: it fails exactly if a line does |
| `IniExact.DropEmptyIs` | Sandboxie/common/ini.cpp:419-420 | exactly the empty entries at the end are left out |

## Left out

- File, registry, port and driver calls, timing, pool tags, lock macros and interrupt levels: only their results enter, as parameters (the addresses the system gives to a pool, the status of a request).
- Allocation failure outside the pool: arrays, nodes and rules are always obtained.
- `CRC32`, `CRC_Tzuk32`, `rc4.c`, `base64.c`, `bom.c`, `str_util.c`, `stream.c`, `verify.c`, message parsing, and everything with a user interface: easier members, or nothing but foreign calls.
- `Pattern_Match3` (`__hex` sequences), lower-casing, and `Pattern_MatchPathList`.
- Pattern.Pattern.Match2: patterns with `__hex` in a part are cut and marked as in the code, but not matched. With exactly two stars before a part, completeness without a star at the end is not stated, nor anything but soundness for parts with a backslash or a question mark, over which the search goes on beyond backslashes (CrossesOver).
- Pattern.Pattern.constructor: the string is not empty and not null, for which `pattern.c:261-271` reads before its start or goes on to search it.
- PatternExact.SearchExact: the simpler condition need not be exact where, of three parts and more, the part before the last begins with a question mark and surely ends, but does not lie, between places of the last: `*?*??*bb` misses nothing although its overlap is not caught (MarksRecover). The condition of RecoverExact is exact for these too.
- PatternExact.CompleteExact: asks for some character that the pattern does not use, to fill the missed string with.
- String conversion and random numbers of `bignum.c`, and its freeing of intermediate results.
- Text parsers of `netfw.c` and the chunking of `CSbieAPI__CallServer`: rest on foreign conversion and transport functions.
- `Pool_Delete`, `POOL_DEBUG`, the eyecatcher checks, and the pointer from a page to its pool: one pool is modelled, and its operations are atomic.
- `rbtree_last`, `rbtree_previous`, post-order traversal, and comparison functions of the tree: keys are integers in their order.
- Chains of the hash map and lists of pages and rules are sequences: relinking of their nodes is not modelled. Overflow of the bucket and node counts is not either.
- HashMap.HashMap.Add: asks that keys compare by an equivalence and that keys that match have the same hash, without which the lookups of the code do not find what was added; Take and the iteration over a key ask the same.
- Trees of firewall ranges are sequences in the order of their keys, with the lookup and the insertion that the red-black tree is proved to have.
- BnLong.LongDivide: a dividend with leading zero words is taken only where the shifted one is not shorter: with a single such word, into which the shift spills. For others the quotient would get more words than the division writes (`bignum.c:840-861`), and the rest would be what the pool left there. `Divide` takes these too where it does not come to a long division.
- BnModPow.ModPow: for a modulus of three words and more, nothing but the size of the result is stated when a division before the last turn is inexact; the code then goes on with a wrong factor.
- NetRules.MergeLoses: for two rules; ListExact says for lists when a result is lost.
- LockSafety.WaiterCanGetIn: says that a waiting thread can get in, not that a scheduler lets it; the code has no queue. Counts of 2^31 - 1 holders and more are outside the model.
- CallServerProgress.EveryCallerCanReturn: likewise without a scheduler, and for a worker that is not told to terminate.
- Pattern.Pattern.MatchX: no part has `__hex` in it; strings are not null, and patterns are shorter than 65536 characters, which is what the length field of a part can hold.

# Verified models of the allocator, the search trees, the number formatting and the DWARF readers

This project models the core of a small C library (`examples/stdlib.c`) and four readers of its bundled
DWARF library (`contrib/libdw`), and proves what they promise.

* **Pool allocator.** `RbTrees.RbTree` is the red-black tree whose nodes are the headers of live blocks: parent,
  left, right, colour, size and the summary `lb`, `ub`, `gap`, all assigned in place. `Trees`, `RedBlack`, `Links`,
  `Summaries` and `Gaps` hold the values such links denote and the invariants on them; a position in the tree is a
  zipper (`Ctx`) plus a subtree. `Allocator.Pool` is malloc, free and realloc on top, `AllocatorRuns` whole runs.
* **tsearch.** `SearchTrees.SearchTree` is the tsearch family on the same tree without summaries.
* **Numbers and text.** `Numerals`, `Strtol`, `Printf` and `Vsnprintf` cover integer parsing, integer printing and the
  format interpreter. `StrtolTexts` and `Formats` say what they do by the characters of texts and formats, `RoundTrip`
  composes them. `Stream` is the write side of `FILE`.
* **DWARF.** `LineProgram` and `LineTable` are the line-number program, its state machine and the build of the sorted
  table; `LineEncoding` says what they do by the bytes of a program. `AbbrevCache` is the lazily scanned abbreviation
  table and `AbbrevEncoding` its bytes; `DwpIndex` is the double-hashed package index; `Leb128` the variable-length
  integers of section 7.6 of DWARF 5.

Nodes are numbers; a map from numbers to fields stands for the memory that the node macros index. The source writes
every tree operation twice, once per mirror image, and the whole tree twice, with summaries
(`examples/stdlib.c:1827-2117`) and without (`examples/stdlib.c:5160-5406`). The model has one branch with a `Side`
argument and one class with an `augmented` flag. Ghost parameters name the zipper at which an operation works.

## Findings

Each is a theorem below, with the exact condition under which the code does what it promises.

* `realloc` grows the last block in place up to the largest 32-bit unit number rather than the end of its pool. Blocks
  stay inside the pool exactly when the request is not `Pool.LeavesPool`; in a pool of the largest size none is.
  `AllocatorRuns.ReallocLeavesPool` is a run of two calls that leaves a pool of one page.
* A header's address is a 32-bit product, exact exactly for units below 2^28 (`Allocator.HeaderOffsetExact`). The
  mapped limit is a 32-bit sum and covers the request exactly when it does not wrap (`Allocator.GrownCovers`). It
  becomes the start of the request's last page plus four pages, whatever the end of the pool (`Allocator.GrownPage`).
* A moving `realloc` copies the old block's whole length from its payload, two units more than the payload has. The
  new block is always large enough, and the range read is always mapped (`Pool.CopySourceMapped`).
* The probe loop of the package index examines every slot exactly when the slot count is a power of two, which the
  reader never checks (`DwpIndex.ProbesCoverTable`).
* An unknown extended line opcode of length zero makes the reader take its sub-opcode byte again as the next opcode.
  Replacing special opcodes by standard ones is sound exactly for programs in which that byte is never itself a
  special opcode (`LineProgram.DesugarLists`, counterexample `DesugarFails`).
* Abbreviation codes are kept in 31 bits: larger ones are never found. The cached lookup agrees with a plain scan for
  all codes exactly on clean tables (`AbbrevCache.CleanIff`). Parsing a declaration by its offset can change later
  lookups; it does not exactly when it is harmless (`AbbrevCache.PreloadIff`).
* `malloc` and `realloc` add the header to the request before any check: from 2^64 - 32 bytes on the sum wraps and the
  block is shorter than its header, exactly then (`Allocator.ShortExactlyWhenWrapped`).
* `vasprintf` cannot return its largest count: the size it asks for overflows there, and only there
  (`Vsnprintf.AllocSizeFits`).
* The flag `0` makes the digits alone fill the width: a sign or prefix comes on top, and the field is wider than asked
  exactly when there is one and the digits are fewer than the width (`Formats.FieldWidth`). It also switches `-` off.
* The line reader takes the length of an extended operation for one byte, so a file definition of 128 bytes or more is
  never read as written, and all others are (`LineEncoding.EncodedIsDecoded`). It rejects a discriminator when the
  header declares standard opcode 4, another operation, with other than one operand (`LineEncoding.Rejected`).
* A prefix `0x` that no hexadecimal digit follows is consumed whole (`StrtolTexts.ReadsBarePrefix`).
* `fputc` returns the byte as a signed char, so a successful `fputc(255)` looks like a failure.
* When a number is out of range the parser stops at the first digit that makes it so, not at the end of the digits.

## Model

| member | source | states |
|---|---|---|
| RedBlack.InsertStart | examples/stdlib.c:2245-2258 | a red leaf put at any empty place of a red-black tree is the start state of the insertion loop |
| RedBlack.InsertRecolour | examples/stdlib.c:1899-1907 | with a red uncle, recolouring moves the only possible red-red edge up two levels |
| RedBlack.InsertInner | examples/stdlib.c:1908-1914 | turning the parent keeps the loop state and puts the red-red edge on the outer side |
| RedBlack.InsertOuter | examples/stdlib.c:1915-1917 | recolouring and turning the grandparent keeps the loop state and removes the red-red edge |
| RedBlack.InsertDone | examples/stdlib.c:1893-1894 | a state with a black parent, or the root, is a red-black tree once the root is black |
| RedBlack.RemoveStart | examples/stdlib.c:2094-2115 | taking out a red node with at most one child leaves a red-black tree, a black one leaves one path side exactly one black node short |
| RedBlack.RemoveRedSibling | examples/stdlib.c:1954-1960 | a red sibling is turned into a black one, keeping the removal state |
| RedBlack.RemoveRecolour | examples/stdlib.c:1961-1969 | with two black nephews, reddening the sibling moves the shortage up one level |
| RedBlack.RemoveInnerNephew | examples/stdlib.c:1972-1981 | turning the sibling makes the outer nephew red, keeping the removal state |
| RedBlack.RemoveOuterNephew | examples/stdlib.c:1982-1988 | with a red outer nephew one turn gives a red-black tree |
| RedBlack.RemoveDone | examples/stdlib.c:2032-2033 | blackening a red child, or reaching the root, gives a red-black tree |
| RedBlack.HeightAndCount | examples/stdlib.c:5098-5102 | height is at most twice the black height, and the black height is logarithmic in the number of nodes |
| RedBlack.HeightIsLogarithmic | examples/stdlib.c:5098-5102 | 2^height <= (n+1)^2 for every red-black tree of n nodes, the promised O(log N) |
| Links.LinksMeanOneTree | examples/stdlib.c:1722-1725 | parent, left, right and colour fields denote at most one tree |
| Trees.TurnKeepsOrder | examples/stdlib.c:1845-1886 | a rotation keeps the in-order sequence, and the opposite rotation undoes it |
| Trees.SuccessorOrder | examples/stdlib.c:2045-2082 | putting the in-order successor in the removed node's place leaves the sequence minus exactly that node |
| Summaries.HoleIsLargest | examples/stdlib.c:1836-1842 | the recursive hole of a block list is its largest gap between neighbours, and is attained |
| Summaries.DescribeIsExact | examples/stdlib.c:1690-1693 | the summary of a subtree is the true lowest start, highest end and largest internal hole |
| Summaries.HoleConcat | examples/stdlib.c:1836-1841 | the largest hole of two adjoining block lists from their own holes and the gap between |
| Summaries.MergeNoWrap | examples/stdlib.c:1831-1842 | on right inputs the 32-bit computation of a summary never wraps |
| Summaries.MergeDescribes | examples/stdlib.c:1831-1842 | the computed summary is the exact one of left blocks, node and right blocks |
| Summaries.FixedTree | examples/stdlib.c:1827-1843 | fixing a node whose children are right makes its whole subtree right |
| Gaps.FullHasNoRun | examples/stdlib.c:2206-2228 | if no hole and neither edge is large enough, no free run of the size exists |
| Gaps.GoInnerLeft | examples/stdlib.c:2185-2196 | descending left inside a hole keeps the search invariant: a run still exists in the window |
| Gaps.GoInnerRight | examples/stdlib.c:2197-2203 | likewise descending right |
| Gaps.GoOuterLeft | examples/stdlib.c:2208-2216 | descending left along the lower edge keeps the search invariant |
| Gaps.GoOuterRight | examples/stdlib.c:2217-2224 | descending right along the upper edge keeps the search invariant |
| Gaps.Stuck | examples/stdlib.c:2225-2227 | the search can fail only at the root, and then the whole pool has no run of the size |
| RbTrees.RbTree.FixInvariant | examples/stdlib.c:1827-1843 | one node's summary becomes the value computed from its children, nothing else changes |
| RbTrees.RbTree.FixUp | examples/stdlib.c:1891-1892 | repairing from a node to the root makes every summary right, given that only those on the path were stale |
| RbTrees.RbTree.Rotate | examples/stdlib.c:1845-1886 | the links denote the rotated tree, in-order sequence unchanged, all summaries right |
| RbTrees.RotateLinks | examples/stdlib.c:1847-1861 | the pointer assignments of a rotation denote the rotated tree in the same surroundings |
| RbTrees.RotateSums | examples/stdlib.c:1850-1862 | the two fix-ups of a rotation make the turned subtree's summaries right |
| RbTrees.RbTree.InsertPushUp | examples/stdlib.c:1902-1906 | the recolouring branch keeps links, summaries, order and loop state |
| RbTrees.RbTree.InsertTurnOuter | examples/stdlib.c:1915-1917 | the final turn keeps links, summaries and order and ends the loop |
| RbTrees.RbTree.RebalanceInsert | examples/stdlib.c:1888-1943 | from any inserted leaf with stale path summaries: a red-black tree, right summaries, same in-order sequence; terminates |
| RbTrees.RbTree.RemoveTurnSibling | examples/stdlib.c:1954-1960 | the red-sibling branch keeps links, summaries and order |
| RbTrees.RbTree.RemovePushUp | examples/stdlib.c:1966-1968 | the recolouring branch keeps links, summaries, order and removal state one level up |
| RbTrees.RbTree.RemoveTurnNephew | examples/stdlib.c:1972-1981 | the inner-nephew branch keeps links, summaries, order and removal state |
| RbTrees.RbTree.RemoveFinish | examples/stdlib.c:1982-1988 | the last turn gives a red-black tree with right summaries and the same sequence |
| RbTrees.RbTree.RebalanceRemove | examples/stdlib.c:1945-2034 | from any removal state: a red-black tree, right summaries, same in-order sequence; terminates |
| RbTrees.RbTree.Successor | examples/stdlib.c:2045-2050 | the left end of the right subtree, with its place in the tree |
| RbTrees.RbTree.UnlinkOne | examples/stdlib.c:2094-2112 | a node with at most one child is replaced by the child, and every summary is right again |
| RbTrees.RbTree.SpliceOut | examples/stdlib.c:2049-2063 | the successor is unhooked from its place |
| RbTrees.RbTree.TakePlace | examples/stdlib.c:2064-2091 | the successor takes over links and colour of the removed node; the path fix-ups end right although they start from stale children |
| RbTrees.RbTree.UnlinkTwo | examples/stdlib.c:2044-2093 | removal of a node with two children by relinking its successor, no node copied |
| RbTrees.RbTree.Remove | examples/stdlib.c:2036-2117 | any node: a red-black tree with right summaries whose sequence is the old one minus exactly that node |
| RbTrees.RbTree.Insert | examples/stdlib.c:2237-2258 | a leaf at any empty place: a red-black tree with right summaries whose sequence has exactly that node more, at that place |
| RbTrees.RbTree.Resize | examples/stdlib.c:2370-2372 | a new size at a node leaves all summaries right |
| Allocator.PayloadFits | examples/stdlib.c:2165-2166 | a block of the computed number of units holds the request, tightly, exactly when adding the header does not wrap |
| Allocator.ShortExactlyWhenWrapped | examples/stdlib.c:2165-2166 | a block is shorter than a header and one unit exactly when adding the header wraps |
| Allocator.PtrArithmetic | examples/stdlib.c:2271-2277 | a pointer passes the checks and names unit n exactly when it is n's payload address |
| Allocator.UnitsOfUnits | examples/stdlib.c:2329-2330 | a moved block is two units longer than a fresh one, because the header is added twice |
| Allocator.HeaderOffsetExact | examples/stdlib.c:1720-1721 | the address of a header is right exactly below 2^28 units; two collide exactly when equal modulo 2^28 |
| Allocator.GrownCovers | examples/stdlib.c:2119-2137 | the limit stays a page multiple, and covers the request exactly when the 32-bit sum does not wrap |
| Allocator.GrownPage | examples/stdlib.c:2123-2135 | unless the sum wraps, growth moves the limit to four pages above the start of the page of the request |
| Allocator.Pool.constructor | examples/stdlib.c:1796-1822 | an empty pool is valid and has no blocks |
| Allocator.Pool.Find | examples/stdlib.c:2282-2296 | finds exactly the live blocks and the start of the next block outside its subtree; the steps taken are counted: 2^steps <= (n+1)^2 |
| Allocator.Pool.GapTurn | examples/stdlib.c:2182-2228 | one turn of the search keeps a window in which a run of the size exists if one existed; it gets stuck only at the root, and then no run exists |
| Allocator.Pool.FindGap | examples/stdlib.c:2177-2229 | fails only when no run of the size exists, and only at the root; otherwise ends at an empty child place bounded by its neighbours; the steps are counted: 2^steps <= (n+1)^2 |
| Allocator.Pool.MemGrow | examples/stdlib.c:2119-2137 | succeeds exactly when the limit already covers the request or mapping succeeds; what the limit becomes, and exactly when it passes the end of the pool |
| Allocator.Pool.AllocUnits | examples/stdlib.c:2177-2258 | finds a place whenever a free run exists, unless mapping fails and there is a place, no higher than the used part, that is not mapped yet; the new block is inside the pool, meets no live block and starts no higher than the used part; a clash is reported exactly for a place at unit 2^28 or above or a block shorter than its header |
| Allocator.Pool.Malloc | examples/stdlib.c:2161-2263 | every request: gives null only for a size of 2^32 units or more, without a free run, or when mapping fails and a place is not mapped yet; on success one block is added, disjoint and in the pool, all others keep address and size; a clash only when adding the header wraps or the place chosen is at unit 2^28 or above |
| Allocator.Pool.RemoveBlock | examples/stdlib.c:2291-2291 | the block set loses exactly the given block |
| Allocator.Pool.Release | examples/stdlib.c:2265-2297 | succeeds exactly for null, the zero-size pointer and pointers malloc returned; removes exactly that block |
| Allocator.Pool.Ceiling | examples/stdlib.c:2354-2357 | the bound found is the successor's start: a size fits under it exactly when the block can have it in place |
| Allocator.Pool.ReallocInPlace | examples/stdlib.c:2357-2375 | the block gets the new size or nothing changes; exact conditions for success, bounds and mapping |
| Allocator.Pool.CopyPayload | examples/stdlib.c:2376-2382 | the new payload starts with the old one; no live block's memory changes |
| Allocator.Pool.CopySizeExact | examples/stdlib.c:2376-2376 | the 32-bit number of bytes to copy does not wrap when the block is moved |
| Allocator.Pool.CopySourceMapped | examples/stdlib.c:2357-2382 | when a block that cannot stay in place can be moved, the range copied, two units past the block, is mapped |
| Allocator.Pool.ReallocMove | examples/stdlib.c:2376-2388 | a new block with the old payload replaces the old block, or nothing changes when there is no free run or mapping fails and a place is not mapped yet; a clash only when the new place is at unit 2^28 or above |
| Allocator.Pool.ReallocFound | examples/stdlib.c:2354-2388 | the live block found, in place exactly when its successor leaves room, else moved; every effect and its condition; a clash only in a move to unit 2^28 or above |
| Allocator.Pool.ReallocBlock | examples/stdlib.c:2326-2388 | a well-formed pointer and any size but 0: panics exactly when the block is not live and the size is not too large; otherwise the effects of ReallocFound, and a clash when adding the header wraps |
| Allocator.Pool.Realloc | examples/stdlib.c:2309-2389 | every pointer and request: in place exactly when the successor leaves room, else a move; when it fails and why, payload, other blocks, errors, bounds and mapping in every case; bounds are kept exactly when the request does not leave the pool; a clash only when adding the header wraps or the new place is at unit 2^28 or above |
| AllocatorRuns.ValidIsDisjoint | examples/stdlib.c:1695-1707 | in every valid state live blocks are pairwise disjoint, above the pool header and of at least three units |
| AllocatorRuns.PayloadAvoidsHeaders | examples/stdlib.c:1720-1721 | no payload byte of a live block lies in any live header, at the address headers are accessed by |
| AllocatorRuns.Serve | examples/stdlib.c:2161-2389 | after any sequence of malloc, free and realloc: valid tree and exact summaries, blocks disjoint, in the pool and mapped, until a call panics or the run ends for a stated cause: a clash needs a request that wraps or a used part that reaches unit 2^28, leaving the pool needs realloc in a pool not of the largest size, losing the mapping needs a block that ends within 1024 units of 2^32; in a pool of the largest size none happens while the requests add up to less than 2^28 units |
| AllocatorRuns.ReallocLeavesPool | examples/stdlib.c:2339-2375 | a concrete run in which realloc puts a block past the end of a pool of one page |
| SearchTrees.StrictChain | examples/stdlib.c:5408-5426 | a comparison that is a total preorder composes mixed strict and weak steps |
| SearchTrees.SearchTree.Lookup | examples/stdlib.c:5414-5426 | finds an equal key or the one place between its neighbours; the steps taken are counted: 2^steps <= (n+1)^2 |
| SearchTrees.SearchTree.Tfind | examples/stdlib.c:5452-5471 | null exactly when no equal key is present, else a node with an equal key |
| SearchTrees.SearchTree.Tsearch | examples/stdlib.c:5408-5445 | returns the equal node and changes nothing, or adds exactly one node with the key, or fails without change |
| SearchTrees.SearchTree.Tdelete | examples/stdlib.c:5478-5502 | removes exactly the node with an equal key, keeps all others, and returns that node's parent before removal |
| SearchTrees.ServePut | examples/stdlib.c:5408-5445 | nodes, keys, result and membership of every key after an insertion |
| SearchTrees.ServeDrop | examples/stdlib.c:5478-5502 | nodes, keys and membership of every key after a deletion |
| SearchTrees.ServeAll | examples/stdlib.c:5408-5507 | every run of insertions and deletions, freed memory reused or not, leaves a red-black tree of exactly the nodes and keys the run describes, and so its set |
| SearchTrees.WalkIsInorder | examples/stdlib.c:5509-5524 | the postorder and leaf calls of a walk list every node once, in order |
| SearchTrees.WalkShape | examples/stdlib.c:5509-5524 | where the calls of each node stand: one for a leaf, else three, before, between and behind the calls of exactly its left and its right subtree, each at the node's distance from the root |
| SearchTrees.SearchTree.TreeWalk | examples/stdlib.c:5509-5524 | the calls made are those of the specification, with their depths |
| SearchTrees.SearchTree.Extreme | examples/stdlib.c:5605-5624 | the first or last node of the order, null for an empty tree |
| SearchTrees.SearchTree.Neighbour | examples/stdlib.c:5557-5604 | the next or previous node of the order, null at its end |
| SearchTrees.SearchTree.ThereAndBack | examples/stdlib.c:5557-5604 | tnext and tprev undo each other: one call and then the other, in either direction, comes back to the node, unless it is the last of its direction, and only then the first call gives null |
| SearchTrees.SearchTree.Traverse | examples/stdlib.c:5557-5614 | from the minimum, repeating tnext visits every node exactly once in ascending order and stops |
| Numerals.NumeralValue | examples/stdlib.c:3843-3875 | a numeral consists of digits of its base and has the number's value |
| Numerals.SkipPadded | examples/stdlib.c:3843-3875 | enough digits by position, leading zeros dropped, are the canonical numeral |
| Strtol.PartGrows | examples/stdlib.c:2895-2919 | further digits only move a number away from zero, so the first overflow is final |
| Strtol.StepFits | examples/stdlib.c:2895-2902 | no intermediate value leaves 128 bits |
| Strtol.AtoiConvert | examples/stdlib.c:2822-2922 | the value of the digits clamped to [min, max], where the text ends, and which error, for every text and base |
| Strtol.ConvertDigits | examples/stdlib.c:2892-2921 | the digit loop: clamped value, range error exactly outside the bounds, end at the first digit that is too much |
| StrtolTexts.ReadsDigits | examples/stdlib.c:2835-2921 | by characters: white space of all six kinds, a sign, a prefix and digits convert to their value in every base and base 0, clamped, with where reading ends, whatever follows |
| StrtolTexts.ReadsNumeral | examples/stdlib.c:2806-2921 | in every base from 2 to 36, letters of either case, the numeral of every number is read as the number, behind any white space and sign |
| StrtolTexts.ReadsDecimal | examples/stdlib.c:2882-2889 | in base 0 the decimal numeral of every number but 0 is read as in base 10, value and end |
| StrtolTexts.ReadsZero | examples/stdlib.c:2862-2875 | in base 0 a 0 that neither x nor an octal digit follows is the whole number |
| StrtolTexts.ReadsBarePrefix | examples/stdlib.c:2854-2868 | 0x without a hexadecimal digit is read as 0, and reading stops behind the x |
| StrtolTexts.ReadsNothing | examples/stdlib.c:2879-2889 | without a digit the value is 0 and reading stops at the very beginning |
| StrtolTexts.ReadsNoOtherBase | examples/stdlib.c:2828-2833 | base 1 and bases above 36 are refused |
| Printf.PutChar | examples/stdlib.c:3812-3819 | the count grows by one; the buffer holds the beginning of the text and otherwise exactly what it held before |
| Printf.DecimalDigits | examples/stdlib.c:3863-3875 | division by falling powers of ten produces the canonical decimal numeral |
| Printf.PowerDigits | examples/stdlib.c:3837-3853 | shifting and masking produces the canonical hexadecimal or octal numeral |
| Printf.PutNum | examples/stdlib.c:3821-3907 | exactly padding, sign or prefix, zeros and numeral are put, in order, for all flags, widths and precisions; the rest of the buffer is kept |
| Vsnprintf.ReadDirective | examples/stdlib.c:3918-4017 | the loops over flags, width, precision and length compute the directive |
| Vsnprintf.PutConversion | examples/stdlib.c:4019-4099 | each conversion puts its text, keeps the rest of the buffer and consumes its argument |
| Vsnprintf.Vsnprintf | examples/stdlib.c:3909-4110 | the same count with and without a buffer; the whole buffer afterwards: the beginning of the ideal output and its terminator, everything else as it was |
| Vsnprintf.AllocSizeFits | examples/stdlib.c:4118-4122 | the size asked for, computed in an int, is right exactly below the largest count, where it overflows to more than half the address space |
| Vsnprintf.Vasprintf | examples/stdlib.c:4112-4130 | succeeds exactly when the output has less than 2147483647 characters and memory is given; the result then holds the whole output and its terminator, no more |
| Formats.DirectiveRead | examples/stdlib.c:3919-4017 | a directive given by its characters is read as its parts: flags in any order, width and precision as digits or stars, length, conversion |
| Formats.IntegerDirective | examples/stdlib.c:4033-4076 | d, i, u, o, x, X and p with every flag, width, precision and length: the text of the one value of the C type that the argument stands for, the bounds of the types written out |
| Formats.FieldWidth | examples/stdlib.c:3877-3907 | a field is as wide as its width or its text; with the flag 0 it is wider than asked exactly when a sign or prefix meets fewer digits than the width |
| Formats.StringDirective | examples/stdlib.c:4077-4095 | the characters before the terminator, or (null), cut to the precision, in a field of spaces to the right or, for -, to the left |
| Formats.CharDirective | examples/stdlib.c:4029-4032 | one character, the low byte of the argument, whatever the flags, width and precision |
| Formats.OtherDirective | examples/stdlib.c:4096-4098 | any other conversion character puts itself and takes no argument |
| Formats.Unfinished | examples/stdlib.c:4026-4028 | a directive cut off by the end of the format puts nothing |
| Formats.LiteralText | examples/stdlib.c:3912-3918 | text without a percent sign is put as it is |
| Formats.FormatMeaning | examples/stdlib.c:3909-4110 | a whole format with arguments of the types it names puts the texts of its pieces, one after the other |
| RoundTrip.PrintThenRead | examples/stdlib.c:3821-3907 | every integer printed with any flags, width and precision is read back unchanged in the matching base, and in base 0 after a prefix or when its first digit is not 0 |
| RoundTrip.DirectiveReadBack | examples/stdlib.c:3909-4110 | for every integer directive, given by its characters, and every value of its C type: what it prints is read back as that value, in the matching base and, where its beginning tells the base, in base 0; and where reading stops |
| RoundTrip.LongReadBack | examples/stdlib.c:4033-4050 | every signed 64-bit number goes through %ld and strtoll unchanged |
| RoundTrip.HexReadBack | examples/stdlib.c:4051-4070 | every unsigned 64-bit number goes through %#lx and strtoull in base 0 unchanged |
| Stream.File.WriteAll | examples/stdlib.c:3102-3123 | under any short writes all bytes are delivered in order, or a prefix and the error flag |
| Stream.File.Write | examples/stdlib.c:3125-3142 | the pending bytes are delivered and the buffer is empty, or the error flag is set |
| Stream.File.WriteInit | examples/stdlib.c:3203-3221 | on success there is room for a byte or the stream is unbuffered; nothing is lost |
| Stream.File.Fflush | examples/stdlib.c:3144-3169 | success exactly delivers everything accepted |
| Stream.File.Fputc | examples/stdlib.c:3459-3475 | accepts the byte and keeps conservation and the line discipline; exact result, including its ambiguity for byte 255 |
| Stream.File.Fputs | examples/stdlib.c:3484-3511 | 0 only when the whole string was accepted; otherwise a prefix |
| Stream.File.Fwrite | examples/stdlib.c:3555-3586 | for every size and count, their product taken as a size_t: the item count only when all bytes were accepted, 0 only when the stream is failing or there are no bytes; what is accepted is a prefix |
| Stream.OfferedIs | examples/stdlib.c:3459-3586 | what a call offers, written out: the characters before the first NUL, size times count bytes where the product fits, the low byte |
| Stream.RunCalls | examples/stdlib.c:3144-3586 | any run of calls goes to its end unless the stream is failing; then delivered plus pending bytes are exactly the offered ones in order and no line end is pending; after a final flush all are delivered |
| DwpIndex.ProbeIsLinear | contrib/libdw/dwarf_cu_dwp_section_info.c:331-336 | despite the 32-bit wrap, round j looks at (start + j*step) modulo the table size, for a power of two |
| DwpIndex.ProbesDistinct | contrib/libdw/dwarf_cu_dwp_section_info.c:332-336 | the odd step is invertible: no two rounds look at the same slot |
| DwpIndex.ProbesReachAll | contrib/libdw/dwarf_cu_dwp_section_info.c:333-336 | every slot is looked at in slot_count rounds |
| DwpIndex.ProbesCoverTable | contrib/libdw/dwarf_cu_dwp_section_info.c:331-356 | all slots are examined for all signatures exactly when the slot count is a power of two |
| DwpIndex.StandardIsProbe | contrib/libdw/dwarf_cu_dwp_section_info.c:331-355 | the masked hashes of section 7.3.5.3 of DWARF 5, stepped modulo the table size, try the same slots in the same order as the reader's 32-bit arithmetic |
| DwpIndex.UnitRow | contrib/libdw/dwarf_cu_dwp_section_info.c:324-359 | the loop returns the row of the search function, or an error for a row beyond the units |
| DwpIndex.BuildHolds | contrib/libdw/dwarf_cu_dwp_section_info.c:324-359 | a table filled by the standard's own insertion rule holds exactly its entries, each behind used slots only on the reader's sequence |
| DwpIndex.LookupIsLinearSearch | contrib/libdw/dwarf_cu_dwp_section_info.c:324-359 | on every table filled by the standard's rule the reader's lookup finds what a linear search of the entries finds |
| DwpIndex.UnitFinder.FindUnit | contrib/libdw/dwarf_cu_dwp_section_info.c:418-478 | the guess-then-scan lookup equals a plain scan exactly unless an earlier unit also contains the offset |
| DwpIndex.UnitFinder.FindUnits | contrib/libdw/dwarf_cu_dwp_section_info.c:418-478 | on disjoint units every sequence of lookups equals plain scans |
| DwpIndex.AdjoiningRow | contrib/libdw/dwarf_cu_dwp_section_info.c:418-478 | on adjoining units the row is that of the one unit from whose offset to whose end the offset lies, and there is none exactly before the first and behind the last |
| Leb128.ReadsBackU | contrib/libdw/memory-access.h:64-91 | every unsigned 64-bit number is read back from its encoding, which is consumed exactly |
| Leb128.ReadsBackS | contrib/libdw/memory-access.h:115-163 | every signed 64-bit number is read back, including ten-byte encodings with their sign byte |
| Leb128.ReadsAnyU | contrib/libdw/memory-access.h:64-91 | an unsigned number of up to ten bytes is the sum of its groups modulo 2^64, shortest or not; one that does not end reads as the largest value |
| Leb128.ReadsAnyS | contrib/libdw/memory-access.h:115-163 | a signed number of up to nine bytes is the sum of its groups, less the next power when the sign bit is set; one that does not end reads as the largest value |
| LineProgram.Decode | contrib/libdw/dwarf_getsrclines.c:706-1027 | every decoded operation consumes input, so the loop terminates for all opcodes |
| LineProgram.DecodeLocal | contrib/libdw/dwarf_getsrclines.c:743-1027 | decoding looks only at the bytes it consumes, the sub-opcode of an empty extension excepted |
| LineProgram.ExecKeepsOpIndex | contrib/libdw/dwarf_getsrclines.c:100-107 | one operation keeps op_index below max_ops_per_instr, in the registers and in the row it emits |
| LineProgram.RunKeepsOpIndex | contrib/libdw/dwarf_getsrclines.c:706-1028 | in every row of a whole program and at its end op_index is below max_ops_per_instr |
| LineProgram.AdvancesCompose | contrib/libdw/dwarf_getsrclines.c:100-107 | while the operation counter does not wrap, advancing by a and then b is advancing by a + b exactly when the two 32-bit address increments add up to less than 2^32 |
| LineProgram.ExpansionRuns | contrib/libdw/dwarf_getsrclines.c:716-742 | on operations, a special opcode does what its three standard opcodes do, rows and registers alike |
| LineProgram.DesugarLists | contrib/libdw/dwarf_getsrclines.c:706-1027 | the rewritten bytes decode to the rewritten operations exactly when the program is plain |
| LineProgram.DesugarRuns | contrib/libdw/dwarf_getsrclines.c:706-1027 | rewriting every special opcode of a plain program keeps every row and the final registers, from every state |
| LineProgram.DesugarFails | contrib/libdw/dwarf_getsrclines.c:743-880 | a three-byte program that is valid while its rewriting is not |
| LineEncoding.EncodedIsDecoded | contrib/libdw/dwarf_getsrclines.c:706-1027 | every operation, written as sections 6.2.5.1 to 6.2.5.3 of DWARF 5 say, is read back with its operands cut to 32 bits, whatever follows, exactly unless it is a file definition of 128 bytes or more or in an unknown directory |
| LineEncoding.UnknownStandard | contrib/libdw/dwarf_getsrclines.c:1013-1027 | an unknown standard opcode is skipped with as many operands as the header declares |
| LineEncoding.UnknownExtended | contrib/libdw/dwarf_getsrclines.c:743-880 | an unknown extended operation is skipped by its one-byte length, or rejected when it is cut off |
| LineEncoding.Rejected | contrib/libdw/dwarf_getsrclines.c:716-1010 | a wrong operand count, a missing operand, a cut-off extension and a line range of 0 are rejected |
| LineEncoding.RegisterRows | contrib/libdw/dwarf_getsrclines.c:847-1010 | the row that a copy emits after each operation that sets a register, from the bytes, every register written out |
| LineEncoding.AddressRows | contrib/libdw/dwarf_getsrclines.c:781-985 | the row that a copy emits after each operation that moves the address or names a function; const_add_pc moves it as special opcode 255 does |
| LineEncoding.SpecialRow | contrib/libdw/dwarf_getsrclines.c:716-742 | the row of each special opcode: line and address moved by its two parts |
| LineEncoding.EndRow | contrib/libdw/dwarf_getsrclines.c:760-779 | the end of a sequence emits a row marked so and sets every register to its initial value |
| LineTable.CompareIsOrder | contrib/libdw/dwarf_getsrclines.c:57-78 | the comparison is antisymmetric and transitive, and equal only for equal sequence numbers |
| LineTable.SortUnique | contrib/libdw/dwarf_getsrclines.c:57-78 | two sorted arrangements of the same numbered entries are equal |
| LineTable.AnySortIsSort | contrib/libdw/dwarf_getsrclines.c:1079-1080 | whatever correct sort is used, the result is the same |
| LineTable.SortRows | contrib/libdw/dwarf_getsrclines.c:1079-1080 | sorting neither loses nor adds a row |
| LineTable.TableIsTheOrdering | contrib/libdw/dwarf_getsrclines.c:1079-1097 | the table is the one ordering of the emitted rows by address, ends of sequences first, then emission, with the last row closed |
| LineTable.TableOrder | contrib/libdw/dwarf_getsrclines.c:57-78 | the table row by row, in terms of the rows as emitted: by address, at one address ends of sequences first, else in order of emission, the last row closed |
| LineTable.TableAscends | contrib/libdw/dwarf_getsrclines.c:1079-1097 | addresses ascend; the table consists of exactly the emitted rows, except that the last is marked as an end of sequence |
| LineTable.LineState.AdvancePc | contrib/libdw/dwarf_getsrclines.c:100-107 | address and op_index after an operation advance, no other register changed |
| LineTable.LineState.AddNewLine | contrib/libdw/dwarf_getsrclines.c:109-156 | one numbered row is added at the head of the list; refused exactly when a field does not fit |
| LineTable.LineState.SpecialOpcode | contrib/libdw/dwarf_getsrclines.c:716-742 | the registers and the row of a special opcode |
| LineTable.LineState.Execute | contrib/libdw/dwarf_getsrclines.c:716-1027 | each operation has the effect of the specification on registers and rows |
| LineTable.LineState.Process | contrib/libdw/dwarf_getsrclines.c:706-1028 | the loop computes the rows and registers of the whole program, or rejects it exactly when the specification does |
| LineTable.RecordBeforePointers | contrib/libdw/dwarf_getsrclines.c:1057-1066 | record i ends before pointer i+1 begins, for every record and pointer size with pointers no longer |
| LineTable.FillFromBack | contrib/libdw/dwarf_getsrclines.c:1068-1077 | the pointers stand at the end of the buffer in order of emission |
| LineTable.SortPointers | contrib/libdw/dwarf_getsrclines.c:1079-1080 | the pointers are the sorted ones |
| LineTable.CopyLines | contrib/libdw/dwarf_getsrclines.c:1082-1091 | the overlapping copy reads every pointer before it is overwritten; all records are right |
| LineTable.BuildTable | contrib/libdw/dwarf_getsrclines.c:1057-1097 | the buffer ends up holding the line table of the rows emitted |
| LineTable.ReadTable | contrib/libdw/dwarf_getsrclines.c:678-1101 | from program bytes to the finished table, a table exactly for valid programs |
| LineTable.DesugarKeepsTable | contrib/libdw/dwarf_getsrclines.c:706-1097 | rewriting the special opcodes of a plain program leaves its table unchanged |
| AbbrevCache.SkipAttributes | contrib/libdw/dwarf_getabbrev.c:127-146 | the attribute loop finds the end of the list or the same error as the specification |
| AbbrevCache.AbbrevTable.GetAbbrev | contrib/libdw/dwarf_getabbrev.c:40-164 | result and cache after parsing one declaration, in every case |
| AbbrevCache.ScanMoves | contrib/libdw/dwarf_tag.c:48-69 | entering the next declaration keeps every lookup's answer |
| AbbrevCache.ScanEnds | contrib/libdw/dwarf_tag.c:57-62 | ending the scan keeps every lookup's answer |
| AbbrevCache.AnswerIsFresh | contrib/libdw/dwarf_tag.c:37-76 | in a state lookups keep, the answer from the cache and the rest of the scan is that of a scan from the start |
| AbbrevCache.AbbrevTable.FindAbbrev | contrib/libdw/dwarf_tag.c:37-76 | the result is that of a fresh scan, whatever was looked up before; offsets parsed are strictly ascending, so none twice; and in any state, whatever was parsed before, the result is the state's answer |
| AbbrevCache.AbbrevTable.FindAll | contrib/libdw/dwarf_tag.c:37-76 | any sequence of lookups, each as if alone; on a clean table each as a plain scan |
| AbbrevCache.AbbrevTable.Preload | contrib/libdw/dwarf_getabbrev.c:167-187 | parsing a declaration at any offset changes no lookup exactly when it is harmless: known or refused, or the one that lookups give, its code fitting 31 bits or no lookup going further than it |
| AbbrevCache.PreloadIff | contrib/libdw/dwarf_getabbrev.c:40-164 | parsing at an offset keeps every code's answer exactly when it is harmless |
| AbbrevCache.CutShort | contrib/libdw/dwarf_getabbrev.c:74-162 | a declaration of a larger code, parsed ahead of the scan, stops the scan there: just the codes declared before it are still found |
| AbbrevCache.CleanIff | contrib/libdw/dwarf_tag.c:37-76 | lookups agree with a plain scan for all codes exactly when codes fit 31 bits and nothing new follows a repeated one or a 0 that is not the single end byte |
| AbbrevCache.DistinctIsClean | contrib/libdw/dwarf_getabbrev.c:74-102 | a table of distinct codes from 1 to 2^31 - 1 is clean |
| AbbrevCache.LargeCode | contrib/libdw/libdwP.h:287-294 | a code of 2^31 or more is never found |
| AbbrevEncoding.DeclarationRead | contrib/libdw/dwarf_getabbrev.c:52-150 | a declaration written as section 7.5.3 of DWARF 5 says is read back: code, tag, children flag, where its attributes begin and where it ends, constants of form 0x21 included |
| AbbrevEncoding.PairEnds | contrib/libdw/dwarf_getabbrev.c:127-146 | a pair of numbers ends a list when the low 32 bits of both are 0 |
| AbbrevEncoding.TableRead | contrib/libdw/dwarf_tag.c:37-76 | in a written table of distinct codes a fresh scan finds the declaration listed under the code, or none |
| AbbrevEncoding.LookupInTable | contrib/libdw/dwarf_tag.c:37-76 | so does a lookup, whatever was looked up before |

## Left out

- The futex mutex: each locked section is one step; `lock = true` only adds failure of the lock.
- Page mapping and `getrandom`: whether an mmap call succeeds is the argument `mapOk`; page contents are not modelled.
- `pool_create`, `pool_destroy` and `calloc_impl`: size arithmetic around the same operations.
- The header's magic number: a node in the tree always carries it, so the check never fails there.
- Allocator.Pool.Malloc: a clash means that the header would be written at a wrapped address or that the block is shorter than its header; the state after such a write is not modelled. A request of exactly 2^64 - 32 bytes, whose sum is 0, is reported as a clash without searching.
- Allocator.Pool.Realloc: the state after a clash, as for malloc, is not modelled; payload memory is a map of 16-byte units, unmapped ones read as 0.
- AllocatorRuns.Serve: a run ends with a call that panics, clashes, leaves the pool or wraps the mapped limit, and says so; what the code does after that is not modelled.
- Client writes to freed memory or to headers: not modelled; a freed header keeps its last fields.
- SearchTrees.ServeAll: that the memory an insertion brings is not in use is what the allocator's theorems give; the two are not composed.
- `twalk` on a null root, `tdestroy`: trivial.
- SearchTrees.SearchTree.Tdelete: a removed root is reported as a case of its own, not as the address of the root variable.
- Strtol.AtoiConvert: characters are Unicode scalars and those past the end read as the terminator; `errno` is part of the result.
- Vsnprintf.Vsnprintf: the argument list is a sequence; reading past it or with the wrong type, undefined in C, gives 0 or null. Negating INT64_MIN, undefined in C, gives 2^63.
- `vfprintf` and its temporary buffer, the scanf family: not modelled.
- Stream.File.Fputc: the read side, `setvbuf`, `fseek` and write calls that accept zero bytes are not modelled.
- Header, directory and file-list parsing of `read_srclines`: the model starts from a decoded header with `opcode_base` at least 1 and `max_ops_per_instr` at least 1; a zero `line_range` is handled as the code does.
- LineProgram.Decode: relocations of set_address operands and the file entries made by define_file are not modelled; the operand is the little-endian number.
- LineTable.LineState.AddNewLine: the 64-bit line register is unbounded; it cannot wrap before a row is refused unless a program is longer than 2^32 bytes. Which fields of a refused row were stored is not modelled.
- LineTable.SortPointers: `qsort` is any correct sort; the model writes the one result all of them have.
- `__libdw_dwp_section_info`: section columns are not modelled, a unit is its offset and size.
- DwpIndex.UnitFinder.FindUnit: the version 4 path; from version 5 on the scan is replaced by `UnitRow`.
- The concurrent hash table of abbreviations: a map that takes no entry for 0. Readers racing on one unit are not modelled.
- ELF plumbing, compression, error tables and the instrumentation examples: input and output or trivial.

# Verified model of a cache and TLB emulator

The repository emulates the memory path of a processor. A 48-bit virtual address is
translated by a four-level page walk, and the translations are kept in one of two TLB
designs: a fully-associative one, whose replacement order is a doubly-linked list, or a
hierarchy of two direct-mapped L1 TLBs over a shared L2. Set-associative caches sit behind
it, and a small text format describes programs of accesses. This project models these
parts and proves what they promise over every input and every run.

| file | models |
|---|---|
| `Addresses.dfy`, `PageWalks.dfy` | `addr_mng.c`, `page_walk.c`: packing of addresses, and the reference translation |
| `TlbHierarchy.dfy`, `TlbHierarchyRuns.dfy` | `tlb_hrchy_mng.c`: one search on three arrays, its invariant; then whole runs |
| `LinkedList.dfy`, `ListText.dfy` | `list.c`: heap nodes with `previous` and `next`, and a ghost sequence of nodes; the text of a list |
| `AssocTlb.dfy`, `AssocTlbInvariant.dfy`, `AssocTlbRuns.dfy` | `tlb_mng.c`: one search on array and list, its invariant; then whole runs, for any number of lines |
| `LruStack.dfy` | the abstract least-recently-used stack that the associative TLB refines |
| `TlbAgreement.dfy` | the two TLB designs against each other |
| `Streams.dfy`, `Commands.dfy` | `commands.c`: parser and printer on a stream with end-of-file flag and push-back |
| `CommandGrammar.dfy` | the texts that the parser accepts, exactly, and what they mean |
| `CommandsRoundTrip.dfy` | that parser and printer are inverse |
| `CommandText.dfy` | digits, blanks and lines letter by letter |
| `Programs.dfy` | `commands.c`: the growable array of commands and what its growth costs |
| `Caches.dfy`, `CacheRuns.dfy` | `cache_mng.c`, `lru.h`: the primitives on a flat array of entries; then whole runs against memory |
| `MemAccess.dfy`, `Options.dfy`, `Sequences.dfy` | shared definitions |

`dafny verify dfyconfig.toml` checks everything.

## How the model is built

Code that changes memory in place is a method on arrays or heap objects. Each such method
is proved equal to a function on values, and the properties are proved about that function
and about runs of it. What a method does is also stated on its arrays, links and fields
themselves, with the numbers and letters of the source. Hits and contents are characterised by the trace of accesses alone,
with quantifiers over positions of the trace, and not by replaying the code.

In the hierarchy everything is seen through `Lookup`: what a TLB says about a page. Filling
a line, and the two-bit invalidation, are first turned into laws about lookups; inclusion
and the contents over runs follow from these without tag arithmetic.

The associative TLB is refined in two steps: list and lines give the sequence of valid
pages from the back of the list to its front, a search is one access to that sequence as an
LRU stack, and the stack is the recency order of the trace cut to the number of lines.

Shifts and masks are written as products, quotients and remainders. Bit fields are subset
types, or explicit remainders where the code stores a wider value. Memory is a total
function from word indices to words, and does not change during a run. Pointers that a
function writes its result through are out-parameters, except for addresses that are filled
field by field. A C `char` holding EOF is the character 0xFF, so that pushing back a byte
0xFF does nothing, as in C.

## Where the code and its documentation differ

- `LRU_age_update` (`lru.h:20-28`) resets the age of the way that hit inside the loop, so
  that in one update at most the first way can grow older (`CacheRuns.OnlyAges`). That is
  an LRU update exactly under the condition of `CacheRuns.AgeUpdateIsLru`; for the ages of
  `CacheRuns.AgeUpdateIsNotLru` it is none. Over runs of the primitives modelled here not
  even that happens: all ages stay zero (`CacheRuns.AgesStayZero`).
- The parser is no validator. `CommandGrammar.AcceptedExactly` says exactly which texts it
  accepts and as which commands. They include texts that no one would write by intention.
  `hex_char_to_int` (`commands.c:251-260`) returns its error code, 3, for a character that is
  no digit, and the callers use it as the digit (`NonDigitsAreThrees`, with the input
  `AcceptsWithoutDigits`). `next_char` (`commands.c:271`) pushes back a `char`, so that a byte
  0xFF after a gap, which then looks like EOF, is lost (`LosesAByte`). And `program_read` stops
  after 100 commands and reports success, whatever follows (`AnythingAfterAHundred`).
- `print_list` and `print_reverse_list` (`list.c:131-169`) close the parenthesis after the
  last value, and so never for an empty list (`ListText.Items`).
- The last check of `program_add_command` (`commands.c:24`) asks for a page offset divisible
  by eight, whatever the size of the data. So it refuses commands that `program_read` takes.
  `Programs.ReadThenAdd` says exactly when the commands of a program can be added again.

## Model

| member | source | states |
|---|---|---|
| `TlbHierarchyRuns.HitExactly` | tlb_hrchy_mng.c:159-255 | From flushed TLBs, after any trace, a request hits if and only if the last request of either kind with the same page number modulo 64 was for the same page. |
| `TlbHierarchyRuns.L1Contents` | tlb_hrchy_mng.c:204-253 | After any trace, an L1 TLB translates a page if and only if a request of its kind brought it there and no later request took its L1 line or, being for another page, its L2 line; and then it gives the translation of the page walk. |
| `TlbHierarchyRuns.L2Contents` | tlb_hrchy_mng.c:204-231 | After any trace, L2 translates a page if and only if the last request on its line was for it, and then as the page walk does. |
| `TlbHierarchyRuns.HierarchyIsLoneTlb` | tlb_hrchy_mng.c:159-255 | Line for line, L2 holds what a direct-mapped TLB of 64 lines without any L1 in front would hold, and the same requests hit. |
| `TlbHierarchyRuns.ReachableInv` | tlb_hrchy_mng.c:159-255 | Inclusion of both L1 TLBs in L2, and soundness of L2, in every reachable state. |
| `TlbHierarchyRuns.Transparent` | tlb_hrchy_mng.c:186-224 | After any trace, on L1 hit, L2 hit and miss alike, the address returned is that of the page walk. |
| `TlbHierarchyRuns.RunLaw` | tlb_hrchy_mng.c:159-255 | How the last search of any run changes what each of the three TLBs knows about any page. |
| `TlbHierarchyRuns.HitTraceAt` | tlb_hrchy_mng.c:159-255 | The specification trace of hits, read at one position, is the criterion of HitExactly for the requests before it. |
| `TlbHierarchyRuns.DriveLine` | test-tlb_hrchy.c:98-102 | One turn of the driver, on the three arrays: the address of the page walk, a hit exactly by the criterion on the earlier requests, and afterwards each array translates exactly the pages that the requests so far leave in it. |
| `TlbHierarchyRuns.Contents` | tlb_hrchy_mng.c:159-255 | After any trace: the instruction TLB, the data TLB and L2 translate exactly the pages of L1Contents and L2Contents. |
| `TlbHierarchyRuns.FlushedTlbs` | test-tlb_hrchy.c:87-93 | The driver starts from three arrays of 16, 16 and 64 zeroed lines. |
| `TlbHierarchyRuns.Drive` | test-tlb_hrchy.c:87-102 | The driver over a whole program: for each line the address is that of the page walk, and it hits if and only if the last earlier line with the same page number modulo 64 was for the same page. |
| `TlbHierarchy.SearchLaw` | tlb_hrchy_mng.c:159-255 | From any state that satisfies the invariant, whichever path the search takes: it hits if and only if L2 knows the page; afterwards L2 and the own L1 know it, each forgets what shared its line, and the other L1 forgets exactly what lost its L2 line. |
| `TlbHierarchy.SearchKeepsInv` | tlb_hrchy_mng.c:226-253 | Every search keeps inclusion and soundness, from any state that has them. |
| `TlbHierarchy.InclusionByLine` | tlb_hrchy_mng.c:233-252 | A valid L1 line with tag t at index i is backed by the valid L2 line (t mod 4) * 16 + i with tag t / 4 and the same physical page. |
| `TlbHierarchy.LookupAfterInvalidate` | tlb_hrchy_mng.c:233-252 | The two-bit comparison makes the other L1 forget exactly the pages equal to the searched one modulo 64. |
| `TlbHierarchy.LookupAfterFill` | tlb_hrchy_mng.c:150-157 | Filling a line makes its page known and every other page of that line unknown, in L1 and L2. |
| `TlbHierarchy.LookupOnLine` | tlb_hrchy_mng.c:97-106 | A TLB translates page v to a physical page if and only if its line v mod 16, or v mod 64 in L2, is valid with that page and tag v / 16, or v / 64. |
| `TlbHierarchy.LineAndTagDeterminePage` | tlb_hrchy_mng.c:97-106 | Line and tag determine the page in all three TLBs, and the stored tag is never truncated. |
| `TlbHierarchy.TagWidth` | tlb_hrchy.h:32-55 | Tags of 36-bit page numbers fit 32 bits in L1 and 30 bits in L2. |
| `TlbHierarchy.L2LineBits` | tlb_hrchy_mng.c:233-234 | The L2 line of a page is the two low bits of its L1 tag followed by its L1 line. |
| `TlbHierarchy.FlushedInv` | tlb_hrchy_mng.c:39-60 | Flushed TLBs satisfy the invariant and know no page. |
| `TlbHierarchy.TlbFlush` | tlb_hrchy_mng.c:44-60 | Every line is zeroed, for each of the three kinds. |
| `TlbHierarchy.TlbEntryInit` | tlb_hrchy_mng.c:13-35 | The entry for a page and a physical address, for each kind of TLB; inserted at its line into any TLB of that kind, it is found for the page, with that physical page. |
| `TlbHierarchy.TlbInsert` | tlb_hrchy_mng.c:72-93 | Succeeds if and only if the line exists; then that line alone changes, its tag cut to the bit field. |
| `TlbHierarchy.TlbHit` | tlb_hrchy_mng.c:108-134 | Hits if and only if line v mod 16, or mod 64 in L2, is valid and has the rest of the page number as its tag; the address is the stored page with the offset of the request, and a miss leaves the address alone. |
| `TlbHierarchy.TlbSearch` | tlb_hrchy_mng.c:159-255 | In place on three arrays, equal to the value-level search; and line by line, for instructions on the instruction TLB and for data on the data TLB: it hits if and only if line v mod 16 of its own L1 or line v mod 64 of L2 is valid for page v; its own line then has the translation; a hit changes nothing else; a miss takes the address of the walk, fills L2 and invalidates the same line of the other L1 if its two low tag bits are those of the L2 line. |
| `TlbHierarchy.SearchOnLines` | tlb_hrchy_mng.c:159-255 | The same line by line for the value-level search. |
| `AssocTlbRuns.RunIsLru` | tlb_mng.c:68-93 | For any number of lines and any trace, the valid lines read from the back of the list give the distinct pages accessed, most recent first, cut to the number of lines. |
| `AssocTlbRuns.HitExactly` | tlb_mng.c:26-48 | An access hits if and only if its page was accessed before and fewer than N distinct other pages were accessed since. |
| `AssocTlbRuns.MoreLinesHoldMore` | tlb.h:15 | For N <= M lines on the same trace, the pages held by N lines are a prefix of those held by M, and every hit of the smaller TLB is a hit of the larger. |
| `AssocTlbRuns.MoreLinesMissLess` | tlb.h:15 | More lines never miss more often, over any stretch of any run. |
| `AssocTlbRuns.MissesPerStretch` | tlb_mng.c:68-93 | In a stretch of at most N distinct pages, after any run, misses are at most the distinct pages, and every repeated access hits. |
| `AssocTlbRuns.ColdStart` | test-tlb_simple.c:57-65 | From the flushed TLB, misses are at least the distinct pages, and exactly as many while these fit. |
| `AssocTlbRuns.WarmStartMissesLess` | tlb_mng.c:68-93 | Over any stretch, of however many pages, a run that comes before never adds misses: there are at most as many as from the flushed TLB. |
| `AssocTlbRuns.Transparent` | tlb_mng.c:68-93 | After any trace, hit or miss, the address returned is that of the page walk. |
| `AssocTlbRuns.ReachableInv` | tlb_mng.c:68-93 | In every reachable state the list is a permutation of the line numbers, invalid lines come first in it, no page has two valid lines, and valid lines translate as the page walk does. |
| `AssocTlbRuns.HitTraceAt` | tlb_mng.c:26-48 | The specification trace of hits, read at one position, is the criterion of HitExactly for the accesses before it. |
| `AssocTlbRuns.StartUp` | test-tlb_simple.c:57-65 | Zeroed lines, and a linked list whose i-th node from the front names line i. |
| `AssocTlbRuns.NewPagesInOrder` | tlb_mng.c:87-88 | While the distinct pages fit, line i holds the page that came as number i, with the translation of the walk, and the other lines are still zero. |
| `AssocTlbRuns.DriveLine` | test-tlb_simple.c:80-83 | One turn of the driver, on the array and the linked list: the next state of the run, the address of the page walk, and a hit exactly by the criterion on the earlier accesses. |
| `AssocTlbRuns.Drive` | test-tlb_simple.c:57-83 | The driver over a whole program, with a heap list: for each line the address is that of the page walk, and it hits if and only if its page was accessed before and fewer than N distinct pages since. |
| `AssocTlbInvariant.SearchKeepsInv` | tlb_mng.c:37-47 | Every search keeps the invariant, from any state that has it, and returns the address of the page walk. |
| `AssocTlbInvariant.SearchOnStack` | tlb_mng.c:81-90 | A search on list and lines is one access to the abstract LRU stack, and hits if and only if the page is on it. |
| `AssocTlbInvariant.HitOnStack` | tlb_mng.c:37-45 | A hit moves the page to the top of the stack and keeps the others in order. |
| `AssocTlbInvariant.MissOnStack` | tlb_mng.c:82-90 | A miss puts the page on top, and the bottom page goes if and only if the stack was full. |
| `AssocTlbInvariant.UnusedLinesFirst` | tlb_mng.c:87-88 | While some line is invalid, no page that was held is lost by a search. |
| `AssocTlb.FindLast` | tlb_mng.c:37-45 | The scan finds the matching node nearest the back, and fails only if no node matches. |
| `AssocTlb.FindSome` | tlb_mng.c:37-47 | The scan succeeds if and only if some node of the list names a valid line with the page as its tag. |
| `AssocTlbInvariant.FindsEveryPage` | tlb_mng.c:37-47 | The scan succeeds if and only if some line, wherever it is in the list, is valid for the page. |
| `AssocTlb.TlbEntryInit` | tlb_mng.c:4-16 | The entry is valid, carries the physical page, and its tag matches exactly the addresses of the same page. |
| `AssocTlb.TlbFlush` | tlb_mng.c:18-24 | Every line is zeroed. |
| `AssocTlb.TlbInsert` | tlb_mng.c:51-66 | Succeeds if and only if the line exists; then that line alone changes. |
| `AssocTlb.TlbHit` | tlb_mng.c:26-48 | Walks the linked list from its back; on a hit the found node, and no other, moves to the back; a miss changes nothing. |
| `AssocTlb.Replace` | tlb_mng.c:87-88 | The line named by the front node takes the entry, no other line changes, and that node moves to the back. |
| `AssocTlb.TlbSearch` | tlb_mng.c:68-93 | In place on array and list, equal to the value-level search; and on the array: afterwards the node at the back names a valid line for the page and the address returned; a hit changes no line; a miss takes the address of the walk and overwrites the line that the front node named, which goes to the back. |
| `LruStack.AccessHeld` | tlb_mng.c:87-88 | A stack cut to n at every access holds what cutting the full recency order once would give. |
| `LruStack.Depth` | tlb_mng.c:37-45 | A page lies as deep in the recency order as there are distinct pages accessed since. |
| `LruStack.HeldExactly` | tlb_mng.c:26-48 | A page is among the first n if and only if it was accessed and fewer than n distinct pages were accessed since. |
| `LruStack.StackProperty` | tlb.h:15 | What n lines hold is a prefix of what m >= n lines hold. |
| `LruStack.MissBound` | tlb_mng.c:68-93 | A stretch of at most n distinct pages misses at most once per page, whatever came before. |
| `LruStack.ColdMisses` | test-tlb_simple.c:57-65 | From an empty stack, at least one miss per distinct page, and exactly one while they fit. |
| `LruStack.WarmMissesLess` | tlb_mng.c:68-93 | A warm stack never misses more than a cold one, over any stretch. |
| `TlbAgreement.DesignsAgree` | page_walk.c:13-27 | After any two runs, hierarchy and associative TLB return the same address, that of the page walk. |
| `TlbAgreement.SamePageSameAnswer` | page_walk.c:13-27 | Addresses of one page get one physical page, in either design and at any moment. |
| `TlbAgreement.AssocHitsWithinCapacity` | tlb_mng.c:68-93 | While the distinct pages of a trace fit the associative TLB, it hits wherever the hierarchy does. |
| `LinkedList.Node.constructor` | list.c:29-34 | A new node has its value and no neighbours. |
| `LinkedList.List.constructor` | list.c:13-18 | A new list is well formed and empty. |
| `LinkedList.List.IsEmpty` | list.c:4-11 | True if and only if the list has no values. |
| `LinkedList.List.PlaceNodeAtBack` | list.c:37-44 | The given node object becomes the last one, linked both ways with the former last one; the list stays well formed. |
| `LinkedList.List.PushBack` | list.c:46-64 | Appends a fresh node, linked both ways with the former last one; nodes and values are the old ones followed by it. |
| `LinkedList.List.PushFront` | list.c:66-89 | Prepends a fresh node, linked both ways with the former first one; nodes and values are the old ones after it. |
| `LinkedList.List.PopBack` | list.c:91-102 | Drops the last node: the one before it becomes the back and ends the list; an empty list stays empty. |
| `LinkedList.List.PopFront` | list.c:104-115 | Drops the first node: the one after it becomes the front and starts the list; an empty list stays empty. |
| `LinkedList.List.MoveBack` | list.c:117-129 | Front, interior, back or sole node: the same node object ends up last, the others keep their order, and both link directions stay mirror images. |
| `LinkedList.List.UnlinkInterior` | list.c:119-121 | Taking out a node between two others leaves a well-formed list without it. |
| `LinkedList.List.UnlinkFront` | list.c:123-125 | Taking out the first of several nodes leaves a well-formed list without it. |
| `LinkedList.List.Forward` | list.c:131-149 | Following next from the front visits exactly the values in order, writes their text and counts them. |
| `LinkedList.List.Backward` | list.c:151-169 | Following previous from the back visits exactly the reverse, writes its text and counts as many. |
| `LinkedList.Perform` | list.c:46-129 | Each operation on the linked structure does to the values what the sequence operation does. |
| `LinkedList.PerformAll` | list.c:13-129 | Any sequence of operations leaves a well-formed list; forwards it gives the sequence result, and each traversal is the reverse of the other. |
| `ListText.TextInjective` | list.c:131-149 | Lists that print alike hold the same values in the same order. |
| `ListText.TextPieces` | list.c:131-149 | Parentheses around the numbers, a comma and a blank between any two, and no closing parenthesis for an empty list. |
| `ListText.DecimalDigits` | list.h:27 | The digits of a number from the last to the first. |
| `LinkedList.ValuesOfTouched` | list.c:117-129 | Moving nodes moves their values likewise. |
| `PageWalks.WalkByPageNumber` | page_walk.c:13-27 | The walk is a four-level radix descent on the base-512 digits of the page number; the result depends on page number and offset alone. |
| `PageWalks.WalkReadsWords` | page_walk.c:5-27 | The walk reads one word at each level: the byte address in the entry before, rounded down to a word, plus four bytes for each index; the page is the last word divided by 4096. |
| `PageWalks.SamePageSameWalk` | page_walk.c:13-27 | Addresses on one page walk to one physical page. |
| `PageWalks.WalkRecombines` | page_walk.c:23 | As a word, the result is the last entry rounded down to 4096, plus the offset. |
| `PageWalks.PageWalkInto` | page_walk.c:13-27 | The walk cannot fail, and writes through the pointer the page that four chained word reads give, with the offset of the request. |
| `Addresses.PackThenUnpack` | addr_mng.c:58-93 | Unpacking a packed address gives it back with reserved bits cleared; so it is the identity if and only if they were clear. |
| `Addresses.UnpackThenPack` | addr_mng.c:58-93 | Packing an unpacked word gives the word modulo 2^48. |
| `Addresses.PackedFields` | addr_mng.c:70-93 | In a packed address the fields stand at bits 39, 30, 21, 12 and 0. |
| `Addresses.PageNumberOfWord` | addr_mng.c:70-83 | The page number of an unpacked word is its bits 12 to 47. |
| `Addresses.Digits` | addr_mng.c:74-77 | The four table indices are the base-512 digits of the page number. |
| `Addresses.SamePageSameIndices` | addr_mng.c:70-83 | Page numbers are equal if and only if all four table indices are. |
| `Addresses.PhyAddrRecombines` | addr_mng.c:106-107 | The over-wide mask and the 20-bit field lose nothing of a page address. |
| `Addresses.PhyPackedFields` | cache_mng.c:84-87 | In a packed physical address the page stands above bit 12 and the offset below. |
| `Addresses.VirtAddrCell.Init` | addr_mng.c:35-51 | Succeeds if and only if every parameter fits its field; otherwise the address is unchanged. |
| `Addresses.VirtAddrCell.Init64` | addr_mng.c:58-68 | Always succeeds; the fields at bits 39, 30, 21, 12 and 0 add up to the low 48 bits of the word. |
| `Addresses.PhyAddrCell.Init` | addr_mng.c:102-110 | Succeeds if and only if the offset fits 12 bits, with the page of the address and that offset; otherwise the address is unchanged. |
| `CommandsRoundTrip.RoundTripExactly` | commands.c:87-171 | Reading what program_print writes yields the same program if and only if it is well formed and has at most 100 commands. |
| `CommandsRoundTrip.LayoutInsensitive` | commands.c:185-287 | With any non-empty runs of whitespace between words, and data in any number of digits up to eight, a well-formed program of any length reads as its first 100 commands. |
| `CommandsRoundTrip.PrintThenRead` | commands.c:87-171 | A printed well-formed program of any length reads back as its first 100 commands. |
| `CommandsRoundTrip.AcceptedIsWellFormed` | commands.c:137-249 | Whatever text is accepted is read as at most 100 well-formed commands. |
| `CommandsRoundTrip.PrintNormalises` | commands.c:87-171 | Any accepted text prints to a text that reads as the same program and prints the same again. |
| `CommandsRoundTrip.PrintInjective` | commands.c:87-116 | Two different well-formed programs of at most 100 commands never print alike. |
| `CommandsRoundTrip.LineOfMeans` | commands.c:87-116 | The line a well-formed command is printed as, in any layout, is a valid line of the grammar and means that command. |
| `CommandsRoundTrip.LayOutIsLine` | commands.c:87-116 | The pieces that printing puts together are the text of that line. |
| `CommandsRoundTrip.FoldOfHex` | commands.c:234 | Shifting in the printed digits of a number gives the number, in 32 or 64 bits. |
| `CommandsRoundTrip.HexOfNumber` | commands.c:106-112 | Any upper-case hexadecimal text is the print of its number, at its length. |
| `CommandsRoundTrip.HexLength` | commands.c:106-112 | A number is printed in at least the width asked for and no more digits than its word has. |
| `CommandText.HexAt` | commands.c:106-112 | Each character of a printed number is the digit, 0 to 9 or A to F, of its place. |
| `CommandText.HexLengthExactly` | commands.c:106-112 | A number is printed in the width asked for or, if it does not fit, in the least digits that hold it. |
| `Commands.PrintedRead` | commands.c:95-112 | The whole line of a read: R I, R DW or R DB, a blank, "@0x", 16 digits and a newline. |
| `Commands.PrintedWrite` | commands.c:95-112 | The whole line of a write: W DW with 8 data digits or W DB with at least 2, single blanks, "@0x", 16 digits and a newline. |
| `CommandText.PrintedLength` | commands.c:95-112 | Lines have 24 or 25 characters for reads, 36 for words written, and 30 for bytes written that fit two digits. |
| `CommandText.LineText` | commands.c:150-287 | The lines of the grammar, letter by letter, with the sizes 4 and 1 that their words stand for, and the fields of the commands they mean. |
| `CommandText.GapText` | commands.c:262-274 | A gap is its blanks and, if it loses one, a byte 0xFF. |
| `CommandText.DigitsMean` | commands.c:224-287 | Data and addresses written in the digits of a number are read as that number, and as the address it packs. |
| `CommandText.HexDigitValues` | commands.c:251-260 | The characters 0 to 9 and A to F count 0 to 15, and every other character 3. |
| `CommandText.BlankCodes` | commands.c:262-274 | Blanks are the characters 9 to 13 and 32. |
| `CommandGrammar.AcceptedExactly` | commands.c:137-171 | A text is accepted as given commands if and only if it is made of valid lines that mean them: fewer than a hundred and nothing after them, or a hundred and any text after them. |
| `CommandGrammar.LineAcceptedExactly` | commands.c:150-157 | After its first letter, a line is accepted as a given command if and only if it is the rest of a valid line of reads or of writes that means it, and reading stops right after its newline. |
| `CommandGrammar.ReadParts` | commands.c:185-208 | Whatever is accepted as the rest of a read line is a gap, I, DW or DB, a gap and an address. |
| `CommandGrammar.WriteParts` | commands.c:210-249 | Whatever is accepted as the rest of a write line is a gap, DW or DB, a gap, data, a gap and an address. |
| `CommandGrammar.LineReads` | commands.c:185-249 | Every valid line, of any gaps and characters and before any text, is read completely as the command it means. |
| `CommandGrammar.NextCharExactly` | commands.c:262-274 | For every text: next_char fails if and only if there is no blank; otherwise it skips all blanks and one 0xFF after them, and at the end of the text the end-of-file flag is set. |
| `CommandGrammar.NextCharSkipsGap` | commands.c:262-274 | A non-empty run of blanks before a word is skipped and nothing of the word is lost; if the run is followed by 0xFF, that is skipped too, and anything may follow. |
| `CommandGrammar.AddressAcceptedExactly` | commands.c:276-287 | An address is accepted if and only if it starts with "@0x" and a newline follows the sixteenth character after that; those sixteen may be anything. Its value is theirs, and reading stops after the newline. |
| `CommandGrammar.DataAcceptedExactly` | commands.c:224-241 | Data is accepted if and only if it starts with "0x" and at most eight characters come before the next blank or the end; they may be anything, or missing. Its value is theirs, and reading stops before the blank. |
| `CommandGrammar.NonDigitsAreThrees` | commands.c:251-260 | A line means the same with every character that stands for a digit and is none replaced by 3. |
| `CommandGrammar.AcceptsWithoutDigits` | commands.c:251-260 | An accepted program whose address has no hexadecimal digit at all. |
| `CommandGrammar.LosesAByte` | commands.c:271 | A byte 0xFF between the first gap and the type is accepted, and the line read as if it were not there. |
| `CommandGrammar.AnythingAfterAHundred` | commands.c:149 | A hundred valid lines are read as what they mean, whatever text follows. |
| `Commands.DoNextChar` | commands.c:262-274 | The blank-skipping loop on a stream, against its specification, with the end of file and the pushed-back character. |
| `Commands.DoWordOrByte` | commands.c:173-183 | Succeeds if and only if the next character is W, for size 4, or B, for size 1. |
| `Commands.DoReadAddress` | commands.c:276-287 | Reads "@0x", sixteen digits and the end of the line, or fails; the stream ends up where the specification says. |
| `Commands.DoReadData` | commands.c:224-241 | Reads "0x" and digits up to a blank, which it pushes back; fails on more than 32 bits. |
| `Commands.DoReadProcedure` | commands.c:185-208 | Reads the rest of a read line, or fails, as the specification does. |
| `Commands.DoWriteProcedure` | commands.c:210-249 | Reads the rest of a write line, or fails, as the specification does. |
| `Commands.DoReadProgram` | commands.c:137-171 | Accepts if and only if the specification accepts, with the same commands; a rejected program has no lines. |
| `Commands.DoPrintCommand` | commands.c:95-112 | Piece by piece, writes the line of PrintedRead or PrintedWrite: single blanks, 8 data digits for words and at least 2 for bytes. |
| `Commands.DoPrintProgram` | commands.c:87-116 | Writes the lines of the program in order. |
| `Streams.File.Fgetc` | commands.c:150 | Reads one character, or sets the end-of-file flag and yields EOF as a char. |
| `Streams.File.Ungetc` | commands.c:239 | Pushes back the character read last, and clears the flag, unless it is EOF as a char. |
| `Programs.Program.Add` | commands.c:16-36 | Accepts exactly words, and bytes of data, at offsets divisible by eight, and no writes of instructions. A refusal changes nothing; otherwise the command comes after the old ones, and a full program doubles its slots, which moves its lines once. |
| `Programs.Program.Shrink` | commands.c:38-49 | Keeps the listing; more than ten lines then have exactly as many slots, and otherwise the slots stay. |
| `Programs.Program.constructor` | commands.c:4-14 | A new program has no lines and ten slots. |
| `Programs.Program.Reallocate` | commands.c:26-29 | The commands survive the move to a new block, each counted as one move. |
| `Programs.Amortised` | commands.c:16-49 | Over any sequence of adds and shrinks: lines are the accepted commands, at most the slots, of which there are at least ten and otherwise fewer than twice the lines; moves are at most the slots gained plus twice the lines of each shrink. |
| `Programs.ShrinkFits` | commands.c:38-49 | After any sequence that ends in a shrink, more than ten accepted commands occupy exactly as many slots, and otherwise no slot was given back. |
| `Programs.AddsDouble` | commands.c:26-29 | With adds only, the slots are ten doubled as often as the accepted commands need, and no more often. |
| `Programs.MovesAreLinear` | commands.c:16-49 | Over any sequence, moves are fewer than twice the lines added and shrunk. |
| `Programs.AddsMoveFewerThanTwice` | commands.c:16-36 | With adds only, n accepted commands cost fewer than 2n moves in all. |
| `Programs.GrowsAtMostOnce` | commands.c:26-29 | From a consistent program the growth loop terminates after at most one doubling. |
| `Programs.PerformAll` | commands.c:4-49 | Over any sequence of operations the array holds exactly the accepted commands in order, in the slots specified; after a final shrink, more than ten lines have exactly as many slots. |
| `Programs.ReadThenAdd` | commands.c:21-24 | Adding the commands of an accepted text gives the same program if and only if all page offsets are multiples of eight. |
| `Programs.ReadableAcceptable` | commands.c:24 | Of well-formed commands, program_add_command takes exactly those with an offset divisible by eight. |
| `Programs.ReadableButRefused` | commands.c:16-24 | Every valid line is read as the command it means, and program_add_command refuses that command if and only if the last character of the address does not count as 0 or 8. |
| `Programs.LastCharDecidesEights` | commands.c:276-287 | The page offset of an address that was read is, modulo eight, what its last character counts. |
| `Programs.TestLineRefused` | tests/files/commands01.txt:3 | This line, which has eight blanks before its address, is read as one command, which program_add_command refuses; and so with any other gaps. |
| `CacheRuns.LookupAgreesWithMemory` | cache_mng.c:223-245 | After any run of insertions and lookups from a flushed cache, cache_hit hits if and only if the block was the last one put into some way of its set and every way before that one was used; and then word k of its line is word k of the block in memory, and the word at the address is the one that memory has there. |
| `CacheRuns.DisciplinedPresence` | cache_mng.c:229-243 | If blocks are only put over valid or the first invalid way, and only while not cached, that is the case exactly when the block was put into some way that was not reused since. |
| `CacheRuns.SlotIsLastInsert` | cache_mng.c:181-191 | After any run a way is valid if and only if something was put there, and then it has the tag and the words of the last block put there. |
| `CacheRuns.FindWayExactly` | cache_mng.c:229-244 | In any state the search finds a way if and only if it has the tag and every way before it is valid with another tag. |
| `CacheRuns.ReachableInv` | cache_mng.c:143-245 | In every set reached by a disciplined run the valid ways come first and hold different blocks, and every valid entry agrees with memory. |
| `CacheRuns.LookupFinds` | cache_mng.c:223-245 | From any state with the invariant, the search that stops at the first invalid way still finds every cached block, with the words of memory. |
| `CacheRuns.InsertKeeps` | cache_mng.c:181-191 | Inserting an entry of cache_entry_init at its own index, for an uncached block, over a valid or the first invalid way, keeps the invariant. |
| `CacheRuns.LookupKeeps` | cache_mng.c:236-243 | The age update of a hit keeps the invariant. |
| `CacheRuns.OnlyAges` | lru.h:20-28 | A hit changes nothing but two ages of its set: the way that hit gets age zero, the first way grows one older if it was younger, and no other way changes. |
| `CacheRuns.AgesStayZero` | lru.h:20-28 | After any run of insertions and lookups from a flushed cache all ages are zero, so they never tell which block was used last. |
| `CacheRuns.AgeUpdateIsLru` | lru.h:20-28 | From any ages, the update is an LRU update if and only if no way other than the first and the one that hit was younger than the one that hit. |
| `CacheRuns.AgeUpdateIsNotLru` | lru.h:20-28 | In the instruction cache, with one entry of age 1 in the last way of set 0: a hit there leaves the second way at age 0, where LRU makes it 1. |
| `CacheRuns.HoldsLastInsert` | cache_mng.c:181-191 | After any run, a way holds a block if and only if that block was the last one put there. |
| `CacheRuns.BlockParts` | cache_mng.c:226-227 | Index and tag are remainder and quotient of the block number by the lines, and give it back. |
| `CacheRuns.Perform` | cache_mng.c:112-282 | One operation on the array changes it as specified and answers with the line found. |
| `CacheRuns.PerformAll` | cache_mng.c:112-282 | Over any sequence of insertions and lookups on the array, the answers are exactly those that AnswersAt describes. |
| `CacheRuns.AnswersAt` | cache_mng.c:223-245 | The answer at each position of a run: there is one if and only if a block present was looked up, and then its four words are those of memory, each in its place. |
| `CacheRuns.SourceGeometries` | cache.h:9-57 | The three caches have 4 KiB, 4 KiB and 64 KiB; index and tag of an address are those that the shifts of 10 and 13 bits and the tag fields of 22 and 19 bits give. |
| `Caches.CacheFlush` | cache_mng.c:143-177 | Every entry is zeroed. |
| `Caches.CacheEntryInit` | cache_mng.c:98-140 | Fails if and only if the address is not a multiple of 16; otherwise the entry is valid, of age zero, with the tag of the address, and word k of its line is the word of memory k words after the address. |
| `Caches.CacheInsert` | cache_mng.c:181-219 | Fails if and only if way or index is out of range; otherwise exactly one entry changes. |
| `Caches.CacheHit` | cache_mng.c:223-282 | On a hit: index, way and line of the first valid way with the tag, all ways before it being valid with other tags, and the age update. Otherwise the miss values 255 and 0xFFFF, with line and cache unchanged, and every valid way with the tag comes after an invalid one. |
| `Caches.AgeUpdate` | lru.h:20-28 | The age loop as written has the closed form that OnlyAges characterises. |
| `Caches.AtInjective` | cache.h:99-100 | Different index and way are different places of the flat array. |
| `Caches.AtRowMajor` | cache.h:99-100 | The ways of a line are neighbours in the array, and the next line follows the last way. |

## Left out

- `cache_read`, `cache_write`, `cache_read_byte`, `cache_write_byte` and their macros (`cache_mng.c:305-689`): what they do depends on errno and on shifted arguments, and is not the documented exclusive policy.
- `LRU_age_increase` (`lru.h:8-17`): only the four functions above use it, and with it the ages.
- `clear_list` (`list.c:20-26`): it steps through nodes it has just freed.
- Deallocation: a node that is popped, and a block that is reallocated, are dropped and not freed.
- `memory.c` and the printing of addresses and caches as text.
- `TlbHierarchyRuns.Drive`: not the dumps of the three TLBs that the driver prints after every access (`test-tlb_hrchy.c:104-124`); it returns what they are about, the addresses and hits.
- `AssocTlbRuns.Drive`: likewise not the dump of lines and list (`test-tlb_simple.c:84-106`).
- NULL arguments, files that cannot be opened, allocation failure, debug output and the tables of error messages. A function with one kind of error returns a flag.
- The `replacement_policy_t` of function pointers (`tlb_mng.h`): the associative TLB calls `move_back` of its list directly.
- `Commands.DoReadProgram`: the listing is a sequence and not the buffer of ten slots that `program_read` fills without growing it (`commands.c:10`, `commands.c:154-157`); commands are read as whole values, and of a rejected program nothing is kept.
- `Programs.Program.Reallocate`: new slots hold blank commands, where `realloc` leaves them undefined; no line ever shows them.
- Widths that no run reaches: `nb_lines`, `allocated`, list values and the bit count of `write_procedure` are unbounded.
- Everything else in the test drivers apart from their initial states and search loops, the shell scripts and the Makefile.

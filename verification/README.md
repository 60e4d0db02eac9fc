# Click's data-structure and language cores, verified

This project models the parts of Click's `lib/` in which a fast or mutable
representation has to agree with a simple mathematical object, and proves that
it does. Each module follows one source file:

| module | models | simple object it agrees with |
|---|---|---|
| `Sorting` | `click_qsort` in `glue.cc` | a sorted permutation, or just a permutation when the comparator is nonsense |
| `Strings`, `Catalog`, `Ino` | `ClickIno` in `ino.cc` | a tree of slash-separated names |
| `Packets`, `PacketStore` | sharing of packet buffers in `packet.cc` and `packet.hh` | handles, exact use counts and a ledger of released buffers |
| `PacketPool`, `PoolCalls` | the per-thread and global packet pools in `packet.cc` | a place for every packet and buffer; what each call gets |
| `Tunnels`, `Flatten`, `Connect` | tunnel elimination and port pairing in `lexer.cc` | paths in the connection graph; flattened port lists |
| `NameDB`, `Contexts` | `DynamicNameDB` and `NameInfo` in `nameinfo.cc` | a finite map; prefixes ordered by length |
| `Confparse`, `Quoting`, `QuotedText`, `CommentedText` | comments, quoting and argument lists in `confparse.cc` | byte strings and lists of byte strings; a notation and what it stands for |
| `IP6Text`, `IP6Parse`, `IP6Grammar`, `IP6Stores` | IPv6 text in `ip6address.cc` and `ipaddress.cc` | eight 16-bit groups; the forms of RFC 4291 |
| `MD5` | the streaming half of `md5.cc` | the block fold over a padded message (RFC 1321) |
| `SelectSet` | `selectset.cc`, select build | a map from descriptor and event to element |
| `Words`, `Bitvector` | `bitvector.cc` | a sequence of booleans |
| `Checksum` | `in_cksum.c` | the one's complement sum (RFC 1071) |

`Wrappers` holds two types that several modules share. Where the source changes
things step by step, the model is a class or a method with loops, tied by its
contract to a function or a predicate; the properties are then proved of those.

How the model reads the source:

- Pointers into a buffer or a string are positions; pointers to objects are
  numbers. Null is `None` or -1, as the context asks.
- Integers are unbounded unless the width matters. The 16-bit fields of
  `ClickIno` entries, the 16-bit groups of IPv6 addresses, the 32-bit
  accumulator and counters of the checksum and of MD5, and conversion to `char`
  are truncated explicitly.
- A failing allocation is a parameter of the call, or a limit given to it.
- A comparator may answer anything, and the same question differently each time; its
  answers depend on the two elements and on how often it has been asked.
- Critical sections of the packet pool are atomic; everything else interleaves.
- A `Bitvector` word is a 32-bit machine word; `Words` says which bits its operators set.

Where a property fails of the code, the failing input, and the exact condition:

- `ClickIno` keeps skip counts and indices in 16 bits. The index is right if and only
  if the elements and their directories are at most 65535 names
  (`Ino.ClickIno.TruePrepare`, over `WantedSet` of the router). The routers a, aa, aaa
  and so on with 65536 elements or more fail (`Ino.ManyNamesAreTooMany`,
  `Ino.ClickIno.PrepareTooMany`).
- `click_in_cksum` is right for all data of length n if and only if n <= 131074, in
  either byte order (`Checksum.BoundIsExact`); `Checksum.OverflowingIsWrong` gives a
  failing input of every greater length.
- `IP6AddressArg::basic_parse` stores behind the eighth group if and only if the text
  is seven groups, `::` and a digit, or six groups, `:::` and a dotted address
  (`IP6Stores.StoresOutsideExactly`); `1:2:3:4:5:6:7::8` and `1:2:3:4:5:6:::1.2.3.4`
  do (`IP6Stores.SevenAndMoreStores`, `IP6Stores.SixAndDottedStores`). The model gives
  such texts no result. No text that `unparse` writes is one
  (`IP6Stores.UnparsedStaysInside`).
- `IP6AddressArg::parse` takes for addresses the texts of RFC 4291 and two more kinds: the
  empty text, for all ones, and three colons before a dotted address, for two
  (`IP6Grammar.AcceptedExactly`). A text it takes is one of RFC 4291 if and only if it is
  not empty and has no three colons in a row (`IP6Grammar.StandardExactly`).
- `skip_comment` steps past the end of the string if and only if the string ends right
  after `//`, after `/*`, or one character after `/*` (`Confparse.CommentPassesEnd`). When the
  last unit of a text is a `\<` that such a comment cuts short, and only then,
  `partial_uncomment` loses the last run of text (`Confparse.LossExactly`): all of
  `abc\<//`, for one (`Quoting.TextLost`).
- `Bitvector::operator=` may leave a buffer of one word. `resize` and `assign` then store
  outside it if and only if they are asked for 33 to 64 bits
  (`Bitvector.Bitvector.Resize`, `Bitvector.Bitvector.Assign`); copying ten bits into an
  empty vector and resizing that to 64 does it (`Bitvector.Bitvector.ResizeAfterCopy`).
- `Bitvector::offset_or` with an empty operand touches the word at the offset, which
  is missing if and only if the offset is the size and all words are full
  (`Bitvector.Bitvector.OffsetInside`); 96 bits and offset 96 do it
  (`Bitvector.Bitvector.OffsetAtEnd`).
- `Bitvector::operator=` from an empty vector keeps the old first word, which
  `offset_or` then merges in. The documented loop is what happens if and only if none of
  these leftover bits falls on a clear position (`Bitvector.Bitvector.OffsetOr`,
  `Bitvector.MergedDocumented`); `Bitvector.Bitvector.EmptySetsBits` is a run in which an empty
  operand sets a bit.

## Model

| member | source | states |
|---|---|---|
| Sorting.Qsort | click/lib/glue.cc:552-668 | with any comparator, even one whose answers vary from question to question, the range ends as a permutation of itself, nothing outside it moves, the call returns and the stack assertion holds for any size below 2^bits with a stack for that many ranges; with a total preorder the range is sorted |
| Sorting.Partition | click/lib/glue.cc:583-651 | whatever the comparator answers, the range is permuted and the two parts left are each shorter than it and do not overlap; when answers are steady they are the parts below and above the pivot |
| Sorting.Scan | click/lib/glue.cc:611-637 | the four pointers stay in order and in range, passing each other by one element more only under unsteady answers; under steady ones elements end sorted by how they compare to the pivot, equal ones at both ends |
| Sorting.Gather | click/lib/glue.cc:639-648 | the block exchanges bring the equal elements from both ends to the middle |
| Sorting.InsertionSort | click/lib/glue.cc:573-582 | tiny ranges are permuted, and sorted when the comparator is a total preorder |
| Sorting.Med3 | click/lib/glue.cc:521-531 | one of the three positions, and the median of the three under a total preorder |
| Sorting.SwapBlocks | click/lib/glue.cc:533-550 | exchanges two disjoint blocks and leaves the rest; overlapping ones are still permuted |
| Sorting.SortOrSplit | click/lib/glue.cc:568-651 | one turn sorts a range or leaves it in order except inside the parts still to do |
| Sorting.PartitionOrders | click/lib/glue.cc:639-651 | a partitioned range is in order except inside its two outer parts |
| Sorting.TurnKeeps | click/lib/glue.cc:568-664 | one turn of the main loop keeps permutation, disjoint pending ranges, the halving of ranges by depth and order outside pending ranges, and shrinks the pending work |
| Sorting.DepthBound | click/lib/glue.cc:652-664 | a pending range at depth d has size at most n / 2^d, so a range worth splitting sits low enough for the stack assertion |
| Strings.CompareTransitive | click/lib/ino.cc:76-82 | the lexicographic order used to sort names is transitive |
| Strings.Between | click/lib/ino.cc:131-135 | a string that sorts between a prefix and one of its extensions extends the prefix too |
| Catalog.MissingDirsExact | click/lib/ino.cc:124-145 | walking up from a name until a directory prefixes the previous name finds exactly the directories that the previous name does not have |
| Catalog.DirIsNamedOrAdded | click/lib/ino.cc:124-145 | over sorted names, every proper directory of every name is a name or is added |
| Catalog.AddedDistinct | click/lib/ino.cc:124-145 | no directory is added twice |
| Catalog.Contiguous | click/lib/ino.cc:131-163 | because '/' sorts below every other name character, the descendants of an entry lie right after it |
| Catalog.SlashImpliesUnder | click/lib/ino.cc:157-162 | the assertion in the skip loop: looking at one character is enough to know a descendant |
| Catalog.ExtentExact | click/lib/ino.cc:151-163 | the skip count is the number of strict descendants, and they are the entries that follow |
| Catalog.ChildrenExact | click/lib/ino.cc:223-232 | stepping by skip + 1 from the entry after d visits each direct child of d once, in order, and nothing else |
| Catalog.ParentPresent | click/lib/ino.cc:296-313 | every entry but the root has its parent directory among the entries |
| Catalog.ParentUnique | click/lib/ino.cc:296-313 | a name is a direct child of exactly one directory |
| Ino.ClickIno.TruePrepare | click/lib/ino.cc:84-175 | succeeds if and only if the capacity that doubling reaches for one entry more than the names and directories of the router is within the memory there is; then the entries are the root and each wanted name and directory once, strictly sorted; skips and the inverse index are right if and only if the router's names and directories are at most 65535; on failure the old index, an empty one or the root alone is left, as the allocation that failed says |
| Ino.ClickIno.AddDirectories | click/lib/ino.cc:124-145 | appends exactly the missing directories behind the sorted elements; fails if and only if the capacity they need is more than there is memory for |
| Ino.ClickIno.Grow | click/lib/ino.cc:54-72 | keeps the entries and reaches the capacity that doubling gives, or fails if and only if that is too much |
| Ino.DoubledLeast | click/lib/ino.cc:59-61 | that capacity is the least power of two times the old one, or times 128, that is enough |
| Ino.ClickIno.ComputeSkips | click/lib/ino.cc:151-163 | sets every skip to the number of descendants, modulo 2^16, and changes nothing else |
| Ino.ClickIno.ComputeXindex | click/lib/ino.cc:165-167 | makes xindex the inverse of the entries' numbers |
| Ino.NumbersExact | click/lib/ino.cc:151-167 | numbers and skips survive 16-bit fields if and only if there are at most 65536 entries |
| Ino.IndexSize | click/lib/ino.cc:113-145 | an index of the right names has one entry for each name and directory of the router, and the root |
| Ino.ManyNamesAreTooMany | click/lib/ino.cc:151-167 | routers of every size from 65536 elements on have too many names |
| Ino.ClickIno.PrepareTooMany | click/lib/ino.cc:84-175 | for such a router an index reported as good is wrong |
| Ino.ListingIsWanted | click/lib/ino.cc:113-145 | elements and added directories together are each wanted name once, and closed under directories |
| Ino.ClickIno.NameSearch | click/lib/ino.cc:178-192 | the halving search over tails of names finds the name in the range if it is there |
| Ino.ClickIno.ElementNameSearch | click/lib/ino.cc:194-200 | finds an entry if and only if the directory has a direct child of that component |
| Ino.ClickIno.DotDot | click/lib/ino.cc:296-313 | the parent search always succeeds, and its result has the directory as a direct child |
| Ino.ClickIno.ParentUndoesChild | click/lib/ino.cc:296-313 | ".." leads back to the directory in which the child was looked up |
| Ino.ClickIno.Nlink | click/lib/ino.cc:202-235 | counts each direct child once beside the fixed links |
| Ino.ClickIno.ReaddirNames | click/lib/ino.cc:401-413 | hands out the direct children from a position on, in order, as far as there is room, and the position to go on from |
| Packets.KillKeeps | click/include/click/packet.hh:1425-1442 | killing a handle keeps the invariant and every other packet as it was |
| Packets.CloneKeeps | click/lib/packet.cc:644-694 | a clone shares the buffer and the data range; it fails if and only if there is no memory, and changes nothing then; nobody else is disturbed |
| Packets.RelocateKeeps | click/lib/packet.cc:749-813 | a packet moved to memory of its own has the same bytes, the room asked for and no sharer |
| Packets.MakeKeeps | click/lib/packet.cc:530-575 | succeeds if and only if both allocations do; the packet is new and unshared, with exactly the bytes, headroom and tailroom asked for, the tailroom lengthened to reach the least buffer |
| Packets.MakeAroundKeeps | click/lib/packet.cc:594-615 | succeeds if and only if there is memory for a packet; the caller's memory becomes its buffer, with the room around the data as given |
| Packets.ExpensiveUniqueifyKeeps | click/lib/packet.cc:696-813 | succeeds if and only if the buffer, and before it a packet if this one has clones, can be allocated; then a packet with the same bytes, the old memory around them as far as it fits, the room asked for exactly, and a buffer no other live packet reaches; failure frees it or not as asked; everyone else keeps their bytes |
| Packets.UniqueifyKeeps | click/include/click/packet.hh:1562-1569 | uniqueify of a shared packet does the same; an unshared one is returned unchanged, without an allocation |
| Packets.PushKeeps | click/lib/packet.cc:839-862 | an unshared packet with room is pushed in place and cannot fail, others succeed if and only if their memory is there; the result is unshared, has n bytes more in front, those of the old headroom as far as it went, and the stated room |
| Packets.PutKeeps | click/lib/packet.cc:864-886 | the same at the other end |
| Packets.PullKeeps | click/include/click/packet.hh:1610-1627 | leaves the bytes behind the first n, or none, and that much more headroom; no memory is touched |
| Packets.TakeKeeps | click/include/click/packet.hh:1666-1684 | the same at the other end |
| Packets.PushUndoesPull | click/include/click/packet.hh:1571-1627 | pushing what was pulled gives the old bytes back, shared or not; an unshared packet is as it was |
| Packets.PutUndoesTake | click/include/click/packet.hh:1629-1684 | putting what was taken gives the old bytes back, shared or not; an unshared packet is as it was |
| Packets.StepKeeps | click/lib/packet.cc:183-224 | every operation, with any allocation failures, keeps the invariant |
| Packets.RunKeeps | click/lib/packet.cc:183-224 | the invariant holds in every state of every run |
| Packets.RunSafety | click/lib/packet.cc:644-694 | in every run a data packet never has a data packet, its use count is its handle plus its live clones, and no live packet reaches a released buffer |
| Packets.RunReleasesOnce | click/lib/packet.cc:183-224 | in every run a buffer is released at most once, by its destructor if and only if it came with one |
| Packets.RunLeaksNothing | click/lib/packet.cc:183-224 | once every handle is killed no packet is left and every buffer has been released |
| PacketStore.Store.KillHandle | click/include/click/packet.hh:1425-1442 | field by field, kill does what its function says and keeps the invariant |
| PacketStore.Store.CloneOf | click/lib/packet.cc:644-694 | field by field, clone does what its function says, and fails if and only if there is no memory |
| PacketStore.Store.ExpensiveUniqueifyOf | click/lib/packet.cc:696-813 | field by field, with the recursion through a clone, expensive_uniqueify does what its function says, and what it promises, the condition for success included |
| PacketStore.Store.UniqueifyOf | click/include/click/packet.hh:1562-1569 | uniqueify does what its function says, and what it promises |
| PacketStore.Store.PushOf | click/include/click/packet.hh:1571-1589 | push does what its function says, and what it promises |
| PacketStore.Store.PutOf | click/include/click/packet.hh:1629-1646 | put does what its function says, and what it promises |
| PacketPool.StepKeeps | click/lib/packet.cc:310-460 | every atomic step of pool_allocate and recycle by any thread keeps the pool invariant |
| PacketPool.RunKeeps | click/lib/packet.cc:310-460 | the invariant holds in every state of every interleaving |
| PacketPool.RunPlaces | click/lib/packet.cc:310-460 | in every interleaving each packet and each buffer is in use, in one thread's pool, in one global batch, on its way or freed, and only one of these |
| PacketPool.RunCounts | click/lib/packet.cc:310-460 | in every interleaving, with buffers of any length coming from alloc_data and make too, counts are list lengths, a batch's stored count is its length, the limits of 1000 and 16 hold and pooled buffers have 2048 bytes |
| PacketPool.StealKeeps | click/lib/packet.cc:325-338 | taking a batch from the global pool keeps every item in one place |
| PacketPool.FlushKeeps | click/lib/packet.cc:401-431 | moving a full pool to the global pool, or freeing it, leaves room and keeps every item in one place |
| PoolCalls.EveryCallGets | click/lib/packet.cc:310-381 | in every interleaving a call of pool_allocate hands out exactly one packet, and one buffer of exactly the length it was entered with, a pooled one only for 2048 bytes; it fails if and only if a `new` that it needs does, and then no packet has come into use |
| PoolCalls.NewOnlyWithoutBatches | click/lib/packet.cc:317-352 | in every interleaving a thread calls `new` only if it found no batch in the global pool |
| PoolCalls.EveryRecyclePools | click/lib/packet.cc:383-459 | in every interleaving a recycled packet ends up first in its thread's pool, its buffer too if it has 2048 bytes |
| PoolCalls.EveryFlushGives | click/lib/packet.cc:401-431 | a full pool becomes the top batch as it is, or is deleted when there are 16 batches; one that is not full is left alone |
| PoolCalls.FreedOnlyIfNeeded | click/lib/packet.cc:310-459 | in every interleaving packets and buffers are deleted only when the global pool is full, no data can be had, or a buffer is not of the pool's length or was given up |
| PacketPool.CleanupPool | click/lib/packet.cc:936-953 | deletes exactly the two lists, and its assertions hold |
| PacketPool.StaticCleanup | click/lib/packet.cc:956-984 | deletes exactly what the pools of the list and the batches hold, and its assertions hold |
| PacketPool.CleanupAfterRun | click/lib/packet.cc:956-984 | after any run, with the list of thread pools as the run has built it, every pooled packet and buffer is deleted exactly once |
| Tunnels.PlainOutputs | click/lib/lexer.cc:2302-2347 | plain recursion on the output side collects exactly the real ports from which a path of tunnels leads |
| Tunnels.PlainInputs | click/lib/lexer.cc:2302-2347 | plain recursion on the input side collects exactly the real ports to which a path of tunnels leads |
| Tunnels.CoveredIsJoined | click/lib/lexer.cc:2100-2116 | expanding both ends of every connection gives exactly the real pairs joined by a path through tunnels |
| Tunnels.AcyclicIsRanked | click/lib/lexer.cc:2302-2347 | no path of connections runs back into itself if and only if expansion is well founded in both directions |
| Tunnels.PathIsShort | click/lib/lexer.cc:2302-2347 | without cycles no path takes a connection twice, so paths are no longer than the list of connections |
| Flatten.Lexer.FindTunnel | click/lib/lexer.cc:2254-2300 | finds, or creates on demand, exactly the ends of declared tunnels |
| Flatten.Lexer.AddTunnels | click/lib/lexer.cc:1051-1085 | declares the two pairings of a new compound element, and changes nothing for one whose name is taken |
| Flatten.Lexer.Expand | click/lib/lexer.cc:2302-2347 | returns on every graph, only with ports that a path reaches; with a rank, which every graph without cycles has, the memo equals plain recursion |
| Flatten.Lexer.ExpandConnection | click/lib/lexer.cc:2349-2359 | the same for a port that may be real |
| Flatten.Lexer.FirstLevel | click/lib/lexer.cc:2202-2212 | the first loop gives each tunnel end the ports connected to its partner |
| Flatten.Lexer.AddRouterConnections | click/lib/lexer.cc:2100-2116 | adds the pairs that one connection stands for |
| Flatten.Lexer.CreateConnections | click/lib/lexer.cc:2202-2230 | makes only connections that a path joins, and all of them if the graph has no cycle |
| Connect.AnalyzePorts | click/lib/lexer.cc:1490-1505 | counts the ports a list needs and the groups that can grow |
| Connect.FlatPorts | click/lib/lexer.cc:1556-1583 | which port each position of a flattened list is: as listed, counting on from the last one listed, or from 0 |
| Connect.FlatLength | click/lib/lexer.cc:1515-1545 | a list grows by exactly the deficit, in its first group that can grow |
| Connect.RestIsFlat | click/lib/lexer.cc:1546-1583 | the cursor shows the flattened list, port by port |
| Connect.PairUp | click/lib/lexer.cc:1546-1583 | the two-cursor loop ends and pairs the two flattened lists, repeating a side that does not step |
| Connect.ConnectAll | click/lib/lexer.cc:1507-1583 | no error if and only if the sides fit; then as many connections as the larger need, the i-th joining the i-th ports |
| NameDB.DynamicNameDB.Sort | click/lib/nameinfo.cc:230-255 | sorts names with their values and leaves the map as it was; an empty table is left alone |
| NameDB.DynamicNameDB.Find | click/lib/nameinfo.cc:188-220 | finds a name in either mode, also when the counter reaches 100 on an empty table; adds a missing nonempty name when asked |
| NameDB.DynamicNameDB.Query | click/lib/nameinfo.cc:257-266 | a map lookup that leaves the map as it was |
| NameDB.DynamicNameDB.Define | click/lib/nameinfo.cc:268-277 | a map update, refused for the empty name alone |
| NameDB.DynamicNameDB.Revquery | click/lib/nameinfo.cc:280-288 | a name for the value if there is one, else the empty name |
| NameDB.Reordered | click/lib/nameinfo.cc:241-254 | moving names and values along an ordering permutation gives a sorted table of the same map |
| NameDB.Overwritten | click/lib/nameinfo.cc:268-277 | writing over one value changes that name's value only |
| Contexts.NameInfo.FindRoot | click/lib/nameinfo.cc:338-348 | finds the list of roots of a type, or the place where one belongs |
| Contexts.NameInfo.Walk | click/lib/nameinfo.cc:363-374 | the walk without backtracking ends at the database with the longest matching context, the one installed last among equals |
| Contexts.NameInfo.Adopt | click/lib/nameinfo.cc:392-404 | the adopting loop divides the siblings into those that extend the new context and the rest, all lists linked |
| Contexts.NameInfo.Namedb | click/lib/nameinfo.cc:333-410 | returns the closest database; when installing, the one of this very context, new only if there was none, and keeps the forest right |
| Contexts.NameInfo.Installdb | click/lib/nameinfo.cc:431-450 | always adds the database, as the closest for its context, and keeps the forest right; its assertion on children holds |
| Contexts.NameInfo.Query | click/lib/nameinfo.cc:496-510 | the answer is that of the most specific matching database that has one |
| Contexts.NameInfo.QueryFor | click/lib/nameinfo.cc:496-510 | the router's databases for the element's context come before the global ones |
| Contexts.AddedCanonical | click/lib/nameinfo.cc:384-404 | hooking a database under its closest match and adopting keeps every parent the most specific database above |
| Contexts.JoinedForest | click/lib/nameinfo.cc:384-404 | an install keeps the whole forest: parents, child lists, sibling links and sorted roots |
| Contexts.SiblingsIncomparable | click/lib/nameinfo.cc:363-374 | no context of two siblings is a prefix of the other |
| Contexts.WalkEnds | click/lib/nameinfo.cc:363-374 | a match none of whose children match is the closest |
| Contexts.AskNext | click/include/click/nameinfo.hh:273-281 | the contextual parent is the next most specific match, with nothing between |
| Contexts.ContextOf | click/lib/nameinfo.cc:418-422 | the element's name up to its last slash |
| Confparse.SkipComment | click/lib/confparse.cc:269-285 | ends behind the line or block comment, and past the string if and only if the string is cut short behind the opening |
| Confparse.CommentPassesEnd | click/lib/confparse.cc:269-285 | when skipping a comment passes the end of the string |
| Confparse.LineEnd | click/lib/confparse.cc:273-279 | the first line end, or the last character |
| Confparse.BlockEnd | click/lib/confparse.cc:280-284 | the first end of a block comment, or the last two characters |
| Confparse.SkipBackslash | click/lib/confparse.cc:287-307 | ends behind one escape |
| Confparse.SkipDoubleQuote | click/lib/confparse.cc:319-333 | ends behind the closing quote, or at the end of the string |
| Confparse.SkipCommentSpace | click/lib/confparse.cc:360-372 | ends at the first character that is neither space nor comment |
| Confparse.PartialUncomment | click/lib/confparse.cc:374-423 | copying in runs keeps every run of units, one space between runs, up to a comma; the last run is lost if and only if the text ends in an open `\<` that a comment cuts short |
| Confparse.LossExactly | click/lib/confparse.cc:374-423 | what is kept of every string, and that what is lost is not empty |
| Quoting.ProcessBackslash | click/lib/confparse.cc:476-557 | every escape stands for the bytes the specification gives, up to the position it gives |
| Quoting.SkipAgreesWithEscape | click/lib/confparse.cc:319-333 | skipping a quoted string understands every escape that processing does, for every string |
| Quoting.UnquoteClosesWhereSkipped | click/lib/confparse.cc:570-615 | unquoting leaves a double quote exactly where skipping it does |
| Quoting.Unquote | click/lib/confparse.cc:570-615 | copying in runs equals decoding character by character; the rows of QuotedText and CommentedText say what that gives |
| QuotedText.UnquotedMeans | click/lib/confparse.cc:448-615 | a text of plain characters, single and double quotes and `\<...>` unquotes to what its notation stands for: every kind of escape, in any order |
| QuotedText.SingleQuoted | click/lib/confparse.cc:557-566 | nothing within single quotes is special |
| QuotedText.PlainText | click/lib/confparse.cc:557-566 | text without quotes, `\<`, comments and outer space stays as it is, backslashes included |
| QuotedText.LetterEscapes | click/lib/confparse.cc:493-499 | the control characters of the seven letters, and the characters that stand for themselves |
| QuotedText.HexEscapes | click/lib/confparse.cc:511-524 | every byte from `\x` and its two digits, in either case |
| QuotedText.BracketEscapes | click/lib/confparse.cc:526-549 | every byte string from `\<` and its pairs of digits, within double quotes and outside |
| QuotedText.ArgvecOfTexts | click/lib/confparse.cc:684-711 | cp_argvec(cp_unargvec(v)) == v for every list of such texts without outer commas, but for an empty last one |
| CommentedText.UncommentMeans | click/lib/confparse.cc:425-446 | of any such text with line and block comments cp_uncomment keeps the stretches of text, cp_unquote what they stand for, with one space for a comment and the space around it, and none at the ends |
| CommentedText.ArgvecMeans | click/lib/confparse.cc:684-711 | cp_argvec splits any list of such texts at its commas outside quotes and comments, and ignores an empty last argument |
| Quoting.TextLost | click/lib/confparse.cc:374-423 | a text of which nothing is left |
| Quoting.Quote | click/lib/confparse.cc:628-682 | copying in runs equals encoding character by character |
| Quoting.QuotedShape | click/lib/confparse.cc:617-682 | a quoted string is one double-quoted string of printable characters, each dollar sign behind a backslash |
| Quoting.UnquoteQuote | click/lib/confparse.cc:617-682 | cp_unquote(cp_quote(s)) == s for every byte string and either newline mode |
| Quoting.Argvec | click/lib/confparse.cc:696-710 | splits as the specification does, dropping only an empty last argument |
| Quoting.Unargvec | click/lib/confparse.cc:799-813 | joins with a comma and a space |
| Quoting.JoinedAppend | click/lib/confparse.cc:799-813 | a joined list is the joined parts of it with a comma and a space between |
| Quoting.ArgvecUnargvec | click/lib/confparse.cc:696-710 | cp_argvec(cp_unargvec(v)) == v for every list of quoted strings |
| Quoting.ConfigurationRoundTrip | click/lib/confparse.cc:799-813 | any list of byte strings survives quoting, joining, splitting and unquoting |
| IP6Text.Unparse | click/lib/ip6address.cc:119-158 | the text elides the first longest run of zeros of length at least 2 (section 4.2 of RFC 5952), outside the all-zero and IPv4 forms |
| IP6Text.LongestRun | click/lib/ip6address.cc:141-150 | finds a longest run of zeros, the first of its length |
| IP6Text.Lay | click/lib/ip6address.cc:152-157 | prints the groups before and after the run, with two colons between |
| IP6Text.NeverTruncated | click/lib/ip6address.cc:133-158 | no print is cut short by its limit |
| IP6Text.TextLower | click/lib/ip6address.cc:119-158 | no address is printed with a capital letter (section 4.3 of RFC 5952) |
| IP6Grammar.TextShape | click/lib/ip6address.cc:119-158 | two colons are printed if and only if two neighbouring groups are zero (section 4.2.2 of RFC 5952), dots exactly for the IPv4 forms |
| IP6Grammar.AcceptedExactly | click/lib/ip6address.cc:327-405 | a text is used whole for an address if and only if it is of one of the forms of RFC 4291, with the groups that the form stands for, or of two forms more |
| IP6Grammar.StandardExactly | click/lib/ip6address.cc:327-405 | which of the texts taken are not of RFC 4291 |
| IP6Grammar.UsedBytes | click/lib/ip6address.cc:327-393 | whatever the text, what is used of it is made of hexadecimal digits, colons and dots |
| IP6Grammar.PrintedBefore | click/lib/ip6address.cc:327-393 | a printed address without dots is read up to its end when anything else follows, such as the / of a prefix |
| IP6Stores.BasicParse | click/lib/ip6address.cc:327-393 | in place, with memmove, computes what the specification says of every text; uses all of it if and only if it is of one of the forms, and then leaves the form's groups; otherwise uses nothing but digits, colons and dots; stores outside the address exactly for the texts of two shapes |
| IP6Stores.StoresOutsideExactly | click/lib/ip6address.cc:334-376 | a text makes the scan or the suffix store behind the eighth group if and only if it is seven groups, two colons and a digit, or six groups, three colons and a dotted address |
| IP6Stores.SevenAndMoreStores | click/lib/ip6address.cc:345-361 | 1:2:3:4:5:6:7::8 is such a text |
| IP6Stores.SixAndDottedStores | click/lib/ip6address.cc:366-380 | 1:2:3:4:5:6:::1.2.3.4 is such a text |
| IP6Stores.UnparsedStaysInside | click/lib/ip6address.cc:119-158 | no text of an address has either shape |
| IP6Parse.MakeRoom | click/lib/ip6address.cc:386-390 | moves the groups behind the elision to the end and puts zeros between |
| IP6Parse.BasicParse4 | click/lib/ipaddress.cc:131-153 | reads as many parts of a dotted address as are well formed |
| IP6Grammar.DottedSound | click/lib/ipaddress.cc:131-153 | what is taken whole for a dotted address is four decimal numbers up to 255 between dots, and gives their bytes |
| IP6Grammar.DottedComplete | click/lib/ipaddress.cc:131-153 | every such text is taken |
| IP6Grammar.RoundTrip | click/lib/ip6address.cc:327-393 | reading the text of any address uses all of it and gives the address back |
| MD5.State.Append | click/lib/md5.cc:329-365 | the state stands for the message with the new bytes at its end, the count for its bits modulo 2^64 |
| MD5.State.Finish | click/lib/md5.cc:367-388 | the digest is that of the block fold over the padded message |
| MD5.DigestOfPieces | click/lib/md5.cc:329-388 | any cutting of a message into calls gives the digest of the whole (sections 3.1 to 3.5 of RFC 1321) |
| MD5.FoldAppend | click/lib/md5.cc:346-364 | folding a longer message goes on from the value and the bytes left over |
| MD5.CountAdds | click/lib/md5.cc:340-344 | two words with a carry count bits modulo 2^64 |
| MD5.FoldNext | click/lib/md5.cc:346-364 | each block is processed on what the blocks before it left (section 3.4 of RFC 1321) |
| MD5.PaddedIs | click/lib/md5.cc:367-385 | the padded message is the message, a one bit, zeros, and the length modulo 2^64, low-order byte first (sections 3.1 and 3.2 of RFC 1321) |
| MD5.DigestRead | click/lib/md5.cc:386-387 | the digest is the four words, low-order bytes first (section 3.5 of RFC 1321) |
| MD5.InitialRead | click/lib/md5.cc:318-327 | the initial words are the bytes of section 3.3 of RFC 1321 |
| MD5.PaddedIsWhole | click/lib/md5.cc:382-385 | padding and length make whole blocks of every message |
| MD5.PadLeast | click/lib/md5.cc:382-383 | no shorter padding reaches 56 modulo 64 |
| SelectSet.Set.RegisterSelect | click/lib/selectset.cc:128-195 | the descriptor gets an entry and the events; the indices stay inverse, the fd_sets exact and the maximum true |
| SelectSet.Set.Initialize | click/lib/selectset.cc:95-106 | the wake pipe is polled without an element |
| SelectSet.Set.AddSelect | click/lib/selectset.cc:197-246 | refused without effect if and only if another element waits; otherwise a map update |
| SelectSet.Set.RemovePollfd | click/lib/selectset.cc:248-298 | one event goes from the map; with the last event the entry goes, its place taken by the last entry |
| SelectSet.Set.RemoveSelect | click/lib/selectset.cc:300-327 | removes exactly the element's own registrations among those named |
| SelectSet.Set.KillRouter | click/lib/selectset.cc:108-126 | removes exactly the dying router's registrations although entries move under the loop |
| SelectSet.DroppedChanges | click/lib/selectset.cc:283-288 | swap-removal keeps the two indices inverse and every other descriptor as it was |
| SelectSet.ListedMax | click/lib/selectset.cc:289-297 | the greatest listed descriptor is the greatest in use |
| Words.BitShl | click/lib/bitvector.cc:206-206 | which bits a word has after a left shift by any amount below 32 |
| Words.BitShr | click/lib/bitvector.cc:213-213 | which bits a word has after a right shift by any amount below 32 |
| Words.BitBelow | click/lib/bitvector.cc:38-38 | the mask of clear_last() has exactly the bits below its width |
| Bitvector.Bitvector.Resize | click/lib/bitvector.cc:61-84 | stores outside if and only if 33 to 64 bits are asked of a one-word buffer; otherwise keeps the bits, adds false ones, leaves no bit past the size |
| Bitvector.Bitvector.Assign | click/lib/bitvector.cc:106-121 | stores outside under the same condition; otherwise all bits as asked, none past the size |
| Bitvector.Bitvector.CopyFrom | click/lib/bitvector.cc:86-104 | operator=: the same bits; a buffer of just the words of x when it has more of them; the old words when x is empty |
| Bitvector.Bitvector.ResizeAfterCopy | click/lib/bitvector.cc:61-104 | ten bits copied into an empty vector, and that resized to 64 bits: a store outside |
| Bitvector.Bitvector.Flip | click/lib/bitvector.cc:123-132 | negates every bit, none past the size |
| Bitvector.Bitvector.OrWith | click/lib/bitvector.cc:148-162 | bitwise or at the larger of the two sizes, inside unless its resize is not |
| Bitvector.Bitvector.Combine | click/lib/bitvector.cc:134-176 | bitwise and, and exclusive or |
| Bitvector.Bitvector.OffsetOr | click/lib/bitvector.cc:178-221 | for every offset and size the bits of x, or of the first word of an empty x, are merged in; this is the documented loop if and only if the leftover bits of an empty x are harmless; outside only for an empty x at the end of full words |
| Bitvector.NothingLost | click/lib/bitvector.cc:205-220 | at the early exit the dropped half word and all later words fall past the vector |
| Bitvector.Bitvector.OffsetInside | click/lib/bitvector.cc:192-207 | the word at the offset is missing exactly for an empty x at the end of full words |
| Bitvector.MergedDocumented | click/lib/bitvector.cc:178-221 | merging is the documented loop, and leaves no bit past the size, exactly when no leftover bit falls on a clear position |
| Bitvector.Bitvector.OffsetAtEnd | click/lib/bitvector.cc:189-221 | 96 bits, an empty operand and offset 96: a store outside |
| Bitvector.Bitvector.EmptySetsBits | click/lib/bitvector.cc:86-104 | a run in which an empty operand sets a bit |
| Bitvector.Bitvector.OrWithDifference | click/lib/bitvector.cc:223-246 | or in place, the difference exactly the newly set bits, inside unless its resize is not |
| Bitvector.Bitvector.NonzeroIntersection | click/lib/bitvector.cc:249-261 | true if and only if some position is set in both, whatever the sizes |
| Bitvector.Bitvector.Zero | click/lib/bitvector.cc:43-52 | true if and only if no bit is set |
| Checksum.InCksum | click/lib/in_cksum.c:20-51 | up to 131074 bytes, the complement of the one's complement sum of section 1 of RFC 1071, in either byte order |
| Checksum.CksumIsOnesComplement | click/lib/in_cksum.c:32-50 | carrying at the end equals carrying around after every addition |
| Checksum.BoundIsExact | click/lib/in_cksum.c:20-51 | in either byte order, all data of length n are summed right if and only if n is at most 131074 |
| Checksum.OverflowingIsWrong | click/lib/in_cksum.c:25-36 | data of every greater length that are summed wrong |
| Checksum.PseudohdrComposes | click/lib/in_cksum.c:53-80 | adding the pseudo-header to a finished checksum is the checksum of header and data, exactly, up to 131062 bytes |
| Checksum.ByteOrderIndependent | click/lib/in_cksum.c:20-51 | machines of either byte order store the same bytes (section 2(B) of RFC 1071) |

## Left out

- Sorting.ChoosePivot: states only that the pivot lies in the range; which element is chosen affects speed, not the result.
- Ino: handler names, inode numbers and the `.h`, `.e` directories of `lookup` and `readdir`, which are encodings and dispatch.
- Packets: annotations, header pointers and `shift_data`; wrap-around of sizes near 2^32 in push and put.
- PacketPool: the single-threaded build, and failure to allocate a thread's pool; the order of memory accesses outside the lock is not modelled.
- Flatten.Lexer.AddTunnels: a compound element of which only some of the four ends are tunnels already, which leaves unpaired ends behind and the configuration in error, is not modelled; nor are error messages and landmarks.
- Flatten: the order of the connections made, which the router sorts afterwards.
- Connect: the flat vector of integers that encodes groups of ports is a sequence of records; unused-port messages are left out.
- NameDB: `StaticNameDB`, a sorted constant table; the bytes of a value between its creation and the copy into it.
- Contexts: `uninstalldb`; value sizes, which callers must keep equal for a type; what one database answers is a function given to the query.
- Confparse: `cp_spacevec`, numeric and keyword parsing, and the `cp_va_` machinery.
- IP6Parse: names resolved through `AddressInfo`, prefixes and masks; the byte order in which groups are stored.
- MD5: the rounds of `md5_process`, and `md5_finish_text`; pieces of 2^28 bytes or more, for which the shift of the byte count overflows.
- SelectSet: the kqueue and poll builds, waking the selecting thread, and calling elements.
- Bitvector: the copy constructor and the access to single bits.
- Checksum: the assembly branch, and source-routed pseudo-headers.
- Scheduling, drivers, devices, handlers, option parsing and the numeric parsers of `args.cc` are not part of this model.

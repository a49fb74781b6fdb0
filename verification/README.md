# pstore core, modelled in Dafny

pstore is a persistent append-only key/value store. This project models the parts of it whose behaviour can be stated exactly, and proves properties of them.

- Index trie: The index is a persistent hash array mapped trie.
  - A tagged `index_pointer` tells internal from linear nodes and heap from store addresses.
  - Internal nodes are bitmap-compressed, and a child's slot is the rank of its bit. Insertion moves the later children up in place.
  - Linear nodes hold colliding keys.
  - Nodes are copied on write. They are validated when loaded and flushed to the store depth first, children before their parent, so every child address lies below its parent's.
- Diff: `diff` walks a trie and reports the leaves written after a revision. It prunes every subtree that is older.
- JSON parser: The streaming parser is a stack of small matchers fed one character at a time. It keeps a sticky error code, a depth limit of 200 and a (column, row) coordinate, and it reports values through callbacks.
- HTTP: The server interprets the WebSocket handshake headers (`Connection`, `Upgrade`, `Sec-WebSocket-Key`, `Sec-WebSocket-Version`). It formats dates as IMF-fixdate.
- Command line: The scanner reads switches, then positional arguments, then checks required options. `parser<T>` reads an option's value.
- Fragment layout: This covers the BSS section's packed alignment and size, the dependents section, and how a fragment lays out its sections.
- Small helpers: The prime sieve tool's big- and little-endian integer writers, and the compile-time `max` helpers.

Each module models one source file, or a header together with its implementation file, with these exceptions:

- `JsonMatchers` and `JsonParser` split `json.hpp`: the first holds the matchers, the second the parser object and its input loop.
- `HamtTypes` and `HamtNodes` split the trie's types: the first holds the tag bits and bitmap arithmetic, the second the nodes.
- `Store` stands for the store's allocator (`alloc_rw`) and lookup (`getro`), which the trie and the section writers call.
- `BitCount`, `DecimalDigits` and `MaybeValues` are shared helpers that model no source file.

Across the modules:

- **Values:** pure code becomes datatypes, functions and lemmas.
- **Objects:** code that updates objects in place becomes classes whose methods are proved against those functions. This covers the trie nodes, the store transaction, the diff traverser and its result list, the fragment, the JSON parser object and the command-line scanner.
- **Loops:** loops become methods with invariants.

The store is an append-only allocator (`alloc_rw`) plus a map from address to the object stored there (`getro`).

## Model

| member | source | states |
|---|---|---|
| MaxHelpers.Max | include/pstore/support/max.hpp:64-65 | the result is at least each argument and is one of them |
| MaxHelpers.MaxSizeof | include/pstore/support/max.hpp:69-77 | at least 1, at least every type's size, and either 1 or the size of some type in the list |
| MaxHelpers.MaxAlignment | include/pstore/support/max.hpp:81-88 | at least 1, at least every type's alignment, and either 1 or the alignment of some type in the list |
| MaxHelpers.Characteristics | include/pstore/support/max.hpp:93-97 | size and align are `max_sizeof` and `max_alignment` of the list, so no type is larger or more aligned |
| MaxHelpers.MaxIsSymmetricOnExamples | include/pstore/support/max.hpp:101-102 | max(1, 2) = max(2, 1) = 2 |
| MaxHelpers.EmptyListMaxima | include/pstore/support/max.hpp:71-72 | both helpers give 1 for the empty list |
| MaxHelpers.SingletonMaxSizeof | include/pstore/support/max.hpp:103-104 | a one-type list has that type's size |
| MaxHelpers.ConsIsMonotone | include/pstore/support/max.hpp:105-107 | adding a type never lowers either maximum |
| MaxHelpers.SwapFrontKeepsMaxima | include/pstore/support/max.hpp:73-88 | exchanging the first two types changes neither maximum |
| Bss.CtzOfU32 | include/pstore/mcrepo/bss_section.hpp:71-72 | the exponent stored for a power-of-two 32-bit alignment is below 32, so `1U << align_` cannot overflow |
| Bss.SetAlignField | include/pstore/mcrepo/bss_section.hpp:93-98 | assigning the `align_` bit field changes bits 0-7 only |
| Bss.SetSizeField | include/pstore/mcrepo/bss_section.hpp:93-100 | assigning the `size_` bit field changes bits 8-39 only |
| Bss.BssSection.constructor | include/pstore/mcrepo/bss_section.hpp:65-76 | the word holds log2(align) in bits 0-7 and the size in bits 8-39, and nothing else; `align()` then returns the argument and `size()` the size |
| Bss.BssSection.Align | include/pstore/mcrepo/bss_section.hpp:83 | the result is a power of two whose exponent is the stored field |
| Bss.BssSection.Size | include/pstore/mcrepo/bss_section.hpp:84 | the result fits in 32 bits |
| Bss.PackedFieldsRoundTrip | include/pstore/mcrepo/bss_section.hpp:93-101 | packing an exponent and a size into the word and reading the two fields back gives them unchanged, and the word stays below 2^40 |
| Bss.CreateDispatcher | include/pstore/mcrepo/bss_section.hpp:122-130 | requires no fixups; fails with bss_section_too_large exactly when the data is longer than 2^32 - 1 bytes |
| Bss.CreationSizeBytes | lib/mcrepo/bss_section.cpp:54-56 | the size reported for a BSS section is `sizeof (bss_section)`, the size of the record `write` constructs, whatever the data; it is a whole number of alignment units |
| Bss.Write | lib/mcrepo/bss_section.cpp:58-64 | requires an aligned `out` and a 32-bit data size; the new section has the content's alignment and size = data size, and the result is `out` + 8 |
| Dependents.SizeBytes | lib/mcrepo/dependents_section.cpp:62-68 | zero exactly for no members; otherwise at least the header and one member |
| Dependents.SizeBytesIncreases | lib/mcrepo/dependents_section.cpp:66-67 | for n > 0 the size is strictly increasing, by exactly one member's size per member |
| Dependents.CreationSizeBytes | lib/mcrepo/dependents_section.cpp:90-94 | zero exactly for an empty range, otherwise at least one header and one member |
| Dependents.Write | lib/mcrepo/dependents_section.cpp:96-103 | requires an aligned `out`; an empty range builds nothing and returns `out`, otherwise one record of the members is built and the result is `out` + size_bytes |
| HamtTypes.HashConstants | include/pstore/core/hamt_map_types.hpp:86-97 | hash_index_bits is the population count of 63, max_hash_bits rounds 64+7 down to a multiple of it, the mask is 2^6-1, and the depth constants follow from them |
| HamtTypes.InternalDepths | include/pstore/core/hamt_map_types.hpp:141-143 | a shift is an internal depth exactly when shift/6 is below max_internal_depth |
| HamtTypes.UntagAddress | include/pstore/core/hamt_map_types.hpp:243-249 | clearing bit 0 gives an even word no larger than the original, keeps every bit above bit 0 and so keeps the heap bit |
| HamtTypes.OrInternalBit | lib/core/hamt_map_types.cpp:477-483 | or-ing internal_node_bit marks a word internal, untags back to the even address and keeps the heap bit |
| HamtTypes.TagRoundTrip | include/pstore/core/hamt_map_types.hpp:256-271 | a tagged 4-aligned heap pointer is a non-null heap and internal word, and untag gives the pointer back |
| HamtTypes.RankAtSetBit | lib/core/hamt_map_types.cpp:321-323 | a set bit adds one to the rank of every later bit |
| HamtTypes.RankAtClearBit | lib/core/hamt_map_types.cpp:321-323 | a clear bit adds nothing to the rank |
| HamtTypes.SetBitHasSlot | lib/core/hamt_map_types.cpp:322-324 | a set bit's rank is below the population count, so the children index is in range |
| HamtTypes.SlotsFollowBits | lib/core/hamt_map_types.cpp:322-324 | two set bits have different slots, in the order of the bits |
| HamtTypes.LowBitsCountIsRank | lib/core/hamt_map_types.cpp:323 | pop_count(bitmap & (bit_pos - 1)) is the number of set bits below the chunk |
| HamtTypes.SetBitBits | lib/core/hamt_map_types.cpp:445 | after or-ing bit h, bit k is set exactly when k is h or k was set before |
| HamtTypes.RankAfterSet | lib/core/hamt_map_types.cpp:426-446 | setting a clear bit adds one to the rank of every later bit and leaves earlier ranks unchanged |
| HamtTypes.ClearBitLeavesRoom | lib/core/hamt_map_types.cpp:423-428 | a clear bit among the 64 means at most 63 children, the old_size < hash_size assertion |
| HamtTypes.SetBitKeepsWidth | lib/core/hamt_map_types.cpp:419-421 | setting one of the 64 chunk bits keeps the bitmap a 64-bit value |
| HamtTypes.EmptyBitmap | lib/core/hamt_map_types.cpp:383-386 | a 64-bit bitmap has no children exactly when it is zero, the case read_node refuses |
| HamtTypes.GetNewIndex | include/pstore/core/hamt_map_types.hpp:609-612 | the new leaf takes slot 1 exactly when its hash chunk is not below the existing one, and slot 0 otherwise |
| HamtNodes.PointerKinds | include/pstore/core/hamt_map_types.hpp:209-232 | is_linear is is_internal, is_leaf its negation, is_address the negation of is_heap, the null pointer is an address leaf, and a tagged heap node is internal |
| HamtNodes.ParentStack.constructor | include/pstore/core/hamt_map_types.hpp:311 | a new parent stack is empty |
| HamtNodes.ParentStack.Push | lib/core/hamt_map_types.cpp:447 | push appends the entry at the top; it is called only while fewer than max_tree_depth entries are held |
| HamtNodes.LinearNode.constructor | lib/core/hamt_map_types.cpp:82-99 | a new linear node holds size null leaves |
| HamtNodes.LinearNode.Allocate | lib/core/hamt_map_types.cpp:109-122 | the new node has num_children leaves: the first min(num_children, size) copied from the source, the rest null |
| HamtNodes.LinearNode.AllocatePair | lib/core/hamt_map_types.cpp:124-129 | the new node holds exactly the two leaves, in order |
| HamtNodes.LinearNode.AllocateFrom | lib/core/hamt_map_types.cpp:133-137 | the copy holds the original leaves followed by extra null leaves |
| HamtNodes.LinearNode.AllocateFromDb | lib/core/hamt_map_types.cpp:139-146 | fails exactly when get_node fails; otherwise the leaves read by get_node followed by extra null leaves |
| HamtNodes.LinearNode.GetNode | lib/core/hamt_map_types.cpp:150-176 | a heap node gives its own leaves; a store node is read at the address with bit 0 cleared, and a wrong signature is index_corrupt |
| HamtNodes.LinearNode.Lookup | include/pstore/core/hamt_map_types.hpp:505-522 | the first leaf whose key equals the key and its position, or (null, not_found) when no leaf's key does |
| HamtNodes.LinearNode.Image | lib/core/hamt_map_types.cpp:186 | the stored copy carries the linear signature and this node's leaves |
| HamtNodes.LinearNode.Flush | lib/core/hamt_map_types.cpp:180-188 | size_bytes() bytes at the next 8-aligned address receive a copy of the node, and that address is returned |
| HamtNodes.LinearFlushRoundTrip | lib/core/hamt_map_types.cpp:150-188 | in any store holding the record flush wrote, a linear node tagged with bit 0 reads back through get_node as the same leaves |
| HamtNodes.LookupIn | lib/core/hamt_map_types.cpp:314-327 | the chunk is found exactly when its bit is set; then the slot is its rank, below size(), and the child is the one in that slot; otherwise the null pointer |
| HamtNodes.InsertedAt | lib/core/hamt_map_types.cpp:431-443 | after insert_child the slots below the index are unchanged, the index holds the leaf, the old children up to old_size move up by one, the rest stay |
| HamtNodes.InsertKeepsLookups | lib/core/hamt_map_types.cpp:417-448 | after insertion the new chunk finds the new leaf at its rank, and every other chunk finds the child it found before, one slot further on when it lies above the new chunk |
| HamtNodes.PairSlots | lib/core/hamt_map_types.cpp:244-258 | the two-child bitmap has exactly the two chunk bits set, and the slots follow chunk order as get_new_index says |
| HamtNodes.SingleSlot | lib/core/hamt_map_types.cpp:238-240 | the one-child bitmap has only the chunk's bit, one child, at slot 0 |
| HamtNodes.InternalNode.Size | include/pstore/core/hamt_map_types.hpp:603-606 | the child count is at most 64 |
| HamtNodes.InternalNode.constructor | lib/core/hamt_map_types.cpp:221-234 | a new internal node has an empty bitmap and room for 64 children |
| HamtNodes.InternalNode.Single | lib/core/hamt_map_types.cpp:238-240 | the bitmap is the chunk's bit and lookup of that chunk finds the leaf at slot 0 |
| HamtNodes.InternalNode.Pair | lib/core/hamt_map_types.cpp:244-258 | the bitmap has both chunk bits, the leaves sit at get_new_index and its complement, and lookup of each chunk finds its own leaf |
| HamtNodes.InternalNode.Copy | lib/core/hamt_map_types.cpp:262-267 | the copy has the same bitmap and the same first size() children |
| HamtNodes.InternalNode.InsertChild | lib/core/hamt_map_types.cpp:417-448 | the bitmap gains the chunk bit, size() grows by one, the children are shifted and the leaf placed at the rank of the chunk, and the parent stack gains (this, index) |
| HamtNodes.InternalNode.ReadyFromValid | lib/core/hamt_map_types.cpp:464-481 | in a well-formed tree each child's heap subtree lies inside the node's footprint and the subtrees of different children are disjoint |
| HamtNodes.InternalNode.Flush | lib/core/hamt_map_types.cpp:464-484 | every heap child is written first, depth first and in slot order, then the node; the result is an internal-tagged store address whose record is exactly the node's image (its bitmap and its children's store words), passes validate_after_load, and earlier records are untouched; each former heap child's record is its leaves or its bitmap |
| HamtNodes.InternalNode.FlushChildren | lib/core/hamt_map_types.cpp:466-481 | every slot holds a store word afterwards: unchanged for store children, otherwise the tagged address written during this flush, in increasing order; the record at that address holds the linear child's leaves, or the internal child's bitmap in an image that passes validate_after_load |
| HamtNodes.InternalNode.FlushSlot | lib/core/hamt_map_types.cpp:468-480 | a heap child is written as an internal node (the Internal signature, its bitmap, a valid image) while shifts is an internal depth and as a linear node (the linear signature, its leaves) tagged with bit 0 otherwise; the other slots are unchanged |
| HamtNodes.InternalNode.Image | lib/core/hamt_map_types.cpp:458 | the stored copy carries the internal signature, the bitmap and the words of the first size() children |
| HamtNodes.InternalNode.StoreNode | lib/core/hamt_map_types.cpp:452-460 | size_bytes(size()) bytes at the next 8-aligned address receive a copy of the node; earlier records are kept |
| HamtNodes.AlignedWord | lib/core/hamt_map_types.cpp:477-483 | an 8-aligned address has both tag bits clear, and or-ing internal_node_bit marks it internal without making it a heap word |
| HamtNodes.SettledStep | lib/core/hamt_map_types.cpp:466-481 | one more flushed slot, written after the earlier ones, keeps the flushed prefix in increasing address order |
| HamtNodes.FlushedChildrenOrdered | lib/core/hamt_map_types.cpp:334-340 | after a depth-first flush the children are store words below the parent's address and all different, as validate_after_load requires |
| HamtNodes.MakeWritable | lib/core/hamt_map_types.cpp:297-310 | a heap node is returned as it is; a store node gets a fresh heap copy with the same bitmap and children |
| HamtNodes.ValidateAfterLoad | lib/core/hamt_map_types.cpp:346-368 | true exactly when the signature is right and every child is a store word below the node's address differing from every later child |
| HamtNodes.ReadNode | lib/core/hamt_map_types.cpp:372-398 | index_corrupt exactly when the bitmap is zero or validation fails, otherwise the stored node |
| HamtNodes.GetNode | lib/core/hamt_map_types.cpp:402-413 | a heap node is returned as it is; a store node goes through read_node at the address with bit 0 cleared |
| Store.AlignUp | lib/mcrepo/bss_section.cpp:66-69 | the least multiple of the alignment that is not below the address |
| Store.AlignUpIsLeast | lib/mcrepo/bss_section.cpp:66-69 | no multiple of the alignment lies between the address and its aligned value |
| Store.Transaction.constructor | lib/core/hamt_map_types.cpp:185 | a transaction starts with no records, appending at the end of the file so far |
| Store.Transaction.AllocRw | lib/core/hamt_map_types.cpp:185 | the allocation starts at the aligned end of the file, past every earlier record, and the end moves past it |
| Diff.Then | include/pstore/diff/diff.hpp:145-150 | visiting one child after another reports both lists in order, and the first error ends the traversal |
| Diff.ReadChildren | include/pstore/diff/diff.hpp:127-131 | a node is read as an internal node while shifts is an internal depth and as a linear node after that, and each child it yields lies lower in the traversal |
| Diff.DiffReport | include/pstore/diff/diff.hpp:156-165 | nothing for the head revision or a revision later than the current one; otherwise every reported address is a leaf at or above the end of the older revision's footer |
| Diff.ReportsNewLeaves | include/pstore/diff/diff.hpp:117-132 | everything visit_node reports is a leaf address that is_new accepts |
| Diff.ChildrenReportNewLeaves | include/pstore/diff/diff.hpp:145-150 | everything reported while visiting a node's children is a new leaf |
| Diff.OldNodeReportsNothing | include/pstore/diff/diff.hpp:145-150 | an intermediate node that is not new contributes no leaves |
| Diff.NewOnly | include/pstore/diff/diff.hpp:94-97 | keeps exactly the addresses of the list that is_new accepts |
| Diff.NewOnlyAppend | include/pstore/diff/diff.hpp:94-97 | filtering a concatenation is concatenating the filtered parts |
| Diff.NewOnlyOfOld | include/pstore/diff/diff.hpp:94-97 | store addresses all below the threshold leave nothing |
| Diff.LeavesLieBelow | include/pstore/diff/diff.hpp:139-151 | on an append-only store every leaf reported under a node is a store address below that node |
| Diff.ChildrenLieBelow | include/pstore/diff/diff.hpp:145-150 | the leaves reported under children below an address all lie below it |
| Diff.PruningKeepsEveryNewLeaf | include/pstore/diff/diff.hpp:145-150 | skipping the children of old nodes loses nothing: the pruned traversal reports exactly the new leaves of the full traversal, in order |
| Diff.PruningKeepsChildren | include/pstore/diff/diff.hpp:145-150 | the same for a node's children visited in slot order |
| Diff.FirstErrorStops | include/pstore/diff/diff.hpp:145-150 | an error raised among the first children is the outcome of visiting all of them |
| Diff.AddressList.constructor | include/pstore/diff/diff.hpp:125 | the result list starts empty |
| Diff.AddressList.PushBack | include/pstore/diff/diff.hpp:125 | push_back appends the address to the result |
| Diff.Traverser.constructor | include/pstore/diff/diff.hpp:72-75 | the traverser keeps the store and the threshold |
| Diff.Traverser.Run | include/pstore/diff/diff.hpp:106-113 | the result is the traversal's outcome: empty for a null root, otherwise the root visited at depth 0 |
| Diff.Traverser.VisitNode | include/pstore/diff/diff.hpp:117-132 | a new leaf is appended, an old leaf is skipped, an intermediate node is visited; the appended list or error is the specified one |
| Diff.Traverser.VisitIntermediate | include/pstore/diff/diff.hpp:136-151 | reads the node, raising its read error, then visits its children |
| Diff.Traverser.GetChildren | include/pstore/diff/diff.hpp:142-144 | the node's children as read_node or linear get_node gives them, or the error those raise |
| Diff.Traverser.VisitChildren | include/pstore/diff/diff.hpp:145-150 | each child is visited in slot order while the node is new; the appended addresses are the specified report, and the first error stops the loop |
| Diff.RunDiff | include/pstore/diff/diff.hpp:156-165 | the revision guard, then a traversal against the end of the older footer, agreeing with DiffReport |
| Fragment.RecordAlign | include/pstore/mcrepo/fragment.hpp:437 | each section's record is aligned on a 1-, 2-, 4- or 8-byte boundary |
| Fragment.Layout | include/pstore/mcrepo/fragment.hpp:540-546 | the running size never falls below the header |
| Fragment.LayoutAppend | include/pstore/mcrepo/fragment.hpp:543-546 | one more section pads the running size to its boundary and adds its size, so the size never shrinks |
| Fragment.LayoutGrows | include/pstore/mcrepo/fragment.hpp:543-546 | the running size is monotone along the sections |
| Fragment.SectionEnd | include/pstore/mcrepo/fragment.hpp:543-546 | a section's start plus its size is the running size after it |
| Fragment.SectionsInOrder | include/pstore/mcrepo/fragment.hpp:434-441 | sections start after the header, each ends before any later one starts, and all end within the fragment size |
| Fragment.SizeBytes | include/pstore/mcrepo/fragment.hpp:529-548 | the loop computes the header plus each section padded to its boundary and added in turn |
| Fragment.AlignWithinFragment | include/pstore/mcrepo/fragment.hpp:430-437 | in a fragment on an 8-byte boundary, aligning the absolute address aligns the offset from the fragment start |
| Fragment.PlacedAfterEarlier | include/pstore/mcrepo/fragment.hpp:434-441 | every earlier section ends before the section being placed starts |
| Fragment.PlaceSection | include/pstore/mcrepo/fragment.hpp:437-440 | aligning the output pointer lands on the section's planned start, and writing it reaches the running size after it |
| Fragment.Built | include/pstore/mcrepo/fragment.hpp:440 | a section builds one record exactly when its size is not zero |
| Fragment.WriteSection | include/pstore/mcrepo/fragment.hpp:440 | write returns the pointer past the section's size and builds the record its dispatcher describes |
| Fragment.Fragment.constructor | include/pstore/mcrepo/fragment.hpp:290-291 | a fragment starts with an empty sparse array and no records |
| Fragment.Fragment.Atp | include/pstore/mcrepo/fragment.hpp:378-380 | nothing when the fragment has no section of the kind, otherwise the offset at() gives |
| Fragment.Fragment.Populate | include/pstore/mcrepo/fragment.hpp:423-450 | the output pointer ends exactly size_bytes past the fragment start, the sparse array has one entry per kind holding where the last section of that kind was placed, and each section's record sits at its start |
| Fragment.Alloc | include/pstore/mcrepo/fragment.hpp:454-468 | exactly size_bytes bytes are allocated on an 8-byte boundary after everything earlier, and the fragment is populated there |
| Fragment.LoadImpl | include/pstore/mcrepo/fragment.hpp:473-484 | bad_fragment_record exactly when the extent is smaller than the header or the fragment does not appear valid, otherwise the fragment read |
| Httpd.Clamp | lib/httpd/http_date.cpp:69-70 | the table index never leaves the table: in-range values are kept, negative ones become 0 and large ones the last index |
| Httpd.SetW | lib/httpd/http_date.cpp:99-102 | setw with fill '0' pads on the left to the width and never cuts: the text ends with the original digits |
| Httpd.DayName | lib/httpd/http_date.cpp:67-70 | a three-letter name from the day table |
| Httpd.MonthName | lib/httpd/http_date.cpp:84-86 | a three-letter name from the month table |
| Httpd.HttpDate | lib/httpd/http_date.cpp:57-104 | at least 29 characters, starting with a day name and ", " and ending with " GMT" |
| Httpd.PaddedFieldRoundTrip | lib/httpd/http_date.cpp:99-102 | a field printed with setw(w) is exactly w wide when it has at most w digits, and reads back as its value |
| Httpd.Date1Layout | lib/httpd/http_date.cpp:95-100 | date1 is day SP month SP year: 11 characters whose day and year columns read back as the fields |
| Httpd.TimeOfDayLayout | lib/httpd/http_date.cpp:88-92 | time-of-day is three two-digit fields separated by colons that read back as hour, minute and second |
| Httpd.FixdateLayout | lib/httpd/http_date.cpp:97-103 | for in-range fields the text is the 29-character IMF-fixdate with the names taken from the tables and every numeric field readable back from its fixed columns |
| ValueParser.SkipSpaces | include/pstore/cmd_util/parser.hpp:112 | strtol's leading white space: every skipped character is a space and the stop is not |
| ValueParser.SkipSign | include/pstore/cmd_util/parser.hpp:112 | one character is skipped exactly when it is a '+' or '-' |
| ValueParser.DigitRun | include/pstore/cmd_util/parser.hpp:112 | the run holds only digits and stops at a non-digit or the end |
| ValueParser.FindLiteral | include/pstore/cmd_util/parser.hpp:121-122 | the first literal whose name is the text, with no earlier one of that name, or the number of literals |
| ValueParser.StrtolWhole | include/pstore/cmd_util/parser.hpp:109-117 | strtol consumes the whole non-empty text exactly when it is white space, an optional sign and digits; it flags ERANGE exactly when the value is outside long, and otherwise reads that value |
| ValueParser.Parse | include/pstore/cmd_util/parser.hpp:102-127 | without literals: a value exactly when the whole text is an integer within int, and that value; with literals: a value exactly when some literal has the text as its name, the first such literal's value |
| ValueParser.ParseRoundTrip | include/pstore/cmd_util/parser.hpp:102-119 | every int printed in base 10 parses back to itself |
| ValueParser.ParseLeadingSpace | include/pstore/cmd_util/parser.hpp:112 | leading white space does not change the result |
| ValueParser.TrailingJunk | include/pstore/cmd_util/parser.hpp:113 | a text ending in a non-digit is refused |
| ValueParser.JustAboveIntMax | include/pstore/cmd_util/parser.hpp:114-116 | INT_MAX + 1 is refused |
| ValueParser.LiteralsHideNumbers | include/pstore/cmd_util/parser.hpp:121-125 | with literals, a number that is no literal's name is refused |
| ValueParser.FirstLiteralWins | include/pstore/cmd_util/parser.hpp:121-126 | with literals, the first literal of a name gives the value |
| SieveOutput.LittleRoundTrip | tools/sieve/write_output.hpp:61-65 | the little-endian bytes of a value that fits the width read back, least significant first, as the value |
| SieveOutput.BigRoundTrip | tools/sieve/write_output.hpp:55-59 | the big-endian bytes of a value that fits the width read back, most significant first, as the value |
| SieveOutput.BigIsReversedLittle | tools/sieve/write_output.hpp:76-90 | byte k of the big-endian form is byte w-1-k of the little-endian form, the value's byte w-1-k |
| SieveOutput.Write16Big | tools/sieve/write_output.hpp:55-59 | the two bytes at out become the big-endian form of v, nothing else changes, and out + 2 is returned |
| SieveOutput.Write16Little | tools/sieve/write_output.hpp:61-65 | the two bytes at out become the little-endian form of v, nothing else changes, and out + 2 is returned |
| SieveOutput.Write32Big | tools/sieve/write_output.hpp:76-82 | the four bytes at out become the big-endian form of v, nothing else changes, and out + 4 is returned |
| SieveOutput.Write32Little | tools/sieve/write_output.hpp:84-90 | the four bytes at out become the little-endian form of v, nothing else changes, and out + 4 is returned |
| SieveOutput.LittleEndian64 | tools/sieve/write_output.hpp:115-125 | the eight little-endian bytes are the shifts by 0, 8, ..., 56 bits masked to a byte |
| SieveOutput.BigEndian64 | tools/sieve/write_output.hpp:103-113 | the eight big-endian bytes are the shifts by 56, 48, ..., 0 bits masked to a byte |
| SieveOutput.Write64Big | tools/sieve/write_output.hpp:103-113 | the eight bytes at out become the big-endian form of v, nothing else changes, and out + 8 is returned |
| SieveOutput.Write64Little | tools/sieve/write_output.hpp:115-125 | the eight bytes at out become the little-endian form of v, nothing else changes, and out + 8 is returned |
| SieveOutput.Write | tools/sieve/write_output.hpp:51-52 | the specialisation for the width and byte order writes the value's encoding at out and returns the position after it |
| SieveOutput.ValueSlot | tools/sieve/write_output.hpp:144-157 | value i of the output occupies bytes i·w to i·w + w, in its encoding |
| SieveOutput.WriteOutput | tools/sieve/write_output.hpp:140-163 | the buffer has count·sizeof bytes and holds each value's encoding in turn |
| HttpHeaders.Equal | lib/http/headers.cpp:166-170 | two records are equal exactly when they are the same record |
| HttpHeaders.LowerCase | lib/http/headers.cpp:68-70 | the result has the same length and each character is tolower of the original |
| HttpHeaders.CaseInsensitiveEqual | lib/http/headers.cpp:59-85 | true exactly when the lengths agree and every pair of characters agrees after tolower |
| HttpHeaders.CaseInsensitiveIsLowerCase | lib/http/headers.cpp:59-85 | two texts are equal ignoring case exactly when their lower-case forms are equal |
| HttpHeaders.CaseInsensitiveSymmetric | lib/http/headers.cpp:59-85 | the comparison does not depend on the order of its arguments |
| HttpHeaders.FindFrom | lib/http/headers.cpp:92 | std::find returns an index no earlier than first, holding the separator unless it is the end |
| HttpHeaders.FindFromFirst | lib/http/headers.cpp:92 | no separator lies between first and the index std::find returns |
| HttpHeaders.SplitJoin | lib/http/headers.cpp:88-101 | joining the pieces with the separator gives back the text |
| HttpHeaders.SplitSeparatorFree | lib/http/headers.cpp:91-99 | no piece contains the separator |
| HttpHeaders.SplitCount | lib/http/headers.cpp:91-99 | there is exactly one more piece than there are separators, so the empty text gives one empty piece |
| HttpHeaders.SplitUnique | lib/http/headers.cpp:88-101 | any separator-free pieces that join to the text are the pieces split produces |
| HttpHeaders.SplitConcat | lib/http/headers.cpp:88-101 | splitting a, sep, b gives the pieces of a followed by those of b |
| HttpHeaders.Split | lib/http/headers.cpp:88-101 | the loop emits exactly the specified pieces, in order |
| HttpHeaders.Trimmed | lib/http/headers.cpp:126-130 | the bounds enclose the text with leading and trailing white space removed: everything outside is space, and the first and last characters inside are not |
| HttpHeaders.TrimPadding | lib/http/headers.cpp:126-130 | trimming white space around a word that neither starts nor ends with white space gives the word |
| HttpHeaders.TrimBlank | lib/http/headers.cpp:126-130 | a text of white space only trims to nothing |
| HttpHeaders.TrimWord | lib/http/headers.cpp:126-130 | trimming keeps exactly the word between the white space around it |
| HttpHeaders.Upgrade | lib/http/headers.cpp:111-116 | upgrade_to_websocket is set when the value is "websocket" in any case, and nothing else changes |
| HttpHeaders.UpgradeTokenTest | lib/http/headers.cpp:125-134 | the comparison in the loop accepts a token exactly when its trimmed text is "upgrade" ignoring case |
| HttpHeaders.Connection | lib/http/headers.cpp:119-138 | connection_upgrade is set when some comma-separated token, trimmed, is "upgrade" in any case, and nothing else changes |
| HttpHeaders.SingleToken | lib/http/headers.cpp:119-138 | a value of one token padded with white space asks for the upgrade exactly when the token is "upgrade" ignoring case |
| HttpHeaders.ConnectionTokens | lib/http/headers.cpp:122-135 | a, b asks for the upgrade exactly when a or b does |
| HttpHeaders.SecWebsocketKey | lib/http/headers.cpp:140-143 | the key is kept exactly as sent and nothing else changes |
| HttpHeaders.VersionValue | lib/http/headers.cpp:145-158 | an accepted version never exceeds the largest value the guard lets through, so the unsigned accumulator never wraps |
| HttpHeaders.StrToNum | lib/http/headers.cpp:146-158 | the loop reads the value exactly when the text is all digits up to the guard's limit, and gives nothing otherwise |
| HttpHeaders.SecWebsocketVersion | lib/http/headers.cpp:145-162 | websocket_version becomes the version the value stands for, or nothing, and nothing else changes |
| HttpHeaders.VersionRoundTrip | lib/http/headers.cpp:146-158 | every number up to the limit, written in base 10, reads back as itself |
| HttpHeaders.VersionLeadingZeros | lib/http/headers.cpp:146-158 | a leading zero does not change the version read |
| HttpHeaders.Handler | lib/http/headers.cpp:172-184 | each of the four exact lower-case keys applies its own update, and any other key leaves the record unchanged |
| JsonMatchers.KeywordText | include/pstore/json/json.hpp:1399-1413 | the keyword texts are four or five characters long |
| JsonMatchers.Fail | include/pstore/json/json.hpp:284-289 | set_error finishes the matcher with the error, consuming the character and reporting nothing |
| JsonMatchers.Continue | include/pstore/json/json.hpp:357-384 | a plain step consumes the character and moves the matcher on, with no error, push or report |
| JsonMatchers.TokenConsume | include/pstore/json/json.hpp:355-385 | an error always finishes the token matcher |
| JsonMatchers.AccumulateAsWritten | include/pstore/json/json.hpp:686-690 | the digit step as written never leaves a value above ULONG_MAX, because the product wraps |
| JsonMatchers.Accumulate | include/pstore/json/json.hpp:686-690 | the intended digit step: a value exactly when acc·10 + d fits in ULONG_MAX, and then that value |
| JsonMatchers.AccumulateAsWrittenWraps | include/pstore/json/json.hpp:686-690 | on the digits 18446744073709551620 the step as written gives 4 where the intended guard reports out of range |
| JsonMatchers.ConsumeAsWritten | include/pstore/json/json.hpp:673-694 | the matchers with the integer digit step as the source writes it: an error finishes the matcher |
| JsonMatchers.IntegerDigitsAsWritten | include/pstore/json/json.hpp:673-694 | with the digit guard as written, the digits of a number up to ULONG_MAX still accumulate into its value |
| JsonMatchers.NumberAsWrittenWraps | include/pstore/json/json.hpp:686-690 | the number matcher as written completes the text 18446744073709551620, then the end of the input, as the integer 4; the intended one reports number_out_of_range on it |
| JsonMatchers.WrappingDigitAsWritten | include/pstore/json/json.hpp:686-690 | as written, the digit 0 after an accumulator of 1844674407370955162 leaves 4 and the matcher carries on |
| JsonMatchers.MakeInteger | include/pstore/json/json.hpp:745-765 | a value exactly when the magnitude is at most LONG_MAX, or at most LONG_MIN's magnitude for a negative number; the value is the signed magnitude, within long |
| JsonMatchers.Complete | include/pstore/json/json.hpp:621-624 | complete finishes the number matcher, pushing nothing and matching as the caller says |
| JsonMatchers.NumberConsume | include/pstore/json/json.hpp:702-736 | an error always finishes the number matcher |
| JsonMatchers.CombineSurrogates | include/pstore/json/json.hpp:873-879 | a surrogate pair encodes a supplementary code point, 0x10000 to 0x10FFFF |
| JsonMatchers.HexDigit | include/pstore/json/json.hpp:927-940 | a hexadecimal digit's value is below 16 |
| JsonMatchers.Append16 | include/pstore/json/json.hpp:859-892 | append16 consumes the character and reports nothing, whatever the code unit |
| JsonMatchers.StringConsume | include/pstore/json/json.hpp:1012-1072 | an error always finishes the string matcher |
| JsonMatchers.ArrayConsume | include/pstore/json/json.hpp:1106-1145 | an error always finishes the array matcher |
| JsonMatchers.ArrayErrors | include/pstore/json/json.hpp:1106-1145 | the array matcher fails exactly at the end of the input or on a character other than whitespace, `,` or `]` after a member, and then with expected_array_member |
| JsonMatchers.ObjectConsume | include/pstore/json/json.hpp:1181-1239 | an error always finishes the object matcher |
| JsonMatchers.ObjectErrors | include/pstore/json/json.hpp:1181-1239 | the object matcher fails exactly at the end of the input, after a key on anything but whitespace or `:` (expected_colon), or after a member on anything but whitespace, `,` or `}` (expected_object_member) |
| JsonMatchers.WhitespaceConsume | include/pstore/json/json.hpp:1267-1303 | the whitespace matcher never fails |
| JsonMatchers.EndOfInputConsume | include/pstore/json/json.hpp:1327-1334 | an error always finishes the end-of-input matcher |
| JsonMatchers.RootConsume | include/pstore/json/json.hpp:1362-1430 | an error always finishes the root matcher |
| JsonMatchers.RootErrors | include/pstore/json/json.hpp:1362-1430 | expected_token at the end of the input or on a character that starts no value; where only a key may appear, expected_string for any other value; otherwise no error, and the matcher for the value is pushed |
| JsonMatchers.Consume | include/pstore/json/json.hpp:262-289 | every matcher is finished by its first error |
| JsonMatchers.FeedWith | include/pstore/json/json.hpp:1551-1582 | a run takes no more than its input, ends in the done state on an error, and wants more input only when it used all of it without finishing |
| JsonMatchers.FeedSnoc | include/pstore/json/json.hpp:1551-1582 | feeding one more character continues where the run stopped |
| JsonMatchers.FeedStops | include/pstore/json/json.hpp:1551-1582 | once a run has stopped, further input changes only what is left over |
| JsonMatchers.KeywordStep | include/pstore/json/json.hpp:359-370 | the expected character moves the token matcher on; any other is unrecognized_token |
| JsonMatchers.KeywordPrefix | include/pstore/json/json.hpp:355-385 | from seen characters the token matcher takes exactly the keyword's next characters, and the first that differs is unrecognized_token |
| JsonMatchers.KeywordEnd | include/pstore/json/json.hpp:371-381 | after the whole keyword the end of input or a non-alphanumeric character reports the keyword's value and is left over; an alphanumeric one is unrecognized_token |
| JsonMatchers.NextIntegerDigit | include/pstore/json/json.hpp:685-690 | one more integer digit is taken into the accumulator when it fits and is out of range otherwise |
| JsonMatchers.IntegerDigits | include/pstore/json/json.hpp:654-696 | the digits of an integer without a leading zero accumulate into its value, and the first digit taking it past ULONG_MAX is number_out_of_range |
| JsonMatchers.IntegerPart | include/pstore/json/json.hpp:531-545 | an optional minus sign leads to the integer digits with the sign recorded |
| JsonMatchers.ZeroInteger | include/pstore/json/json.hpp:658-659 | a zero, signed or not, takes the matcher to the state after a leading zero |
| JsonMatchers.IntegerEnd | include/pstore/json/json.hpp:691-694 | a character that cannot continue the number, or the end of input, completes the integer with its value |
| JsonMatchers.IntegerLiteral | include/pstore/json/json.hpp:654-765 | a decimal integer literal is reported as its value when it lies within long and is number_out_of_range otherwise, and the ending character is left over |
| JsonMatchers.IntegerRoundTrip | include/pstore/json/json.hpp:654-765 | every long printed in base 10 reads back as the same integer |
| JsonMatchers.LeadingZero | include/pstore/json/json.hpp:550-570 | a digit after a leading zero is number_out_of_range |
| JsonMatchers.MinusNeedsDigit | include/pstore/json/json.hpp:531-545 | a minus sign followed by a non-digit is unrecognized_token, and followed by the end of input expected_digits |
| JsonMatchers.NumberAtEnd | include/pstore/json/json.hpp:728-734 | at the end of input a number completes, and lacks digits exactly when it is not in a terminal state |
| JsonMatchers.PlainCharacters | include/pstore/json/json.hpp:896-923 | characters that need no escape are appended as they are |
| JsonMatchers.PlainString | include/pstore/json/json.hpp:1012-1072 | a quoted run of plain characters is reported as one string value, both quotes consumed |
| JsonMatchers.ClosingQuote | include/pstore/json/json.hpp:903-910 | the closing quote reports the text read so far and finishes the matcher |
| JsonMatchers.StringErrors | include/pstore/json/json.hpp:1012-1029 | the end of input inside a string is expected_close_quote, an unescaped control character is bad_unicode_code_point, and the opening state accepts only a quote |
| JsonMatchers.EscapeSequence | include/pstore/json/json.hpp:973-1008 | each single-character escape appends the character it names and any other character but u is invalid_escape_char |
| JsonMatchers.HexValue | include/pstore/json/json.hpp:927-940 | a run of k hex digits is worth less than 16^k |
| JsonMatchers.UnicodeEscape | include/pstore/json/json.hpp:1044-1066 | four hexadecimal digits after \u form one UTF-16 code unit handed to append16 |
| JsonMatchers.HexDigitStep | include/pstore/json/json.hpp:944-969 | a hex digit extends the value, the first starting afresh, and anything else is invalid_hex_char |
| JsonMatchers.UnicodeEscapeStart | include/pstore/json/json.hpp:987 | a backslash and u start the four hex digits |
| JsonMatchers.SurrogatePair | include/pstore/json/json.hpp:861-881 | a high surrogate waits for its low half, and the pair appends the code point it encodes |
| JsonMatchers.LoneSurrogate | include/pstore/json/json.hpp:861-920 | a surrogate out of turn is bad_unicode_code_point: a low one first, a high one followed by anything but a low one, or by a plain character or the closing quote |
| JsonMatchers.SurrogateRoundTrip | include/pstore/json/json.hpp:873-879 | the surrogate pair of a supplementary code point combines back into it |
| JsonMatchers.Feed | include/pstore/json/json.hpp:1551-1582 | a run of the real matchers wants more input only when it used all of it, without error and without finishing |
| JsonMatchers.FeedFails | include/pstore/json/json.hpp:1551-1582 | a character on which the matcher fails ends the run with that error |
| JsonMatchers.FirstIntegerDigit | include/pstore/json/json.hpp:660-663 | a first digit from 1 to 9 starts the accumulator at its value |
| JsonMatchers.ZeroLiteral | include/pstore/json/json.hpp:654-765 | a lone zero, signed or not, reads as the integer zero when the next character cannot continue the number |
| JsonMatchers.NonZeroLiteral | include/pstore/json/json.hpp:654-765 | digits without a leading zero read as their signed value when it lies within long, and as number_out_of_range otherwise |
| JsonMatchers.HexValueSnoc | include/pstore/json/json.hpp:927-940 | each hex digit multiplies the value so far by sixteen and adds its own |
| JsonMatchers.NextHexStep | include/pstore/json/json.hpp:1044-1054 | each of the first three digits after \u extends the value read so far |
| JsonMatchers.HexSteps | include/pstore/json/json.hpp:1044-1054 | the first three digits after \u leave the value of the three in the matcher |
| JsonMatchers.FourthHexStep | include/pstore/json/json.hpp:1054-1065 | the fourth digit hands the value of all four to append16 |
| JsonParser.Turn | include/pstore/json/json.hpp:1551-1582 | a turn keeps the end-of-input matcher at the bottom and the stack within one matcher above the depth limit, adds the step's callbacks to the log, and moves on only from a turn without error |
| JsonParser.Advance | include/pstore/json/json.hpp:1552-1554 | the top matcher consuming a character leaves the parser ready for more input |
| JsonParser.InputRun | include/pstore/json/json.hpp:1542-1583 | input after an error changes nothing, and the parser stays ready |
| JsonParser.InputStep | include/pstore/json/json.hpp:1551-1582 | each turn either moves on to the next character, records an error, or hands the same character to a matcher with less left to do, so the loop ends |
| JsonParser.InputChunks | include/pstore/json/json.hpp:1542-1583 | input given in two chunks is parsed as the same input given at once |
| JsonParser.ChunkTurn | include/pstore/json/json.hpp:1551-1582 | the first turn is the same whether or not more input follows |
| JsonParser.ErrorIsSticky | include/pstore/json/json.hpp:1548-1550 | once an error is recorded, further input leaves the parser as it was |
| JsonParser.PlainTurn | include/pstore/json/json.hpp:1551-1582 | a step that neither finishes, fails, pushes nor reports replaces the top matcher and moves the coordinate |
| JsonParser.CarriageReturnTurn | include/pstore/json/json.hpp:180-195 | a carriage return read as whitespace starts a new row at column 1 |
| JsonParser.LineFeedTurn | include/pstore/json/json.hpp:180-195 | a line feed read as whitespace starts a new row unless it follows a carriage return; the column is 1 |
| JsonParser.LineFeed | include/pstore/json/json.hpp:180-195 | a line feed, or a carriage return and line feed, ends exactly one row |
| JsonParser.CarriageReturn | include/pstore/json/json.hpp:180-195 | a lone carriage return ends a row too |
| JsonParser.SpacesAndTabs | include/pstore/json/json.hpp:1573-1578 | spaces and tabs keep the row and add one column each |
| JsonParser.ExtraInput | include/pstore/json/json.hpp:1325-1334 | once the value and the whitespace after it are read, any other character is unexpected_extra_input |
| JsonParser.NestingTooDeepAtLimit | include/pstore/json/json.hpp:1562-1569 | a push onto a stack of 201 matchers is refused with nesting_too_deep |
| JsonParser.PushBeyondLimit | include/pstore/json/json.hpp:1553-1569 | a matcher asking for another gets nesting_too_deep exactly when the stack, after popping a finished top, still holds more than 200 matchers |
| JsonParser.FailingTurn | include/pstore/json/json.hpp:1553-1557 | a failing step ends the input with the top matcher done and its error recorded, nothing else changed |
| JsonParser.ArrayNeedsSeparator | include/pstore/json/json.hpp:1133-1140 | after an array member, a character other than whitespace, `,` or `]` is expected_array_member |
| JsonParser.ObjectNeedsSeparator | include/pstore/json/json.hpp:1224-1234 | after an object member, a character other than whitespace, `,` or `}` is expected_object_member |
| JsonParser.KeyNeedsColon | include/pstore/json/json.hpp:1208-1217 | after a key, a character other than whitespace or `:` is expected_colon |
| JsonParser.KeyMustBeString | include/pstore/json/json.hpp:1373-1424 | a key that is not a string is expected_string, or expected_token when the character starts no value at all |
| JsonParser.EofRun | include/pstore/json/json.hpp:1589-1599 | at the end of input every matcher on the stack is popped unless one of them records an error, which stops the loop |
| JsonParser.TurnNesting | include/pstore/json/json.hpp:1551-1582 | a turn keeps the begin and end callbacks in step with the arrays and objects open on the stack |
| JsonParser.InputNesting | include/pstore/json/json.hpp:1542-1583 | input keeps the callbacks in step with the open arrays and objects |
| JsonParser.EofStepDone | include/pstore/json/json.hpp:1589-1599 | a matcher that accepts the end of the input is done with it, pushes nothing and leaves no array or object open |
| JsonParser.EofNesting | include/pstore/json/json.hpp:1589-1599 | an end of input without error leaves no array or object open in the callbacks |
| JsonParser.CallbacksPaired | include/pstore/json/json.hpp:1542-1599 | a document read without error reports its begin and end callbacks in matching, properly nested pairs |
| JsonParser.Parser.constructor | include/pstore/json/json.hpp:1474-1488 | the new parser holds end of input, trailing whitespace and the root matcher, with no error, at row 1, column 1 |
| JsonParser.Parser.HasError | include/pstore/json/json.hpp:164 | has_error exactly when an error is recorded |
| JsonParser.Parser.Input | include/pstore/json/json.hpp:1542-1583 | input leaves the parser in the state the input run reaches |
| JsonParser.Parser.TakeTurn | include/pstore/json/json.hpp:1551-1582 | the loop body takes exactly the turn the top matcher's step calls for |
| JsonParser.Parser.ApplyStep | include/pstore/json/json.hpp:1555-1581 | after a step the matcher is popped when done, the one asked for is pushed within the depth limit, and the coordinate moves |
| JsonParser.Parser.Eof | include/pstore/json/json.hpp:1589-1599 | eof leaves the state the end-of-input run reaches and returns the callbacks' result exactly when no error was recorded |
| CommandLine.Stick | include/pstore/cmd_util/command_line.hpp:181-186 | an assignment is ignored once the value equals StickTo, and taken otherwise |
| CommandLine.StuckForGood | include/pstore/cmd_util/command_line.hpp:165-193 | once a sticky bool holds StickTo, no run of assignments changes it |
| CommandLine.StickyFalseIsConjunction | include/pstore/cmd_util/command_line.hpp:165-193 | a sticky_bool<false> that starts true ends true exactly when every assignment was true |
| CommandLine.StickyBool.constructor | include/pstore/cmd_util/command_line.hpp:172-173 | the new sticky bool holds the value given |
| CommandLine.StickyBool.Assign | include/pstore/cmd_util/command_line.hpp:181-186 | operator= leaves the value as Stick says |
| CommandLine.FindHandler | include/pstore/cmd_util/command_line.hpp:72 | the handler found is the first registered option of that name, and nothing means no option has it |
| CommandLine.Occur | include/pstore/cmd_util/command_line.hpp:224 | add_occurrence counts one more occurrence of that option, and nothing else changes |
| CommandLine.HandlerSetValue | include/pstore/cmd_util/command_line.hpp:152 | one more occurrence of the option; the value is kept, and success reported, exactly when the option accepts it; other options are unchanged |
| CommandLine.RecordValue | include/pstore/cmd_util/command_line.hpp:195-229 | reports are only added, and none when the switch succeeds; a pending option is a registered one |
| CommandLine.SingleDash | include/pstore/cmd_util/command_line.hpp:233-269 | reports are only added, and none when the word succeeds; a pending option is a registered one |
| CommandLine.FindEquals | include/pstore/cmd_util/command_line.hpp:154-163 | the first = at or after the start, or the end of the text |
| CommandLine.OptionAndValue | include/pstore/cmd_util/command_line.hpp:154-163 | the name has no =, and the name with the leading dashes, and with = and the value when one is given, spells the argument |
| CommandLine.OptionStep | include/pstore/cmd_util/command_line.hpp:303-318 | a switch only adds reports, none when it succeeds |
| CommandLine.OptionScan | include/pstore/cmd_util/command_line.hpp:282-319 | the scan stops within the arguments, only adds reports, and succeeds only if it started so and reported nothing |
| CommandLine.PendingValueStep | include/pstore/cmd_util/command_line.hpp:284-289 | an argument that the pending switch waits for becomes its value, and ok sticks at false once the value is refused |
| CommandLine.SwitchStep | include/pstore/cmd_util/command_line.hpp:303-318 | any other argument with a dash is a switch, and ok sticks at false once one fails |
| CommandLine.FinishOptions | include/pstore/cmd_util/command_line.hpp:321-326 | after the loop the options and the stopping point are unchanged |
| CommandLine.ParseOptions | include/pstore/cmd_util/command_line.hpp:273-328 | the first positional argument lies within the arguments and the options keep their number |
| CommandLine.UnknownLongOption | include/pstore/cmd_util/command_line.hpp:303-311 | an unknown or positional --name is reported and the scan fails |
| CommandLine.UnknownShortLetter | include/pstore/cmd_util/command_line.hpp:242-250 | an unknown or positional first letter after a dash is reported, stops the walk with failure and leaves its handler pending |
| CommandLine.UnknownShortOption | include/pstore/cmd_util/command_line.hpp:242-250 | an unknown or positional -x is reported and the scan fails |
| CommandLine.FlagRefusesValue | include/pstore/cmd_util/command_line.hpp:216-222 | a flag given --name=value is reported as taking no value and the scan fails |
| CommandLine.NameWithoutValue | include/pstore/cmd_util/command_line.hpp:154-163 | --name without = is read as the name alone, with no value |
| CommandLine.ValueInNextArgument | include/pstore/cmd_util/command_line.hpp:284-289 | a switch taking a value, given as --name alone, takes the next argument as its value |
| CommandLine.ValueMissingAtEnd | include/pstore/cmd_util/command_line.hpp:321-326 | a switch still waiting for its value when the arguments run out is reported as requiring one and the scan fails |
| CommandLine.DoubleDashEndsSwitches | include/pstore/cmd_util/command_line.hpp:293-296 | a bare -- is consumed and every later argument is positional |
| CommandLine.PositionalEndsSwitches | include/pstore/cmd_util/command_line.hpp:299-301 | the first argument without a dash ends the switches and is left for the positional options |
| CommandLine.FlagWord | include/pstore/cmd_util/command_line.hpp:262-265 | a word of flags such as -abc counts one occurrence per letter, keeps every value and reports nothing |
| CommandLine.ShortOptionValue | include/pstore/cmd_util/command_line.hpp:252-261 | -ovalue gives the rest of the word to o as its value; -o alone waits for the next argument |
| CommandLine.NextPositional | include/pstore/cmd_util/command_line.hpp:340 | the first positional option at or after the start, or the number of options |
| CommandLine.Assignments | include/pstore/cmd_util/command_line.hpp:341-351 | the positional scan keeps the reports and the number of options and uses no more than the arguments |
| CommandLine.PositionalFailureForgotten | include/pstore/cmd_util/command_line.hpp:344-347 | for a numeric option given x then 1, ok as written is true although x was refused |
| CommandLine.AssignmentsStep | include/pstore/cmd_util/command_line.hpp:342-350 | one argument goes to the current positional option, which hands over to the next one once it can take no more |
| CommandLine.PositionalProgressStep | include/pstore/cmd_util/command_line.hpp:341-351 | the loop with ok kept false once an argument is refused stays on its way to the whole scan |
| CommandLine.PositionalOkCons | include/pstore/cmd_util/command_line.hpp:341-351 | every argument accepted exactly when the first is and every later one is |
| CommandLine.PositionalProgressDone | include/pstore/cmd_util/command_line.hpp:341-351 | when the loop ends, ok holds exactly when every argument was accepted |
| CommandLine.SoleListTakesAll | include/pstore/cmd_util/command_line.hpp:341-351 | one positional option that takes any number of arguments gets all of them, and no other option changes |
| CommandLine.SingleHandsOver | include/pstore/cmd_util/command_line.hpp:348-350 | an option that can take only one positional argument hands the next to the following positional option |
| CommandLine.MissingNamed | include/pstore/cmd_util/command_line.hpp:86-105 | the reports on missing options are all must-be-specified reports |
| CommandLine.NothingMissing | include/pstore/cmd_util/command_line.hpp:83-115 | nothing is reported missing exactly when every option that must appear has appeared |
| CommandLine.CommandLineRun | include/pstore/cmd_util/command_line.hpp:355-372 | a run keeps the number of options and only adds reports |
| CommandLine.RunOkIsQuiet | include/pstore/cmd_util/command_line.hpp:355-372 | a run that succeeds reports nothing and leaves every option that must appear with an occurrence |
| CommandLine.Scanner.constructor | include/pstore/cmd_util/command_line.hpp:86 | the scanner holds the registered options and an empty error stream |
| CommandLine.Scanner.AddOccurrence | include/pstore/cmd_util/command_line.hpp:224 | add_occurrence counts one occurrence and succeeds |
| CommandLine.Scanner.SetValue | include/pstore/cmd_util/command_line.hpp:152 | handler_set_value changes the options as HandlerSetValue does |
| CommandLine.Scanner.RecordValueIfAvailable | include/pstore/cmd_util/command_line.hpp:195-229 | the options, reports, pending option and ok are those RecordValue gives |
| CommandLine.Scanner.ProcessSingleDash | include/pstore/cmd_util/command_line.hpp:233-269 | the loop that erases the letters leaves the state SingleDash gives |
| CommandLine.Scanner.ReadSwitch | include/pstore/cmd_util/command_line.hpp:303-318 | one switch leaves the state OptionStep gives |
| CommandLine.Scanner.ParseOptionArguments | include/pstore/cmd_util/command_line.hpp:273-328 | the loop over the arguments leaves the state, stopping point and ok that ParseOptions gives |
| CommandLine.Scanner.TakePositional | include/pstore/cmd_util/command_line.hpp:342-350 | one positional argument: its option takes it and the next positional option is chosen once it is full |
| CommandLine.Scanner.ParsePositionalArguments | include/pstore/cmd_util/command_line.hpp:330-353 | the arguments go to the positional options in order, and ok holds exactly when every one was accepted |
| CommandLine.Scanner.ParseCommandLine | include/pstore/cmd_util/command_line.hpp:355-372 | the whole run leaves the state and ok that CommandLineRun gives |
| CommandLine.Scanner.CheckForMissing | include/pstore/cmd_util/command_line.hpp:77-116 | each missing named option is reported by name, missing positional ones by their count, and ok holds exactly when nothing that must appear is missing |

## Left out

- Memory-mapped store: The memory-mapped regions behind the store, and the C++ memory mechanics, are not modelled: placement new, `unique_ptr`/`shared_ptr`, the deleter and the max-capacity heap allocation of internal nodes. Heap nodes are Dafny objects, and the store is a map from address to stored image.
- header_block: The index header record (signature, size, root) is not modelled. The trie-level insert and lookup driver (`hamt_map.hpp`) and the hash-chunk extraction are not part of this model either.
- Word width: Words and bitmaps are unbounded naturals handled bit by bit. Callers keep them below 2^64, and no trie operation wraps.
- HamtNodes.LinearNode.Lookup: The key stored at a leaf address is read through a parameter `keyAt`, because the serializer that reads it is not part of this model.
- Diff.RunDiff: It requires that linear nodes hold only leaves, so that the traversal terminates. A missing address is reported as `BadAddress`; the range check that `getro` makes is not shown. The footer position of a revision and the footer's size are parameters. Heap-resident nodes count as new but are not traversed.
- Dependents.Write: `dependents_section.hpp` is not part of this model. The record is taken to be an 8-byte count followed by 8-byte member addresses.
- Fragment.SizeBytes: The size of the sparse array's storage is a parameter (`arrBytes`), because `sparse_array` is not part of this model.
- Fragment.LoadImpl: Reading the fragment from the store and the `fragment_appears_valid` test are parameters.
- Other section kinds: They are one `OtherCreator` with an alignment and a size. Their own dispatchers are not part of this model.
- BSS dispatcher: Of `bss_section_dispatcher` only the alignment and size are modelled. The empty `ifixups`/`xfixups` containers and the payload pointer are not.
- Floating-point numbers: The JSON floating-point path (`fp_acc_`, `std::pow`, infinity and NaN checks) is not modelled. A number with a fraction or an exponent is reported as a `FloatValue` event that carries no value.
- UTF-8 input: The JSON parser takes code points, not UTF-8 bytes. The UTF-8 decoder, `code_point_to_utf8` and the continuation-byte test that keeps the column count are not part of this model.
- JsonMatchers.MakeInteger: `unsigned long` and `long` are taken to be 64 bits wide.
- JsonMatchers.NumberConsume: the number matcher, and with it `Consume`, `Feed`, `JsonParser.InputRun` and `JsonParser.Parser.Input`, uses the intended digit guard `Accumulate`; the guard as written lives in `ConsumeAsWritten`, whose divergence is shown under "## Findings".
- CommandLine.Scanner.ParsePositionalArguments: this method, `Scanner.ParseCommandLine` and `CommandLineRun` use the intended `PositionalOk`, which fails when any argument is refused; the `ok` as written, which keeps only the last argument's result, lives only in `PositionalOkAsWritten` and `PositionalFailureForgotten`, as shown under "## Findings".
- JSON callbacks: They are modelled by the log of events they receive. `result()` is that log.
- Error messages: The text written to the error stream is not modelled; each message is a report datatype.
- CommandLine.FindHandler: `command_line.cpp` and `option.cpp` are not part of this model, so the helpers they define are given the following semantics:
  - `find_handler` returns the first registered option of that name.
  - `add_occurrence` counts one and succeeds.
  - `handler_set_value` counts an occurrence and then sets the value, keeping it only when the option accepts it.
  - `argument_is_positional` holds for an argument that does not start with a dash.
  - `get_option_and_value` strips the two dashes and splits at the first `=`.
- Option registry and help: The registry `option::all()` is the sequence of option records held by the scanner. `lookup_nearest_option`, the help option and `std::exit` are not modelled.
- ValueParser.Parse: `T` is taken to be an integer or enumeration type read as an `int`. The `std::string` specialisation of `parser` is not part of this model.
- HttpHeaders.Trimmed: `pstore::isspace` is taken to be the "C" locale `isspace`.
- Httpd.HttpDate: The conversion of a `time_t` into broken-down fields (`gm_time`) is not modelled; the model starts from the fields.
- SieveOutput.Write: The host-order ("native") writers and the final stream write are not modelled.
- bit_count.hpp: It is not part of this model. `BitCount` and `DecimalDigits` are helper modules with their own definitions.

## Findings

| source | as written | input that shows it | evidently intended | confidence | as-written member | corrected member |
|---|---|---|---|---|---|---|
| include/pstore/json/json.hpp:686-690 | an integer digit is refused only when the accumulator exceeds `ULONG_MAX / 10 + 10`, so accumulators up to 1844674407370955171 are multiplied and the unsigned product wraps | the JSON text `18446744073709551620` is reported as the integer 4 | a digit that would take the accumulator past `ULONG_MAX` is `number_out_of_range` | not executed | JsonMatchers.NumberAsWrittenWraps | JsonMatchers.Accumulate |
| include/pstore/cmd_util/command_line.hpp:344 | `ok = handler->add_occurrence ()` assigns `ok` afresh for every positional argument, so an argument the option refused is forgotten once a later one is accepted | a numeric positional option taking any number of arguments, given `x` then `1`: the scan reports success though `x` was refused | the scan fails when any positional argument is refused | not executed | CommandLine.PositionalFailureForgotten | CommandLine.Scanner.ParsePositionalArguments |

# ImHex pattern drawer, modelled in Dafny

This project models the table view that ImHex uses to show a tree of parsed patterns (`PatternDrawer`). It covers:

- **Visitor dispatch.** `draw` skips hidden nodes. Each of the seventeen `visit` overloads draws its kind:
  - padding draws nothing;
  - strings draw only when non-empty;
  - every other scalar draws one default row;
  - struct, union, bit-field, pointer and array nodes draw a header unless inlined, then their children when their tree node is open.
- **Per-node chunk limit** (`getDisplayEnd`). The limit is created at 50 on first access and raised by 50 when the load-more placeholder is double-clicked.
- **Two-level paging of arrays** (`drawArray`). Entries are grouped in chunks of `ChunkSize` entries. Each chunk becomes one summary row with its index range, byte span and entry count. After the limit, the walk draws one placeholder and stops.
- **Sort comparator** (`sortPatterns`). "Ascending" compares with `>`, as the code does, so ascending lists the largest key first.
- **Cache of the sorted top-level nodes** (`beginPatternTable`). It is rebuilt only when the sort specs are dirty or the cache is empty, and the dirty flag is cleared afterwards.
- **Small arithmetic.** The offset column's end address, the chunk's byte size and the bit-field byte address, all computed in u64 with its wrap-around. The bit positions within a byte are plain integer arithmetic on the promoted 8-bit values.

## Layout

| file | module | what |
|---|---|---|
| `pattern_model.dfy` | `PatternModel` | pattern tree, rows, UI inputs (`Env`), u64 wrap |
| `row_renderer.dfy` | `RowRenderer` | what one row shows: addresses, bit positions, selection highlight, tree-node result |
| `traversal.dfy` | `Traversal` | the dispatch and the chunk walk as functions on a `Frame` (rows drawn + chunk limits), and the frame invariant `Extends` |
| `traversal_properties.dfy` | `TraversalProperties` | what each node kind draws |
| `pagination.dfy` | `Pagination` | how many chunk rows a walk draws, which entries each covers, when the placeholder follows |
| `sort_engine.dfy` | `SortEngine` | the comparator, its strict weak order, a reference sort with sortedness and permutation proofs |
| `drawer.dfy` | `Drawer` | the `PatternDrawer` class: fields for the chunk limits, the sorted cache and the rows drawn, methods with loops proved equal to the `Traversal` functions, and the cache step |

Some UI decisions are inputs in the record `Env`:

- whether a tree node is open;
- whether a placeholder is double-clicked;
- the current selection and the region-overlap test;
- whether the table widget begins;
- the chunk size.

The pattern library's child sort (`Pattern::sort`) is a parameter `childSort`.

Node identity is an `id` in `Info`. The code keys its limit table by node address instead. The pagination results assume that no node below an array reuses the array's id.

Some behaviours of the code may surprise a reader. The model keeps them as the code has them:

- Bit-field and pointer headers always fill the colour cell (`colorShown` is true). Structs, unions and arrays fill it only when sealed.
- A pointer's pointee is visited through `accept`, not `draw`, so a hidden pointee is still drawn (`Traversal.VisitF`).
- Every direction other than "ascending", including "none", compares with `<`.
- Sorting by an unknown column orders nothing. The reference sort then keeps the input order (`SortEngine.UnknownColumnKeepsOrder`). `std::sort` is only required to produce some order of equivalent elements.

## Model

In this table, `pattern_drawer.cpp` stands for `plugins/builtin/source/ui/pattern_drawer.cpp`. "No wrap" means the u64 sum in question stays below 2^64.

| member | source | states |
|---|---|---|
| PatternModel.Wrap | plugins/builtin/source/ui/pattern_drawer.cpp:111-114 | A u64 expression's value after wrap-around is the exact value modulo 2^64. This holds for every expression the drawer evaluates, since each stays within one wrap of the range. |
| PatternModel.Children | plugins/builtin/source/ui/pattern_drawer.cpp:297-355 | The children visited: array entries, struct/union/bit-field members, or the single pointee; none for scalars. |
| RowRenderer.EndAddress | plugins/builtin/source/ui/pattern_drawer.cpp:111-114 | The offset column's second address is the offset when the size is 0. Otherwise it is offset + size - 1 (no wrap). Without wrap it is never below the offset. |
| RowRenderer.IsPatternSelected | plugins/builtin/source/ui/pattern_drawer.cpp:38-44 | False without a selection. Otherwise exactly the overlap of the node's region with the selection. |
| RowRenderer.TreeNodeOpen | plugins/builtin/source/ui/pattern_drawer.cpp:82-92 | A sealed node is never open. Any other node is open exactly when the UI reports its tree node expanded. |
| RowRenderer.DefaultEntry | plugins/builtin/source/ui/pattern_drawer.cpp:145-159 | The scalar row carries the node's id, style, offset and size. Its last address is the offset column's EndAddress, so it is not below the offset (no wrap). It is highlighted exactly when IsPatternSelected holds for the node's range, so never without a selection. |
| RowRenderer.FieldByteAddress | plugins/builtin/source/ui/pattern_drawer.cpp:184 | The byte is offset + bitOffset / 8 (no wrap). It is the offset itself when bitOffset < 8. |
| RowRenderer.FieldPosition | plugins/builtin/source/ui/pattern_drawer.cpp:185-190 | The first bit is bitOffset % 8 and always < 8. The last bit is the first + bitSize - 1. The single-bit form is used exactly when bitSize = 1. |
| RowRenderer.FieldBitCount | plugins/builtin/source/ui/pattern_drawer.cpp:192-195 | The singular "bit" label is used exactly when bitSize = 1. Otherwise the label carries the size. |
| RowRenderer.FieldRow | plugins/builtin/source/ui/pattern_drawer.cpp:173-201 | The bit-field member row has its byte address (no wrap). Its position is FieldPosition and its size label is FieldBitCount, so the single-bit position goes with the singular label and vice versa. It is highlighted exactly when IsPatternSelected holds for the member's range. |
| RowRenderer.HeaderRow | plugins/builtin/source/ui/pattern_drawer.cpp:297-314 | The header row has a toggle exactly when the node is not sealed. It carries the node's offset, size, kind and colour cell. Its last address is EndAddress of the node. It is highlighted exactly when IsPatternSelected holds for the node's range. |
| RowRenderer.ChunkBytes | plugins/builtin/source/ui/pattern_drawer.cpp:429 | A chunk's byte size is (endOffset - startOffset) + endSize when ascending (no wrap). |
| RowRenderer.ChunkRow | plugins/builtin/source/ui/pattern_drawer.cpp:423-445 | The summary of entries [i, e) has first index i, last index e - 1 and count e - i. It starts at the first entry's offset, and its byte size is ChunkBytes. Its last address is first + bytes - 1 modulo 2^64, but first + bytes when the array itself (not the chunk) has size 0. The highlight test uses a region one byte shorter than the chunk, (bytes - 1) modulo 2^64. |
| RowRenderer.ChunkRowSpan | plugins/builtin/source/ui/pattern_drawer.cpp:429-434 | When the entries of a chunk ascend, nothing wraps, and both the array and the chunk's last entry have a positive size, the chunk spans exactly from the first entry's offset to the last byte of its last entry. |
| Traversal.DisplayEndLookup | plugins/builtin/source/ui/pattern_drawer.cpp:465-473 | The first lookup of a node inserts and returns 50. Later lookups return the stored value. No other key changes. |
| Traversal.StepMultipleMeans | plugins/builtin/source/ui/pattern_drawer.cpp:32-33 | A limit reachable from 50 by steps of 50 is exactly a positive multiple of 50. |
| Traversal.DrawExtends | plugins/builtin/source/ui/pattern_drawer.cpp:370-375 | Drawing any node only appends rows, each belonging to that node's subtree and unhighlighted without a selection. Chunk limits only grow. Only the subtree's limits change or appear. A limit differs from before (or from 50) only through its node's double-click. Every limit stays a positive multiple of 50. |
| Traversal.VisitExtends | plugins/builtin/source/ui/pattern_drawer.cpp:165-368 | The same as DrawExtends, for every kind's visit. |
| Traversal.LeafExtends | plugins/builtin/source/ui/pattern_drawer.cpp:230-260 | A childless node appends at most one row, which is its own, and leaves every limit exactly as it was. |
| Traversal.PointerExtends | plugins/builtin/source/ui/pattern_drawer.cpp:262-286 | Drawing a pointer keeps the frame invariant over the pointer and its pointee's subtree. It only appends rows of those nodes, unhighlighted without a selection. Limits only grow, only those nodes' limits change or appear, they change only on a double-click and stay multiples of 50. The header and closing rows are stated by HeaderedComposite. |
| Traversal.MemberNodeExtends | plugins/builtin/source/ui/pattern_drawer.cpp:297-325 | Drawing a struct, union or bit-field keeps the same frame invariant over the node and its members' subtrees. The header and closing rows are stated by HeaderedComposite. |
| Traversal.MembersExtends | plugins/builtin/source/ui/pattern_drawer.cpp:317-320 | Drawing the members in order stays within the members' subtrees. |
| Traversal.ArrayExtends | plugins/builtin/source/ui/pattern_drawer.cpp:377-463 | Drawing an array keeps the same frame invariant over the array and its entries' subtrees. The rows it draws are stated by ArrayPagination. |
| Traversal.WalkExtends | plugins/builtin/source/ui/pattern_drawer.cpp:409-458 | The chunk walk keeps the frame invariant from any entry and chunk count. |
| Traversal.ChunkExtends | plugins/builtin/source/ui/pattern_drawer.cpp:423-456 | Drawing one chunk keeps the same frame invariant over the array and that chunk's entries. Its summary row is stated by ChunkSummaries. |
| Traversal.RangeExtends | plugins/builtin/source/ui/pattern_drawer.cpp:451-453 | Drawing a chunk's entries in order stays within the entries' subtrees. |
| Traversal.LookupExtends | plugins/builtin/source/ui/pattern_drawer.cpp:465-473 | Creating a node's limit keeps the frame invariant. |
| Traversal.PlaceholderExtends | plugins/builtin/source/ui/pattern_drawer.cpp:417-421 | The placeholder row and the +50 on a double-click keep the frame invariant. |
| TraversalProperties.HiddenDrawsNothing | plugins/builtin/source/ui/pattern_drawer.cpp:370-375 | A hidden node leaves the frame unchanged: no row, and no limit of any node below it. |
| TraversalProperties.PaddingDrawsNothing | plugins/builtin/source/ui/pattern_drawer.cpp:257-260 | Padding leaves the frame unchanged. |
| TraversalProperties.EmptyArrayDrawsNothing | plugins/builtin/source/ui/pattern_drawer.cpp:377-379 | An array with no entries leaves the frame unchanged. |
| TraversalProperties.StringRowIffNonEmpty | plugins/builtin/source/ui/pattern_drawer.cpp:292-295 | A visible string or wide string draws exactly one default row if and only if its size is positive, and otherwise nothing. Limits are untouched. |
| TraversalProperties.ScalarDrawsOneRow | plugins/builtin/source/ui/pattern_drawer.cpp:173-255 | A visible scalar appends exactly one row and touches no limit. A bit-field member's row is the bit-field row. Every other scalar's row is the default entry, in enum style for enums. |
| TraversalProperties.ScalarHighlightFollowsSelection | plugins/builtin/source/ui/pattern_drawer.cpp:38-44 | With a selection, a visible scalar's row is highlighted exactly when the node's byte range overlaps the selection. |
| TraversalProperties.HeaderedComposite | plugins/builtin/source/ui/pattern_drawer.cpp:297-325 | A visible, non-inlined composite first draws its header, with a toggle exactly when it is not sealed. When its node is closed the header is all it draws. When open, the drawing ends with the node's closing. |
| TraversalProperties.SealedCompositeDrawsHeaderOnly | plugins/builtin/source/ui/pattern_drawer.cpp:82-92 | A sealed, non-inlined composite draws exactly one row, its toggle-less header. No children and no closing row. |
| TraversalProperties.InlinedCompositeDrawsOnlyChildren | plugins/builtin/source/ui/pattern_drawer.cpp:203-228 | An inlined composite draws no header and always draws its members, pointee or chunk walk. Unless it is an array, no drawn row belongs to it. |
| TraversalProperties.DrawKeepsDisplayEnd | plugins/builtin/source/ui/pattern_drawer.cpp:416-420 | Limits never decrease. Limits outside the subtree are unchanged. Positive multiples of 50 are kept. A limit without a double-click keeps its value or the default. |
| TraversalProperties.NoSelectionNoHighlight | plugins/builtin/source/ui/pattern_drawer.cpp:38-44 | Without a selection no row drawn is highlighted. |
| TraversalProperties.TableKeepsDisplayEnd | plugins/builtin/source/ui/pattern_drawer.cpp:550-560 | Drawing all cached nodes only appends rows of those nodes, unhighlighted without a selection. Limits only grow and stay multiples of 50. |
| Pagination.ChunkCountIsCeiling | plugins/builtin/source/ui/pattern_drawer.cpp:410 | Stepping i by C over N entries makes ceil(N / C) chunks. |
| Pagination.ChunkSpansLength | plugins/builtin/source/ui/pattern_drawer.cpp:410-423 | With a budget of d chunks, min(chunks left, d) ranges are shown. Entries remain exactly when more chunks are left than d. |
| Pagination.ChunkSpansAt | plugins/builtin/source/ui/pattern_drawer.cpp:423 | The k-th chunk covers entries [kC, min(N, kC + C)), so its last index is min(N, kC + C) - 1. |
| Pagination.ChunkRowShows | plugins/builtin/source/ui/pattern_drawer.cpp:423-431 | A chunk row shows exactly its index range. |
| Pagination.ChunkSummaries | plugins/builtin/source/ui/pattern_drawer.cpp:423-456 | One chunk adds exactly one summary row of the array, with its range, and leaves the array's limit alone. |
| Pagination.WalkAtLimit | plugins/builtin/source/ui/pattern_drawer.cpp:414-421 | At the limit with entries left, the walk shows only the placeholder. The limit rises by 50 exactly on a double-click. |
| Pagination.WalkSummaries | plugins/builtin/source/ui/pattern_drawer.cpp:409-458 | From any entry and chunk count below the limit, the walk shows the expected chunk ranges, then the placeholder exactly when entries remain. |
| Pagination.WalkPagination | plugins/builtin/source/ui/pattern_drawer.cpp:409-458 | Let d be the node's limit: its stored value, or 50 the first time. The whole walk shows the first min(ceil(N/C), d) chunk ranges in order. The placeholder follows exactly when ceil(N/C) > d. The limit ends as d, plus 50 exactly when the placeholder was shown and double-clicked. |
| Pagination.ArrayPagination | plugins/builtin/source/ui/pattern_drawer.cpp:377-463 | The same for a visible, open array drawn with its header and closing. |
| Pagination.PaginationOf120 | plugins/builtin/source/ui/pattern_drawer.cpp:410-423 | 120 entries in chunks of 50 make 3 chunks. A limit of 1 shows 0-49 and the placeholder. A limit of 3 shows 0-49, 50-99 and 100-119, and no placeholder. |
| SortEngine.LexLessIrreflexive | plugins/builtin/source/ui/pattern_drawer.cpp:476-480 | No string is less than itself under `std::string`'s order. |
| SortEngine.LexLessTransitive | plugins/builtin/source/ui/pattern_drawer.cpp:476-480 | The string order is transitive. |
| SortEngine.LexLessTotal | plugins/builtin/source/ui/pattern_drawer.cpp:476-480 | Of two different strings one is less than the other. |
| SortEngine.AddressColumnsMeaning | plugins/builtin/source/ui/pattern_drawer.cpp:481-490 | Offset and size: "ascending" yields left > right; any other direction yields left < right. |
| SortEngine.ValueColumnsMeaning | plugins/builtin/source/ui/pattern_drawer.cpp:491-495 | Value (and colour, lines 501-505): "ascending" yields left > right; otherwise left < right. |
| SortEngine.StringColumnsMeaning | plugins/builtin/source/ui/pattern_drawer.cpp:476-500 | Name and type: "ascending" yields left > right in string order; otherwise left < right. |
| SortEngine.UnknownColumnNeverLess | plugins/builtin/source/ui/pattern_drawer.cpp:506-508 | An unknown column yields false for every pair. |
| SortEngine.AscendingReversesDescending | plugins/builtin/source/ui/pattern_drawer.cpp:475-509 | Ascending is descending with the operands swapped. "None" compares like descending. |
| SortEngine.LessIrreflexive | plugins/builtin/source/ui/pattern_drawer.cpp:532-534 | The comparator never orders a node before itself. |
| SortEngine.LessTransitive | plugins/builtin/source/ui/pattern_drawer.cpp:532-534 | The comparator is transitive. |
| SortEngine.LessAsymmetric | plugins/builtin/source/ui/pattern_drawer.cpp:532-534 | The comparator never orders two nodes both ways. |
| SortEngine.NotLessTransitive | plugins/builtin/source/ui/pattern_drawer.cpp:532-534 | Being unordered is transitive, so this is the strict weak order `std::sort` needs. |
| SortEngine.SortByPermutes | plugins/builtin/source/ui/pattern_drawer.cpp:532-534 | The sorted order holds exactly the input nodes, each as often (multiset equality). |
| SortEngine.SortBySorted | plugins/builtin/source/ui/pattern_drawer.cpp:532-534 | In the sorted order no node comes after a node it should precede. |
| SortEngine.UnknownColumnKeepsOrder | plugins/builtin/source/ui/pattern_drawer.cpp:506-508 | Sorting by an unknown column keeps the input order. |
| SortEngine.AscendingOffsetNonIncreasing | plugins/builtin/source/ui/pattern_drawer.cpp:481-485 | Sorted by offset ascending, offsets never increase along the order. |
| SortEngine.DescendingOffsetNonDecreasing | plugins/builtin/source/ui/pattern_drawer.cpp:481-485 | Sorted by offset in any other direction, offsets never decrease. |
| SortEngine.AscendingOffsetExample | plugins/builtin/source/ui/pattern_drawer.cpp:481-485 | Offsets 10, 5, 20 sorted by offset "ascending" come out as 20, 10, 5. |
| Drawer.Resorted | plugins/builtin/source/ui/pattern_drawer.cpp:536-539 | Every cached node is replaced by its child-sorted form, in place and in order. |
| Drawer.CacheClearedWithoutNodes | plugins/builtin/source/ui/pattern_drawer.cpp:523-524 | With no nodes the cache is emptied and the dirty flag is left as it was. |
| Drawer.CacheRebuilt | plugins/builtin/source/ui/pattern_drawer.cpp:526-541 | On a rebuild the flag ends clear and the cache has one entry per node. Those entries are a sorted permutation of the input, each with its children re-sorted. |
| Drawer.CacheKept | plugins/builtin/source/ui/pattern_drawer.cpp:526 | With nodes, a clean flag and a filled cache, the cache and the flag are unchanged. |
| Drawer.CacheSettles | plugins/builtin/source/ui/pattern_drawer.cpp:526-541 | Beginning the table again with the same nodes and specs rebuilds nothing and changes nothing. |
| Drawer.RebuiltCacheSorted | plugins/builtin/source/ui/pattern_drawer.cpp:532-539 | When the child sort keeps each node's own attributes, the rebuilt cache itself is sorted under the comparator. |
| Drawer.PatternDrawer.GetDisplayEnd | plugins/builtin/source/ui/pattern_drawer.cpp:465-473 | Returns and stores the node's limit exactly as DisplayEndLookup: the stored value, or a new 50. Nothing else changes. |
| Drawer.PatternDrawer.Draw | plugins/builtin/source/ui/pattern_drawer.cpp:370-375 | The drawer's rows and limits end as DrawF computes. The cache is untouched. |
| Drawer.PatternDrawer.Visit | plugins/builtin/source/ui/pattern_drawer.cpp:165-368 | The state ends as VisitF computes, for every kind. |
| Drawer.PatternDrawer.DrawMemberNode | plugins/builtin/source/ui/pattern_drawer.cpp:297-325 | The member loop leaves the state MemberNodeF computes. |
| Drawer.PatternDrawer.DrawArray | plugins/builtin/source/ui/pattern_drawer.cpp:377-463 | The state ends as ArrayF computes. |
| Drawer.PatternDrawer.DrawChunks | plugins/builtin/source/ui/pattern_drawer.cpp:409-458 | The counting loop, with its early stop, leaves exactly the state of the chunk walk WalkF. |
| Drawer.PatternDrawer.DrawPlaceholder | plugins/builtin/source/ui/pattern_drawer.cpp:417-421 | Appends the placeholder and raises the limit by 50 exactly on a double-click. |
| Drawer.PatternDrawer.DrawChunk | plugins/builtin/source/ui/pattern_drawer.cpp:423-456 | The entry loop of one chunk leaves the state ChunkF computes. |
| Drawer.PatternDrawer.BeginPatternTable | plugins/builtin/source/ui/pattern_drawer.cpp:511-548 | If the table begins, the cache and the dirty flag become CacheStep of their old values; otherwise they are unchanged. The sort counter rises by one exactly on a rebuild. Rows and limits are untouched. |
| Drawer.PatternDrawer.DrawPatterns | plugins/builtin/source/ui/pattern_drawer.cpp:550-560 | One frame: the cache step, then every cached node drawn in order (DrawAllF), or nothing when the table does not begin. |

## Left out

- Widget drawing and layout are not modelled. This covers text, colours, column setup, table height and flags, `TableHeadersRow`, `EndTable`, `PushID`/`PopID` and the style push/pop around a highlighted name. A row records only the values its columns show, plus a `highlighted` flag.
- The comment tooltip and `makeSelectable` are not modelled. Clicking a row calls `setSelection` on the hex editor, whose state is outside the drawer. The current selection is an input.
- `Region::overlaps` is not part of this model. It is the abstract input `env.overlaps`, so nothing is claimed about empty or adjacent ranges.
- `Pattern::getValue` is an abstract integer key `valueKey`. The library's value type may hold floating-point values. A NaN value would break the strict weak order for the value column, and `std::sort` is then undefined. The model's order lemmas hold because `valueKey` is an integer.
- `Pattern::sort`, `forEachEntry` and `forEachMember` live in the pattern library, which is not part of this model. The iterators are modelled as visiting children in order. The child sort is a parameter `childSort`.
- SortEngine.SortBy: `std::sort`'s algorithm is not modelled. The model produces one particular sorted permutation, the one an insertion sort gives. Every property stated about the cache's order holds for that permutation; the comparator lemmas also hold for any sorted permutation.
- Drawer.PatternDrawer.BeginPatternTable: aliasing is not modelled. In the code the cache holds pointers to shared nodes, and `Pattern::sort` reorders their children in place, so the caller's nodes are re-sorted too. In the model the cache holds re-sorted copies and the input sequence is unchanged.
- The u64 loop counter `i` and `chunkCount` in `drawArray` are unbounded integers. So is `i + ChunkSize` in the chunk's end index. In the code `i += ChunkSize` wraps once `i` reaches 2^64 - ChunkSize, so an array of more than 2^64 - ChunkSize entries would loop differently. The model does not capture that.
- The per-node chunk limits (`m_displayEnd`, u64 in the code) are unbounded naturals. The code's `+= 50` would wrap only after about 3.7 * 10^17 double-clicks.
- A pointer's pointee is always present. The code dereferences `getPointedAtPattern()` without a null test, and `Pointer(info, pointee)` cannot express a missing pointee.
- SortEngine.LexLess compares names and type names character by character as code points. That agrees with `std::string`'s unsigned-byte order only for valid UTF-8 text.
- RowRenderer.FieldPosition: the bit offset and bit size are modelled as 8-bit values. The library's declared widths are not part of this model.
- `ChunkSize` is declared in a header that is not part of this model. It is the positive input `env.chunkSize`.
- Localisation of labels (`_lang`) and the formatting of numbers in columns are not modelled.

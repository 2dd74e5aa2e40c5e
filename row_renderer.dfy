/** The row renderer: what one row of the pattern table shows for a node, with the
    address arithmetic of the offset and size columns and the selection highlight. */
module RowRenderer {
  import opened PatternModel

  /** The second address of the offset column: the node's last byte, or its offset
      when the node is empty. Computed in u64, so it wraps when `offset + size`
      exceeds the address space. */
  function EndAddress(offset: u64, size: u64): (r: u64)
    ensures size == 0 ==> r == offset
    ensures 0 < size && offset + size <= TwoTo64 ==> r == offset + size - 1
    ensures offset + size <= TwoTo64 ==> offset <= r
  {
    Wrap(offset + size - (if size == 0 then 0 else 1))
  }

  /** Whether a byte range is highlighted: never without a selection, otherwise
      exactly when the range overlaps the selection. */
  function IsPatternSelected(env: Env, address: u64, size: u64): (r: bool)
    ensures env.selection.None? ==> !r
    ensures env.selection.Some? ==> (r <==> env.overlaps(Region(address, size), env.selection.value))
  {
    match env.selection
    case None => false
    case Some(selection) => env.overlaps(Region(address, size), selection)
  }

  /** The tree node of a composite: a sealed node gets plain text and is never open;
      any other node is open exactly when the UI reports its node as expanded. */
  function TreeNodeOpen(info: Info, env: Env): (open: bool)
    ensures info.sealed ==> !open
    ensures !info.sealed ==> (open <==> env.treeOpen(NodeOf(info.id)))
  {
    if info.sealed then false else env.treeOpen(NodeOf(info.id))
  }

  /** The row of a scalar node: name, colour, offset range, size, type and value. */
  function DefaultEntry(info: Info, style: EntryStyle, env: Env): (r: Row)
    ensures r.Entry? && r.id == info.id && r.style == style
    ensures r.first == info.offset && r.size == info.size
    ensures r.last == EndAddress(info.offset, info.size)
    ensures info.offset + info.size <= TwoTo64 ==> info.offset <= r.last
    ensures r.highlighted == IsPatternSelected(env, info.offset, info.size)
    ensures env.selection.None? ==> !r.Highlighted()
  {
    Entry(info.id, style, info.offset, EndAddress(info.offset, info.size), info.size,
          IsPatternSelected(env, info.offset, info.size))
  }

  /** The byte a bit-field member starts in. */
  function FieldByteAddress(offset: u64, bitOffset: u8): (r: u64)
    ensures offset + bitOffset / 8 < TwoTo64 ==> r == offset + bitOffset / 8
    ensures bitOffset < 8 ==> r == offset
  {
    Wrap(offset + bitOffset / 8)
  }

  /** The bits a bit-field member occupies within its first byte: the single-bit form
      exactly when the member is one bit wide. */
  function FieldPosition(bitOffset: u8, bitSize: u8): (r: BitPosition)
    ensures r.SingleBit? <==> bitSize == 1
    ensures r.SingleBit? ==> 0 <= r.bit < 8 && r.bit == bitOffset % 8
    ensures r.BitSpan? ==> 0 <= r.firstBit < 8 && r.firstBit == bitOffset % 8
    ensures r.BitSpan? ==> r.lastBit - r.firstBit == bitSize - 1
  {
    var firstBit := bitOffset % 8;
    var lastBit := firstBit + (bitSize - 1);
    if firstBit == lastBit then SingleBit(firstBit) else BitSpan(firstBit, lastBit)
  }

  /** The size column of a bit-field member: the singular label exactly for one bit. */
  function FieldBitCount(bitSize: u8): (r: BitCount)
    ensures r.OneBit? <==> bitSize == 1
    ensures r.Bits? ==> r.count == bitSize
  {
    if bitSize == 1 then OneBit else Bits(bitSize)
  }

  /** The row of a bit-field member. */
  function FieldRow(info: Info, bitOffset: u8, bitSize: u8, env: Env): (r: Row)
    ensures r.FieldEntry? && r.id == info.id
    ensures info.offset + bitOffset / 8 < TwoTo64 ==> r.byteAddress == info.offset + bitOffset / 8
    ensures r.position == FieldPosition(bitOffset, bitSize) && r.bitCount == FieldBitCount(bitSize)
    ensures r.position.SingleBit? <==> r.bitCount.OneBit?
    ensures r.highlighted == IsPatternSelected(env, info.offset, info.size)
    ensures env.selection.None? ==> !r.Highlighted()
  {
    FieldEntry(info.id, FieldByteAddress(info.offset, bitOffset), FieldPosition(bitOffset, bitSize),
               FieldBitCount(bitSize), IsPatternSelected(env, info.offset, info.size))
  }

  /** The header row of a composite node; only a non-sealed node has a toggle. */
  function HeaderRow(info: Info, kind: HeaderKind, colorShown: bool, env: Env): (r: Row)
    ensures r.Header? && r.id == info.id && r.kind == kind && r.colorShown == colorShown
    ensures r.toggle <==> !info.sealed
    ensures r.first == info.offset && r.size == info.size
    ensures r.last == EndAddress(info.offset, info.size)
    ensures r.highlighted == IsPatternSelected(env, info.offset, info.size)
    ensures env.selection.None? ==> !r.Highlighted()
  {
    Header(info.id, kind, !info.sealed, colorShown, info.offset, EndAddress(info.offset, info.size), info.size,
           IsPatternSelected(env, info.offset, info.size))
  }

  /** The byte size of a chunk: from its first entry's offset to the end of its last
      entry, computed in u64. */
  function ChunkBytes(startOffset: u64, endOffset: u64, endSize: u64): (r: u64)
    ensures startOffset <= endOffset && endOffset + endSize < TwoTo64 ==> r == endOffset + endSize - startOffset
  {
    Wrap((endOffset - startOffset) + endSize)
  }

  /** The summary row of the chunk of `p.entries[i..e]`. The last address subtracts
      one unless the array itself (not the chunk) is empty, and the highlight test is
      given a region one byte shorter than the chunk, both as the drawer computes them. */
  function ChunkRow(p: Pattern, i: nat, e: nat, env: Env): (r: Row)
    requires p.IsArray() && i < e <= |p.entries|
    ensures r.ChunkSummary? && r.id == p.info.id
    ensures r.firstIndex == i && r.lastIndex == e - 1 && r.count == e - i
    ensures r.first == p.entries[i].info.offset
    ensures r.byteSize == ChunkBytes(p.entries[i].info.offset, p.entries[e - 1].info.offset, p.entries[e - 1].info.size)
    ensures p.info.size != 0 ==> r.last == (r.first + r.byteSize - 1) % TwoTo64
    ensures p.info.size == 0 ==> r.last == (r.first + r.byteSize) % TwoTo64
    ensures r.highlighted == IsPatternSelected(env, r.first, (r.byteSize - 1) % TwoTo64)
    ensures env.selection.None? ==> !r.Highlighted()
  {
    var startOffset := p.entries[i].info.offset;
    var endOffset := p.entries[e - 1].info.offset;
    var endSize := p.entries[e - 1].info.size;
    var bytes := ChunkBytes(startOffset, endOffset, endSize);
    ChunkSummary(p.info.id, i, e - 1, startOffset,
                 Wrap(startOffset + bytes - (if p.info.size == 0 then 0 else 1)), bytes, e - i,
                 IsPatternSelected(env, startOffset, Wrap(((endOffset + endSize) - startOffset) - 1)))
  }

  /** When the entries of a chunk ascend and the arithmetic does not wrap, the chunk row
      spans exactly from the first entry's offset to the last byte of its last entry. */
  lemma ChunkRowSpan(p: Pattern, i: nat, e: nat, env: Env)
    requires p.IsArray() && i < e <= |p.entries|
    requires p.entries[i].info.offset <= p.entries[e - 1].info.offset
    requires p.entries[e - 1].info.offset + p.entries[e - 1].info.size < TwoTo64
    requires p.info.size > 0 && p.entries[e - 1].info.size > 0
    ensures ChunkRow(p, i, e, env).byteSize
              == p.entries[e - 1].info.offset + p.entries[e - 1].info.size - p.entries[i].info.offset
    ensures ChunkRow(p, i, e, env).last == p.entries[e - 1].info.offset + p.entries[e - 1].info.size - 1
  {
  }
}

/** The pattern tree the drawer walks, the rows it emits and the UI inputs it consults.

    Patterns are values: the drawer only reads them. Each node carries a stable integer
    `id`, which stands for the node's identity (the C++ code keys its side table by the
    node's address). */
module PatternModel {

  const TwoTo64: int := 0x1_0000_0000_0000_0000

  /** The unsigned 64-bit integers the C++ code computes addresses and sizes in. */
  type u64 = x: int | 0 <= x < 0x1_0000_0000_0000_0000

  /** The unsigned 8-bit integers of a bit-field's bit offset and bit size. */
  type u8 = x: int | 0 <= x < 256

  /** A positive chunk size. */
  type Positive = x: int | x > 0 witness 1

  /** Reduction modulo 2^64: the value a u64 expression has after wrap-around. Every
      expression the drawer computes in u64 stays within one wrap of the range, so one
      correction step is the whole reduction. */
  function Wrap(x: int): (r: u64)
    requires -TwoTo64 <= x < 2 * TwoTo64
    ensures r == x % TwoTo64
  {
    if x < 0 then x + TwoTo64 else if x >= TwoTo64 then x - TwoTo64 else x
  }

  function Min(a: int, b: int): (r: int)
    ensures r <= a && r <= b && (r == a || r == b)
  {
    if a <= b then a else b
  }

  datatype Option<T> = None | Some(value: T)

  /** The attributes every pattern kind shares. `valueKey` is the node's value as an
      abstract totally ordered key; `color` is the packed RGBA colour. */
  datatype Info = Info(
    id: nat,
    offset: u64,
    size: u64,
    displayName: string,
    typeName: string,
    valueKey: int,
    color: nat,
    hidden: bool,
    sealed: bool,
    inlined: bool)

  /** One constructor per pattern kind the drawer dispatches on. */
  datatype Pattern =
    | ArrayDynamic(info: Info, entries: seq<Pattern>)
    | ArrayStatic(info: Info, entries: seq<Pattern>)
    | BitfieldField(info: Info, bitOffset: u8, bitSize: u8)
    | Bitfield(info: Info, members: seq<Pattern>)
    | Boolean(info: Info)
    | Character(info: Info)
    | Enum(info: Info)
    | Float(info: Info)
    | Padding(info: Info)
    | Pointer(info: Info, pointee: Pattern)
    | Signed(info: Info)
    | String(info: Info)
    | Struct(info: Info, members: seq<Pattern>)
    | Union(info: Info, members: seq<Pattern>)
    | Unsigned(info: Info)
    | WideCharacter(info: Info)
    | WideString(info: Info)
  {
    predicate IsArray() { ArrayDynamic? || ArrayStatic? }
    predicate HasMembers() { Bitfield? || Struct? || Union? }
  }

  /** The nodes directly below `p`, in the order the drawer visits them. */
  function Children(p: Pattern): (r: seq<Pattern>)
    ensures p.IsArray() ==> r == p.entries
    ensures p.HasMembers() ==> r == p.members
    ensures p.Pointer? ==> r == [p.pointee]
    ensures !p.IsArray() && !p.HasMembers() && !p.Pointer? ==> r == []
  {
    match p
    case ArrayDynamic(_, es) => es
    case ArrayStatic(_, es) => es
    case Bitfield(_, ms) => ms
    case Struct(_, ms) => ms
    case Union(_, ms) => ms
    case Pointer(_, q) => [q]
    case _ => []
  }

  /** The ids of `p` and of every node below it. */
  function Ids(p: Pattern): set<nat>
    decreases p, 1
  {
    {p.info.id} + ChildIds(p, 0)
  }

  /** The ids of the subtrees of `Children(p)[i..]`. */
  function ChildIds(p: Pattern, i: nat): set<nat>
    decreases p, 0, |Children(p)| - i
  {
    if i >= |Children(p)| then {} else Ids(Children(p)[i]) + ChildIds(p, i + 1)
  }

  lemma {:induction false} ChildIdsContain(p: Pattern, i: nat, j: nat)
    requires i <= j < |Children(p)|
    ensures Ids(Children(p)[j]) <= ChildIds(p, i)
    decreases j - i
  {
    if i < j {
      ChildIdsContain(p, i + 1, j);
    }
  }

  /** A half-open byte range `[address, address + size)`, as the selection is given. */
  datatype Region = Region(address: u64, size: u64)

  /** Which tree node the UI reports as open: a pattern's own node, or the node of the
      chunk of its entries starting at `firstIndex`. */
  datatype NodeKey = NodeOf(id: nat) | ChunkOf(id: nat, firstIndex: nat)

  /** What the drawer learns from its surroundings during one frame.
      - `chunkSize`: the number of entries per pagination chunk;
      - `treeOpen`: whether the UI reports a tree node as expanded;
      - `loadMoreClicked`: whether the load-more placeholder of a node is double-clicked;
      - `selection`: the byte range currently selected in the hex editor, if any;
      - `overlaps`: the overlap test of two regions, whose definition is not modelled;
      - `tableBegins`: whether the table widget is shown this frame. */
  datatype Env = Env(
    chunkSize: Positive,
    treeOpen: NodeKey -> bool,
    loadMoreClicked: nat -> bool,
    selection: Option<Region>,
    overlaps: (Region, Region) -> bool,
    tableBegins: bool)

  /** How a leaf row states its type: the plain formatted name, or the `enum` keyword. */
  datatype EntryStyle = Plain | EnumStyle

  /** The keyword shown in a composite's header row; an array shows its entry count. */
  datatype HeaderKind = StructHeader | UnionHeader | BitfieldHeader | PointerHeader | ArrayHeader(entryCount: nat)

  /** The offset column of a bit-field member: one bit, or a span of bits. */
  datatype BitPosition = SingleBit(bit: int) | BitSpan(firstBit: int, lastBit: int)

  /** The size column of a bit-field member: the singular or the plural label. */
  datatype BitCount = OneBit | Bits(count: nat)

  /** The rows the drawer emits, in order. `first`/`last` are the offset column's
      first and last address; `toggle` says whether the row has an expand toggle;
      `colorShown` whether its colour cell is filled. `Pop` and `ChunkPop` close the
      tree node that a header or a chunk row opened. */
  datatype Row =
    | Entry(id: nat, style: EntryStyle, first: u64, last: u64, size: u64, highlighted: bool)
    | FieldEntry(id: nat, byteAddress: u64, position: BitPosition, bitCount: BitCount, highlighted: bool)
    | Header(id: nat, kind: HeaderKind, toggle: bool, colorShown: bool, first: u64, last: u64, size: u64, highlighted: bool)
    | ChunkSummary(id: nat, firstIndex: nat, lastIndex: nat, first: u64, last: u64, byteSize: u64, count: nat, highlighted: bool)
    | LoadMore(id: nat)
    | Pop(id: nat)
    | ChunkPop(id: nat, firstIndex: nat)
  {
    predicate Highlighted() {
      (Entry? || FieldEntry? || Header? || ChunkSummary?) && highlighted
    }
  }
}

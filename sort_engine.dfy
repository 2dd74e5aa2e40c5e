/** The table's sort comparator and the order it induces. The comparator keeps the
    drawer's convention that an ascending column compares with `>`: sorting ascending
    lists the largest key first. */
module SortEngine {
  import opened PatternModel

  /** The column a sort is keyed on: one of the six the table declares, or a column id
      the comparator does not know. */
  datatype SortColumn =
    | NameColumn
    | ColorColumn
    | OffsetColumn
    | SizeColumn
    | TypeColumn
    | ValueColumn
    | OtherColumn(userId: int)
  {
    predicate Known() { !OtherColumn? }
  }

  /** The direction the table reports; `NoDirection` is the table's "none". */
  datatype SortDirection = NoDirection | Ascending | Descending

  /** The first sort spec of the table: its column and direction. */
  datatype SortSpec = SortSpec(column: SortColumn, direction: SortDirection)

  /** The order of `std::string`'s `operator<`: character by character, and a proper
      prefix comes first. */
  predicate LexLess(a: string, b: string)
    decreases |a|
  {
    if |b| == 0 then false
    else if |a| == 0 then true
    else if a[0] != b[0] then a[0] < b[0]
    else LexLess(a[1..], b[1..])
  }

  lemma {:induction false} LexLessIrreflexive(a: string)
    ensures !LexLess(a, a)
    decreases |a|
  {
    if |a| > 0 {
      LexLessIrreflexive(a[1..]);
    }
  }

  lemma {:induction false} LexLessTransitive(a: string, b: string, c: string)
    requires LexLess(a, b) && LexLess(b, c)
    ensures LexLess(a, c)
    decreases |a|
  {
    if |a| > 0 && a[0] == b[0] && b[0] == c[0] {
      LexLessTransitive(a[1..], b[1..], c[1..]);
    }
  }

  /** Two different strings are ordered one way or the other. */
  lemma {:induction false} LexLessTotal(a: string, b: string)
    requires a != b
    ensures LexLess(a, b) || LexLess(b, a)
    decreases |a|
  {
    if |a| > 0 && |b| > 0 && a[0] == b[0] {
      assert a == [a[0]] + a[1..] && b == [b[0]] + b[1..];
      LexLessTotal(a[1..], b[1..]);
    }
  }

  /** The key comparison of a column: `<` on the column's key, and never for a column
      the comparator does not know. */
  predicate KeyLess(column: SortColumn, l: Info, r: Info)
  {
    match column
    case NameColumn => LexLess(l.displayName, r.displayName)
    case OffsetColumn => l.offset < r.offset
    case SizeColumn => l.size < r.size
    case ValueColumn => l.valueKey < r.valueKey
    case TypeColumn => LexLess(l.typeName, r.typeName)
    case ColorColumn => l.color < r.color
    case OtherColumn(_) => false
  }

  /** The comparator the table sorts with. Every known column compares with `>` (the
      left key is the greater) when the direction is ascending, and with `<` otherwise. */
  predicate Less(spec: SortSpec, left: Pattern, right: Pattern)
  {
    if spec.direction == Ascending then KeyLess(spec.column, right.info, left.info)
    else KeyLess(spec.column, left.info, right.info)
  }

  /** What the address columns compare: "ascending" is `left > right`, any other
      direction `left < right`. */
  lemma AddressColumnsMeaning(dir: SortDirection, l: Pattern, r: Pattern)
    ensures Less(SortSpec(OffsetColumn, dir), l, r) <==>
              if dir == Ascending then l.info.offset > r.info.offset else l.info.offset < r.info.offset
    ensures Less(SortSpec(SizeColumn, dir), l, r) <==>
              if dir == Ascending then l.info.size > r.info.size else l.info.size < r.info.size
  {
  }

  /** The value and colour columns, likewise. */
  lemma ValueColumnsMeaning(dir: SortDirection, l: Pattern, r: Pattern)
    ensures Less(SortSpec(ValueColumn, dir), l, r) <==>
              if dir == Ascending then l.info.valueKey > r.info.valueKey else l.info.valueKey < r.info.valueKey
    ensures Less(SortSpec(ColorColumn, dir), l, r) <==>
              if dir == Ascending then l.info.color > r.info.color else l.info.color < r.info.color
  {
  }

  /** The name and type columns compare strings, likewise. */
  lemma StringColumnsMeaning(dir: SortDirection, l: Pattern, r: Pattern)
    ensures Less(SortSpec(NameColumn, dir), l, r) <==>
              if dir == Ascending then LexLess(r.info.displayName, l.info.displayName)
              else LexLess(l.info.displayName, r.info.displayName)
    ensures Less(SortSpec(TypeColumn, dir), l, r) <==>
              if dir == Ascending then LexLess(r.info.typeName, l.info.typeName)
              else LexLess(l.info.typeName, r.info.typeName)
  {
  }

  /** An unknown column orders nothing, whatever the direction. */
  lemma UnknownColumnNeverLess(spec: SortSpec, l: Pattern, r: Pattern)
    requires !spec.column.Known()
    ensures !Less(spec, l, r)
  {
  }

  /** Ascending is descending with the operands swapped, and a missing direction sorts
      like descending. */
  lemma AscendingReversesDescending(column: SortColumn, l: Pattern, r: Pattern)
    ensures Less(SortSpec(column, Ascending), l, r) == Less(SortSpec(column, Descending), r, l)
    ensures Less(SortSpec(column, NoDirection), l, r) == Less(SortSpec(column, Descending), l, r)
  {
  }

  lemma KeyLessIrreflexive(column: SortColumn, a: Info)
    ensures !KeyLess(column, a, a)
  {
    LexLessIrreflexive(a.displayName);
    LexLessIrreflexive(a.typeName);
  }

  lemma KeyLessTransitive(column: SortColumn, a: Info, b: Info, c: Info)
    requires KeyLess(column, a, b) && KeyLess(column, b, c)
    ensures KeyLess(column, a, c)
  {
    if column.NameColumn? {
      LexLessTransitive(a.displayName, b.displayName, c.displayName);
    } else if column.TypeColumn? {
      LexLessTransitive(a.typeName, b.typeName, c.typeName);
    }
  }

  /** Not being smaller is transitive for strings. */
  lemma LexNotLessTransitive(x: string, y: string, z: string)
    requires !LexLess(x, y) && !LexLess(y, z)
    ensures !LexLess(x, z)
  {
    if LexLess(x, z) && x != y {
      LexLessTotal(x, y);
      LexLessTransitive(y, x, z);
    }
  }

  lemma KeyNotLessTransitive(column: SortColumn, a: Info, b: Info, c: Info)
    requires !KeyLess(column, a, b) && !KeyLess(column, b, c)
    ensures !KeyLess(column, a, c)
  {
    if column.NameColumn? {
      LexNotLessTransitive(a.displayName, b.displayName, c.displayName);
    } else if column.TypeColumn? {
      LexNotLessTransitive(a.typeName, b.typeName, c.typeName);
    }
  }

  lemma LessIrreflexive(spec: SortSpec, a: Pattern)
    ensures !Less(spec, a, a)
  {
    KeyLessIrreflexive(spec.column, a.info);
  }

  lemma LessTransitive(spec: SortSpec, a: Pattern, b: Pattern, c: Pattern)
    requires Less(spec, a, b) && Less(spec, b, c)
    ensures Less(spec, a, c)
  {
    if spec.direction == Ascending {
      KeyLessTransitive(spec.column, c.info, b.info, a.info);
    } else {
      KeyLessTransitive(spec.column, a.info, b.info, c.info);
    }
  }

  lemma LessAsymmetric(spec: SortSpec, a: Pattern, b: Pattern)
    requires Less(spec, a, b)
    ensures !Less(spec, b, a)
  {
    if Less(spec, b, a) {
      LessTransitive(spec, a, b, a);
      LessIrreflexive(spec, a);
    }
  }

  /** Being unordered is transitive too, so the comparator is a strict weak order, as
      `std::sort` requires. */
  lemma NotLessTransitive(spec: SortSpec, a: Pattern, b: Pattern, c: Pattern)
    requires !Less(spec, a, b) && !Less(spec, b, c)
    ensures !Less(spec, a, c)
  {
    if spec.direction == Ascending {
      KeyNotLessTransitive(spec.column, c.info, b.info, a.info);
    } else {
      KeyNotLessTransitive(spec.column, a.info, b.info, c.info);
    }
  }

  /** No node is placed after one it should precede: the guarantee `std::sort` gives. */
  ghost predicate Sorted(spec: SortSpec, s: seq<Pattern>)
  {
    forall i, j :: 0 <= i < j < |s| ==> !Less(spec, s[j], s[i])
  }

  /** `x` placed before the first element it is not greater than. */
  function Insert(spec: SortSpec, x: Pattern, s: seq<Pattern>): (r: seq<Pattern>)
    ensures |r| == |s| + 1
  {
    if |s| == 0 then [x]
    else if Less(spec, s[0], x) then [s[0]] + Insert(spec, x, s[1..])
    else [x] + s
  }

  /** A sorted order of `s` under `spec` (the one insertion sort produces). */
  function SortBy(spec: SortSpec, s: seq<Pattern>): (r: seq<Pattern>)
    ensures |r| == |s|
  {
    if |s| == 0 then [] else Insert(spec, s[0], SortBy(spec, s[1..]))
  }

  lemma {:induction false} InsertPermutes(spec: SortSpec, x: Pattern, s: seq<Pattern>)
    ensures multiset(Insert(spec, x, s)) == multiset(s) + multiset{x}
  {
    if |s| > 0 && Less(spec, s[0], x) {
      InsertPermutes(spec, x, s[1..]);
      assert s == [s[0]] + s[1..];
    }
  }

  lemma {:induction false} InsertSorted(spec: SortSpec, x: Pattern, s: seq<Pattern>)
    requires Sorted(spec, s)
    ensures Sorted(spec, Insert(spec, x, s))
  {
    var r := Insert(spec, x, s);
    if |s| == 0 {
    } else if Less(spec, s[0], x) {
      var rest := Insert(spec, x, s[1..]);
      InsertSorted(spec, x, s[1..]);
      InsertPermutes(spec, x, s[1..]);
      forall k | 0 <= k < |rest|
        ensures !Less(spec, rest[k], s[0])
      {
        assert rest[k] in multiset(rest);
        if rest[k] == x {
          LessAsymmetric(spec, s[0], x);
        } else {
          assert rest[k] in multiset(s[1..]);
          var m :| 0 <= m < |s[1..]| && s[1..][m] == rest[k];
          assert s[m + 1] == rest[k];
        }
      }
      assert r == [s[0]] + rest;
      forall i, j | 0 <= i < j < |r|
        ensures !Less(spec, r[j], r[i])
      {
        if i > 0 {
          assert r[i] == rest[i - 1] && r[j] == rest[j - 1];
        } else {
          assert r[j] == rest[j - 1];
        }
      }
    } else {
      assert r == [x] + s;
      forall i, j | 0 <= i < j < |r|
        ensures !Less(spec, r[j], r[i])
      {
        if i == 0 {
          assert r[j] == s[j - 1];
          if j > 1 {
            NotLessTransitive(spec, s[j - 1], s[0], x);
          }
        } else {
          assert r[i] == s[i - 1] && r[j] == s[j - 1];
        }
      }
    }
  }

  /** The sorted order holds exactly the nodes given, each as often. */
  lemma {:induction false} SortByPermutes(spec: SortSpec, s: seq<Pattern>)
    ensures multiset(SortBy(spec, s)) == multiset(s)
  {
    if |s| > 0 {
      SortByPermutes(spec, s[1..]);
      InsertPermutes(spec, s[0], SortBy(spec, s[1..]));
      assert s == [s[0]] + s[1..];
    }
  }

  /** The order is sorted under the comparator. */
  lemma {:induction false} SortBySorted(spec: SortSpec, s: seq<Pattern>)
    ensures Sorted(spec, SortBy(spec, s))
  {
    if |s| > 0 {
      SortBySorted(spec, s[1..]);
      InsertSorted(spec, s[0], SortBy(spec, s[1..]));
    }
  }

  /** A column the comparator does not know orders nothing, and the sort then keeps the
      input order. */
  lemma {:induction false} UnknownColumnKeepsOrder(spec: SortSpec, s: seq<Pattern>)
    requires !spec.column.Known()
    ensures SortBy(spec, s) == s
  {
    if |s| > 0 {
      UnknownColumnKeepsOrder(spec, s[1..]);
      assert s == [s[0]] + s[1..];
    }
  }

  /** Sorted by offset, ascending, the offsets never increase. The same holds for every
      other key column. */
  lemma AscendingOffsetNonIncreasing(s: seq<Pattern>)
    requires Sorted(SortSpec(OffsetColumn, Ascending), s)
    ensures forall i, j :: 0 <= i < j < |s| ==> s[i].info.offset >= s[j].info.offset
  {
    forall i, j | 0 <= i < j < |s|
      ensures s[i].info.offset >= s[j].info.offset
    {
      assert !Less(SortSpec(OffsetColumn, Ascending), s[j], s[i]);
    }
  }

  /** Sorted by offset, descending (or without a direction), the offsets never decrease. */
  lemma DescendingOffsetNonDecreasing(s: seq<Pattern>, dir: SortDirection)
    requires dir != Ascending
    requires Sorted(SortSpec(OffsetColumn, dir), s)
    ensures forall i, j :: 0 <= i < j < |s| ==> s[i].info.offset <= s[j].info.offset
  {
    forall i, j | 0 <= i < j < |s|
      ensures s[i].info.offset <= s[j].info.offset
    {
      assert !Less(SortSpec(OffsetColumn, dir), s[j], s[i]);
    }
  }

  /** A leaf at `offset`, to state examples with. */
  function UnsignedAt(id: nat, offset: u64): (p: Pattern)
    ensures p.info.id == id && p.info.offset == offset && p.Unsigned?
  {
    Unsigned(Info(id, offset, 1, "", "", 0, 0, false, false, false))
  }

  /** Offsets 10, 5 and 20 sorted by offset "ascending" come out as 20, 10, 5. */
  lemma AscendingOffsetExample()
    ensures var a, b, c := UnsignedAt(0, 10), UnsignedAt(1, 5), UnsignedAt(2, 20);
            SortBy(SortSpec(OffsetColumn, Ascending), [a, b, c]) == [c, a, b]
  {
    var spec := SortSpec(OffsetColumn, Ascending);
    var a, b, c := UnsignedAt(0, 10), UnsignedAt(1, 5), UnsignedAt(2, 20);
    assert [a, b, c][1..] == [b, c] && [b, c][1..] == [c];
    assert SortBy(spec, [c]) == [c];
    assert SortBy(spec, [b, c]) == Insert(spec, b, [c]) == [c, b];
    assert Insert(spec, a, [c, b]) == [c] + Insert(spec, a, [b]) == [c, a, b];
  }
}

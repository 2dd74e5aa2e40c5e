/** The pattern drawer as an object: its per-node chunk limits and its cache of the
    sorted top-level nodes are fields its methods update in place, and the table's
    output is the sequence of rows drawn so far. Each drawing method is proved to leave
    the state the corresponding function of `Traversal` computes. */
module Drawer {
  import opened PatternModel
  import opened RowRenderer
  import opened Traversal
  import opened SortEngine

  /** The table's sort specs as the UI owns them: the first spec and its dirty flag,
      which the drawer clears after re-sorting. */
  class TableSortSpecs {
    var spec: SortSpec
    var specsDirty: bool

    constructor (spec: SortSpec, specsDirty: bool)
      ensures this.spec == spec && this.specsDirty == specsDirty
    {
      this.spec := spec;
      this.specsDirty := specsDirty;
    }
  }

  /** `s` with every node's children re-sorted by the pattern library's sort, which is
      given as `childSort` (it is not part of this model). */
  function Resorted(spec: SortSpec, s: seq<Pattern>, childSort: (SortSpec, Pattern) -> Pattern): (r: seq<Pattern>)
    ensures |r| == |s|
    ensures forall i :: 0 <= i < |s| ==> r[i] == childSort(spec, s[i])
  {
    seq(|s|, i requires 0 <= i < |s| => childSort(spec, s[i]))
  }

  /** Whether the table rebuilds its cache: there are nodes, and the specs are dirty or
      the cache is empty. */
  predicate Rebuilds(patterns: seq<Pattern>, cache: seq<Pattern>, dirty: bool)
  {
    |patterns| > 0 && (dirty || |cache| == 0)
  }

  /** The cache and the dirty flag after the table begins: cleared for no nodes; rebuilt
      as the sorted order with re-sorted children, and no longer dirty, when it
      rebuilds; otherwise unchanged. */
  function CacheStep(patterns: seq<Pattern>, cache: seq<Pattern>, dirty: bool, spec: SortSpec,
                     childSort: (SortSpec, Pattern) -> Pattern): (r: (seq<Pattern>, bool))
  {
    if |patterns| == 0 then ([], dirty)
    else if dirty || |cache| == 0 then (Resorted(spec, SortBy(spec, patterns), childSort), false)
    else (cache, dirty)
  }

  /** Without nodes the cache is emptied, and the dirty flag is left as it was. */
  lemma CacheClearedWithoutNodes(patterns: seq<Pattern>, cache: seq<Pattern>, dirty: bool, spec: SortSpec,
                                 childSort: (SortSpec, Pattern) -> Pattern)
    requires |patterns| == 0
    ensures CacheStep(patterns, cache, dirty, spec, childSort) == ([], dirty)
  {
  }

  /** A rebuild leaves the specs clean and the cache holding the nodes in a sorted order
      of the input, each node with its children re-sorted. */
  lemma CacheRebuilt(patterns: seq<Pattern>, cache: seq<Pattern>, dirty: bool, spec: SortSpec,
                     childSort: (SortSpec, Pattern) -> Pattern)
    requires Rebuilds(patterns, cache, dirty)
    ensures var r := CacheStep(patterns, cache, dirty, spec, childSort);
            var order := SortBy(spec, patterns);
            && !r.1 && |r.0| == |patterns|
            && multiset(order) == multiset(patterns) && Sorted(spec, order)
            && r.0 == Resorted(spec, order, childSort)
  {
    SortByPermutes(spec, patterns);
    SortBySorted(spec, patterns);
  }

  /** With nodes, a clean flag and a filled cache, nothing changes. */
  lemma CacheKept(patterns: seq<Pattern>, cache: seq<Pattern>, dirty: bool, spec: SortSpec,
                  childSort: (SortSpec, Pattern) -> Pattern)
    requires |patterns| > 0 && !Rebuilds(patterns, cache, dirty)
    ensures CacheStep(patterns, cache, dirty, spec, childSort) == (cache, dirty)
  {
  }

  /** Beginning the table again with the same nodes and specs changes nothing and sorts
      nothing: the cache is sorted at most once until the specs become dirty again. */
  lemma CacheSettles(patterns: seq<Pattern>, cache: seq<Pattern>, dirty: bool, spec: SortSpec,
                     childSort: (SortSpec, Pattern) -> Pattern)
    ensures var r := CacheStep(patterns, cache, dirty, spec, childSort);
            && !Rebuilds(patterns, r.0, r.1)
            && CacheStep(patterns, r.0, r.1, spec, childSort) == r
  {
  }

  /** The comparator looks at nothing but the nodes' shared attributes. */
  lemma LessByInfo(spec: SortSpec, a: Pattern, b: Pattern, a': Pattern, b': Pattern)
    requires a.info == a'.info && b.info == b'.info
    ensures Less(spec, a, b) == Less(spec, a', b')
  {
  }

  /** When the child sort keeps each node's own attributes, the rebuilt cache itself is
      sorted under the comparator. */
  lemma RebuiltCacheSorted(patterns: seq<Pattern>, cache: seq<Pattern>, dirty: bool, spec: SortSpec,
                           childSort: (SortSpec, Pattern) -> Pattern)
    requires Rebuilds(patterns, cache, dirty)
    requires forall i :: 0 <= i < |patterns| ==> childSort(spec, patterns[i]).info == patterns[i].info
    ensures Sorted(spec, CacheStep(patterns, cache, dirty, spec, childSort).0)
  {
    var order := SortBy(spec, patterns);
    var r := Resorted(spec, order, childSort);
    CacheRebuilt(patterns, cache, dirty, spec, childSort);
    forall m | 0 <= m < |order|
      ensures r[m].info == order[m].info
    {
      assert order[m] in multiset(patterns);
      var i :| 0 <= i < |patterns| && patterns[i] == order[m];
    }
    forall i, j | 0 <= i < j < |r|
      ensures !Less(spec, r[j], r[i])
    {
      LessByInfo(spec, r[j], r[i], order[j], order[i]);
    }
  }

  class PatternDrawer {
    /** The chunk limit of every array node seen so far, by node id. */
    var displayEnd: map<nat, nat>
    /** The top-level nodes in table order, with their children re-sorted. */
    var sortedPatterns: seq<Pattern>
    /** The rows the table shows, in order. */
    var rows: seq<Row>
    /** How many times the cache was sorted. */
    ghost var sortRuns: nat

    function State(): Frame
      reads this
    {
      Frame(rows, displayEnd)
    }

    constructor ()
      ensures displayEnd == map[] && sortedPatterns == [] && rows == [] && sortRuns == 0
    {
      displayEnd := map[];
      sortedPatterns := [];
      rows := [];
      sortRuns := 0;
    }

    /** The chunk limit of node `id`, created with the default on first access. */
    method GetDisplayEnd(id: nat) returns (limit: nat)
      modifies this
      ensures (limit, displayEnd) == DisplayEndLookup(old(displayEnd), id)
      ensures rows == old(rows) && sortedPatterns == old(sortedPatterns) && sortRuns == old(sortRuns)
    {
      if id in displayEnd {
        limit := displayEnd[id];
      } else {
        displayEnd := displayEnd[id := DisplayEndDefault];
        limit := DisplayEndDefault;
      }
    }

    method Emit(r: Row)
      modifies this
      ensures rows == old(rows) + [r]
      ensures displayEnd == old(displayEnd) && sortedPatterns == old(sortedPatterns) && sortRuns == old(sortRuns)
    {
      rows := rows + [r];
    }

    /** Draws one node: nothing when it is hidden, otherwise its kind's drawing. */
    method Draw(p: Pattern, env: Env)
      modifies this
      ensures State() == DrawF(p, env, old(State()))
      ensures sortedPatterns == old(sortedPatterns) && sortRuns == old(sortRuns)
      decreases p, 5
    {
      if p.info.hidden {
        return;
      }
      Visit(p, env);
    }

    method Visit(p: Pattern, env: Env)
      modifies this
      ensures State() == VisitF(p, env, old(State()))
      ensures sortedPatterns == old(sortedPatterns) && sortRuns == old(sortRuns)
      decreases p, 4
    {
      match p
      case ArrayDynamic(_, _) => DrawArray(p, env);
      case ArrayStatic(_, _) => DrawArray(p, env);
      case BitfieldField(info, bitOffset, bitSize) => Emit(FieldRow(info, bitOffset, bitSize, env));
      case Bitfield(_, _) => DrawMemberNode(p, BitfieldHeader, true, env);
      case Boolean(info) => Emit(DefaultEntry(info, Plain, env));
      case Character(info) => Emit(DefaultEntry(info, Plain, env));
      case Enum(info) => Emit(DefaultEntry(info, EnumStyle, env));
      case Float(info) => Emit(DefaultEntry(info, Plain, env));
      case Padding(_) =>
      case Pointer(info, q) =>
        var open := true;
        if !info.inlined {
          Emit(HeaderRow(info, PointerHeader, true, env));
          open := TreeNodeOpen(info, env);
        }
        if open {
          Visit(q, env);
          if !info.inlined {
            Emit(Pop(info.id));
          }
        }
      case Signed(info) => Emit(DefaultEntry(info, Plain, env));
      case String(info) =>
        if info.size > 0 {
          Emit(DefaultEntry(info, Plain, env));
        }
      case Struct(info, _) => DrawMemberNode(p, StructHeader, info.sealed, env);
      case Union(info, _) => DrawMemberNode(p, UnionHeader, info.sealed, env);
      case Unsigned(info) => Emit(DefaultEntry(info, Plain, env));
      case WideCharacter(info) => Emit(DefaultEntry(info, Plain, env));
      case WideString(info) =>
        if info.size > 0 {
          Emit(DefaultEntry(info, Plain, env));
        }
    }

    /** A struct, union or bit-field: its header unless inlined, then, when open, each
      member in order and the closing of its node. */
    method DrawMemberNode(p: Pattern, kind: HeaderKind, colorShown: bool, env: Env)
      requires p.HasMembers()
      modifies this
      ensures State() == MemberNodeF(p, kind, colorShown, env, old(State()))
      ensures sortedPatterns == old(sortedPatterns) && sortRuns == old(sortRuns)
      decreases p, 2
    {
      var open := true;
      if !p.info.inlined {
        Emit(HeaderRow(p.info, kind, colorShown, env));
        open := TreeNodeOpen(p.info, env);
      }
      if open {
        ghost var s1 := State();
        var j := 0;
        while j < |p.members|
          invariant 0 <= j <= |p.members|
          invariant MembersF(p, env, j, State()) == MembersF(p, env, 0, s1)
          invariant sortedPatterns == old(sortedPatterns) && sortRuns == old(sortRuns)
          decreases |p.members| - j
        {
          Draw(p.members[j], env);
          j := j + 1;
        }
        if !p.info.inlined {
          Emit(Pop(p.info.id));
        }
      }
    }

    /** An array: nothing when empty; otherwise its header unless inlined, then, when
        open, the chunk walk and the closing of its node. */
    method DrawArray(p: Pattern, env: Env)
      requires p.IsArray()
      modifies this
      ensures State() == ArrayF(p, env, old(State()))
      ensures sortedPatterns == old(sortedPatterns) && sortRuns == old(sortRuns)
      decreases p, 3
    {
      if |p.entries| == 0 {
        return;
      }
      var open := true;
      if !p.info.inlined {
        Emit(HeaderRow(p.info, ArrayHeader(|p.entries|), p.info.sealed, env));
        open := TreeNodeOpen(p.info, env);
      }
      if open {
        DrawChunks(p, env);
        if !p.info.inlined {
          Emit(Pop(p.info.id));
        }
      }
    }

    /** The chunk walk of an array. It counts chunks against the node's limit; past it,
        it draws the load-more placeholder, raises the limit by one step on a
        double-click, and stops. */
    method DrawChunks(p: Pattern, env: Env)
      requires p.IsArray()
      modifies this
      ensures State() == WalkF(p, env, 0, 0, old(State()))
      ensures sortedPatterns == old(sortedPatterns) && sortRuns == old(sortRuns)
      decreases p, 2
    {
      var chunkCount := 0;
      var i := 0;
      while i < |p.entries|
        invariant WalkF(p, env, i, chunkCount, State()) == WalkF(p, env, 0, 0, old(State()))
        invariant sortedPatterns == old(sortedPatterns) && sortRuns == old(sortRuns)
        decreases |p.entries| - i
      {
        chunkCount := chunkCount + 1;
        var limit := GetDisplayEnd(p.info.id);
        if chunkCount > limit {
          DrawPlaceholder(env, p.info.id, limit);
          return;
        }
        DrawChunk(p, env, i);
        i := i + env.chunkSize;
      }
    }

    /** The load-more placeholder of node `id`, whose limit is `limit`: a double-click
        on it raises the limit by one step. */
    method DrawPlaceholder(env: Env, id: nat, limit: nat)
      modifies this
      ensures State() == PlaceholderF(env, id, limit, old(State()))
      ensures sortedPatterns == old(sortedPatterns) && sortRuns == old(sortRuns)
    {
      Emit(LoadMore(id));
      if env.loadMoreClicked(id) {
        displayEnd := displayEnd[id := limit + DisplayEndStep];
      }
    }

    /** The chunk of entries starting at `i`: its summary row and, when its node is open,
        its entries in order and the closing of that node. */
    method DrawChunk(p: Pattern, env: Env, i: nat)
      requires p.IsArray() && i < |p.entries|
      modifies this
      ensures State() == ChunkF(p, env, i, old(State()))
      ensures sortedPatterns == old(sortedPatterns) && sortRuns == old(sortRuns)
      decreases p, 1
    {
      var e := Min(|p.entries|, i + env.chunkSize);
      Emit(ChunkRow(p, i, e, env));
      if env.treeOpen(ChunkOf(p.info.id, i)) {
        ghost var s1 := State();
        var j := i;
        while j < e
          invariant i <= j <= e
          invariant RangeF(p, env, j, e, State()) == RangeF(p, env, i, e, s1)
          invariant sortedPatterns == old(sortedPatterns) && sortRuns == old(sortRuns)
          decreases e - j
        {
          Draw(p.entries[j], env);
          j := j + 1;
        }
        Emit(ChunkPop(p.info.id, i));
      }
    }

    /** Begins the table when the UI shows it. Then the cache is cleared for no nodes;
        when it rebuilds, it is refilled with the nodes, sorted with the comparator, each
        node's children are re-sorted, and the specs are no longer dirty; otherwise the
        cache and the flag are left alone and nothing is sorted. */
    method BeginPatternTable(patterns: seq<Pattern>, specs: TableSortSpecs, env: Env,
                             childSort: (SortSpec, Pattern) -> Pattern) returns (began: bool)
      modifies this, specs
      ensures began == env.tableBegins
      ensures (sortedPatterns, specs.specsDirty)
                == if began then CacheStep(patterns, old(sortedPatterns), old(specs.specsDirty), specs.spec, childSort)
                   else (old(sortedPatterns), old(specs.specsDirty))
      ensures sortRuns == old(sortRuns) + if began && Rebuilds(patterns, old(sortedPatterns), old(specs.specsDirty)) then 1 else 0
      ensures specs.spec == old(specs.spec) && rows == old(rows) && displayEnd == old(displayEnd)
    {
      if !env.tableBegins {
        return false;
      }
      if |patterns| == 0 {
        sortedPatterns := [];
      }
      if |patterns| > 0 && (specs.specsDirty || |sortedPatterns| == 0) {
        sortedPatterns := patterns;
        sortedPatterns := SortBy(specs.spec, sortedPatterns);
        sortRuns := sortRuns + 1;
        ghost var order := sortedPatterns;
        var k := 0;
        while k < |sortedPatterns|
          invariant |sortedPatterns| == |order| && 0 <= k <= |order|
          invariant forall m :: 0 <= m < k ==> sortedPatterns[m] == childSort(specs.spec, order[m])
          invariant forall m :: k <= m < |order| ==> sortedPatterns[m] == order[m]
          invariant specs.spec == old(specs.spec) && specs.specsDirty == old(specs.specsDirty)
          invariant sortRuns == old(sortRuns) + 1 && rows == old(rows) && displayEnd == old(displayEnd)
          decreases |order| - k
        {
          sortedPatterns := sortedPatterns[k := childSort(specs.spec, sortedPatterns[k])];
          k := k + 1;
        }
        assert sortedPatterns == Resorted(specs.spec, order, childSort);
        specs.specsDirty := false;
      }
      return true;
    }

    /** One frame of the table: when it begins, the cached nodes are drawn in order. */
    method DrawPatterns(patterns: seq<Pattern>, specs: TableSortSpecs, env: Env,
                        childSort: (SortSpec, Pattern) -> Pattern)
      modifies this, specs
      ensures (sortedPatterns, specs.specsDirty)
                == if env.tableBegins then CacheStep(patterns, old(sortedPatterns), old(specs.specsDirty), specs.spec, childSort)
                   else (old(sortedPatterns), old(specs.specsDirty))
      ensures State() == if env.tableBegins then DrawAllF(sortedPatterns, env, 0, old(State())) else old(State())
      ensures sortRuns == old(sortRuns) + if env.tableBegins && Rebuilds(patterns, old(sortedPatterns), old(specs.specsDirty)) then 1 else 0
      ensures specs.spec == old(specs.spec)
    {
      var began := BeginPatternTable(patterns, specs, env, childSort);
      if began {
        ghost var s1, cache, dirty, runs := State(), sortedPatterns, specs.specsDirty, sortRuns;
        var j := 0;
        while j < |sortedPatterns|
          invariant 0 <= j <= |sortedPatterns|
          invariant sortedPatterns == cache && specs.specsDirty == dirty && sortRuns == runs
          invariant specs.spec == old(specs.spec)
          invariant DrawAllF(sortedPatterns, env, j, State()) == DrawAllF(sortedPatterns, env, 0, s1)
          decreases |sortedPatterns| - j
        {
          Draw(sortedPatterns[j], env);
          j := j + 1;
        }
      }
    }
  }
}

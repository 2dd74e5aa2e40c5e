/** The visitor dispatch and the pagination walk as functions on a `Frame`: the rows
    drawn so far and the per-node display-end table. Each function returns the frame
    after drawing; the methods of `Drawer.PatternDrawer` are proved against them. */
module Traversal {
  import opened PatternModel
  import opened RowRenderer

  /** The chunk limit a node starts with, and the amount one load-more click adds. */
  const DisplayEndDefault: nat := 50
  const DisplayEndStep: nat := 50

  datatype Frame = Frame(rows: seq<Row>, displayEnd: map<nat, nat>)

  function Emit(s: Frame, r: Row): Frame
  {
    s.(rows := s.rows + [r])
  }

  /** The chunk limit of node `id`, created with the default on first access. */
  function DisplayEndLookup(de: map<nat, nat>, id: nat): (r: (nat, map<nat, nat>))
    ensures r.1.Keys == de.Keys + {id}
    ensures r.1[id] == r.0
    ensures forall k :: k in de ==> r.1[k] == de[k]
    ensures id !in de ==> r.0 == DisplayEndDefault
  {
    if id in de then (de[id], de) else (DisplayEndDefault, de[id := DisplayEndDefault])
  }

  /** Drawing a node: a hidden node draws nothing, anything else is visited. */
  function DrawF(p: Pattern, env: Env, s: Frame): Frame
    decreases p, 4
  {
    if p.info.hidden then s else VisitF(p, env, s)
  }

  /** The dispatch on the node's kind. A pointer visits its pointee directly, without
      the hidden test of `DrawF`. */
  function VisitF(p: Pattern, env: Env, s: Frame): Frame
    decreases p, 3
  {
    match p
    case ArrayDynamic(_, _) => ArrayF(p, env, s)
    case ArrayStatic(_, _) => ArrayF(p, env, s)
    case BitfieldField(info, bitOffset, bitSize) => Emit(s, FieldRow(info, bitOffset, bitSize, env))
    case Bitfield(_, _) => MemberNodeF(p, BitfieldHeader, true, env, s)
    case Boolean(info) => Emit(s, DefaultEntry(info, Plain, env))
    case Character(info) => Emit(s, DefaultEntry(info, Plain, env))
    case Enum(info) => Emit(s, DefaultEntry(info, EnumStyle, env))
    case Float(info) => Emit(s, DefaultEntry(info, Plain, env))
    case Padding(_) => s
    case Pointer(info, q) =>
      var open := info.inlined || TreeNodeOpen(info, env);
      var s1 := if info.inlined then s else Emit(s, HeaderRow(info, PointerHeader, true, env));
      if !open then s1
      else
        var s2 := VisitF(q, env, s1);
        if info.inlined then s2 else Emit(s2, Pop(info.id))
    case Signed(info) => Emit(s, DefaultEntry(info, Plain, env))
    case String(info) => if info.size > 0 then Emit(s, DefaultEntry(info, Plain, env)) else s
    case Struct(info, _) => MemberNodeF(p, StructHeader, info.sealed, env, s)
    case Union(info, _) => MemberNodeF(p, UnionHeader, info.sealed, env, s)
    case Unsigned(info) => Emit(s, DefaultEntry(info, Plain, env))
    case WideCharacter(info) => Emit(s, DefaultEntry(info, Plain, env))
    case WideString(info) => if info.size > 0 then Emit(s, DefaultEntry(info, Plain, env)) else s
  }

  /** A struct, union or bit-field: its header unless inlined, then its members when open. */
  function MemberNodeF(p: Pattern, kind: HeaderKind, colorShown: bool, env: Env, s: Frame): Frame
    requires p.HasMembers()
    decreases p, 2
  {
    var info := p.info;
    var open := info.inlined || TreeNodeOpen(info, env);
    var s1 := if info.inlined then s else Emit(s, HeaderRow(info, kind, colorShown, env));
    if !open then s1
    else
      var s2 := MembersF(p, env, 0, s1);
      if info.inlined then s2 else Emit(s2, Pop(info.id))
  }

  /** Drawing `p.members[j..]` in order. */
  function MembersF(p: Pattern, env: Env, j: nat, s: Frame): Frame
    requires p.HasMembers()
    decreases p, 0, |p.members| - j
  {
    if j >= |p.members| then s else MembersF(p, env, j + 1, DrawF(p.members[j], env, s))
  }

  /** An array: nothing when empty; otherwise its header unless inlined, then the chunk
      walk when open. */
  function ArrayF(p: Pattern, env: Env, s: Frame): Frame
    requires p.IsArray()
    decreases p, 2
  {
    if |p.entries| == 0 then s
    else
      var info := p.info;
      var open := info.inlined || TreeNodeOpen(info, env);
      var s1 := if info.inlined then s else Emit(s, HeaderRow(info, ArrayHeader(|p.entries|), info.sealed, env));
      if !open then s1
      else
        var s2 := WalkF(p, env, 0, 0, s1);
        if info.inlined then s2 else Emit(s2, Pop(info.id))
  }

  /** The chunk walk from entry `i`, with `chunkCount` chunks already counted. Each step
      counts one more chunk and reads the node's chunk limit; past the limit it draws the
      load-more placeholder and stops, otherwise it draws one chunk and goes on. */
  function WalkF(p: Pattern, env: Env, i: nat, chunkCount: nat, s: Frame): Frame
    requires p.IsArray()
    decreases p, 1, |p.entries| - i
  {
    if i >= |p.entries| then s
    else
      var lookup := DisplayEndLookup(s.displayEnd, p.info.id);
      var s0 := Frame(s.rows, lookup.1);
      if chunkCount + 1 > lookup.0 then PlaceholderF(env, p.info.id, lookup.0, s0)
      else WalkF(p, env, i + env.chunkSize, chunkCount + 1, ChunkF(p, env, i, s0))
  }

  /** The load-more placeholder of node `id`; a double-click on it adds one step to the
      node's chunk limit. */
  function PlaceholderF(env: Env, id: nat, limit: nat, s: Frame): Frame
  {
    var s1 := Emit(s, LoadMore(id));
    if env.loadMoreClicked(id) then s1.(displayEnd := s1.displayEnd[id := limit + DisplayEndStep]) else s1
  }

  /** The chunk starting at entry `i`: its summary row and, when the chunk's node is
      open, its entries followed by the closing of that node. */
  function ChunkF(p: Pattern, env: Env, i: nat, s: Frame): Frame
    requires p.IsArray() && i < |p.entries|
    decreases p, 0, |p.entries| - i + 1
  {
    var e := Min(|p.entries|, i + env.chunkSize);
    var s1 := Emit(s, ChunkRow(p, i, e, env));
    if env.treeOpen(ChunkOf(p.info.id, i)) then Emit(RangeF(p, env, i, e, s1), ChunkPop(p.info.id, i)) else s1
  }

  /** Drawing `p.entries[j..e]` in order. */
  function RangeF(p: Pattern, env: Env, j: nat, e: nat, s: Frame): Frame
    requires p.IsArray() && e <= |p.entries|
    decreases p, 0, e - j
  {
    if j >= e then s else RangeF(p, env, j + 1, e, DrawF(p.entries[j], env, s))
  }

  /** Drawing a sequence of top-level nodes in order. */
  function DrawAllF(ps: seq<Pattern>, env: Env, j: nat, s: Frame): Frame
    decreases |ps| - j
  {
    if j >= |ps| then s else DrawAllF(ps, env, j + 1, DrawF(ps[j], env, s))
  }

  // ----- What any drawing step does to the frame -----

  /** Every key keeps or raises its chunk limit. */
  ghost predicate Grows(de: map<nat, nat>, de': map<nat, nat>)
  {
    de.Keys <= de'.Keys && forall k :: k in de ==> de[k] <= de'[k]
  }

  /** `x` is the default limit raised by some number of steps. */
  predicate StepMultiple(x: int)
    decreases x
  {
    x == DisplayEndDefault || (x > DisplayEndDefault && StepMultiple(x - DisplayEndStep))
  }

  /** The steps are whole multiples: a limit is reachable from the default exactly when
      it is a positive multiple of 50. */
  lemma {:induction false} StepMultipleMeans(x: int)
    ensures StepMultiple(x) <==> x >= DisplayEndDefault && x % DisplayEndStep == 0
    decreases if x < 0 then 0 else x
  {
    if x > DisplayEndDefault {
      StepMultipleMeans(x - DisplayEndStep);
    }
  }

  /** Every chunk limit is a positive multiple of the step. */
  ghost predicate ValidDisplayEnd(de: map<nat, nat>)
  {
    forall k :: k in de ==> StepMultiple(de[k])
  }

  /** `t` is `s` after drawing nodes whose ids lie in `ids`: rows are only appended, each
      new row belongs to one of those nodes and is unhighlighted when nothing is
      selected; chunk limits only grow, only those of `ids` change or appear, a limit
      changes or goes beyond the default only through its node's load-more click, and
      the positive-multiple invariant is kept. */
  ghost predicate Extends(ids: set<nat>, env: Env, s: Frame, t: Frame)
  {
    && |s.rows| <= |t.rows| && t.rows[..|s.rows|] == s.rows
    && (forall j :: |s.rows| <= j < |t.rows| ==> t.rows[j].id in ids)
    && (env.selection.None? ==> forall j :: |s.rows| <= j < |t.rows| ==> !t.rows[j].Highlighted())
    && Grows(s.displayEnd, t.displayEnd)
    && t.displayEnd.Keys <= s.displayEnd.Keys + ids
    && (forall k :: k in s.displayEnd && k !in ids ==> t.displayEnd[k] == s.displayEnd[k])
    && (forall k :: k in t.displayEnd && !env.loadMoreClicked(k) ==>
          t.displayEnd[k] == if k in s.displayEnd then s.displayEnd[k] else DisplayEndDefault)
    && (ValidDisplayEnd(s.displayEnd) ==> ValidDisplayEnd(t.displayEnd))
  }

  lemma ExtendsRefl(ids: set<nat>, env: Env, s: Frame)
    ensures Extends(ids, env, s, s)
  {
    assert s.rows[..|s.rows|] == s.rows;
  }

  lemma ExtendsTrans(a: set<nat>, b: set<nat>, c: set<nat>, env: Env, s: Frame, t: Frame, u: Frame)
    requires a <= c && b <= c
    requires Extends(a, env, s, t) && Extends(b, env, t, u)
    ensures Extends(c, env, s, u)
  {
    assert u.rows[..|s.rows|] == u.rows[..|t.rows|][..|s.rows|];
    forall j | |s.rows| <= j < |u.rows|
      ensures u.rows[j].id in c
      ensures env.selection.None? ==> !u.rows[j].Highlighted()
    {
      if j < |t.rows| {
        assert u.rows[j] == u.rows[..|t.rows|][j] == t.rows[j];
      }
    }
  }

  lemma EmitExtends(ids: set<nat>, env: Env, s: Frame, r: Row)
    requires r.id in ids
    requires env.selection.None? ==> !r.Highlighted()
    ensures Extends(ids, env, s, Emit(s, r))
  {
    assert Emit(s, r).rows[..|s.rows|] == s.rows;
  }

  lemma {:induction false} DrawExtends(p: Pattern, env: Env, s: Frame)
    ensures Extends(Ids(p), env, s, DrawF(p, env, s))
    decreases p, 4
  {
    if p.info.hidden {
      ExtendsRefl(Ids(p), env, s);
    } else {
      VisitExtends(p, env, s);
    }
  }

  lemma {:induction false} VisitExtends(p: Pattern, env: Env, s: Frame)
    ensures Extends(Ids(p), env, s, VisitF(p, env, s))
    decreases p, 3
  {
    match p
    case ArrayDynamic(_, _) => ArrayExtends(p, env, s);
    case ArrayStatic(_, _) => ArrayExtends(p, env, s);
    case Bitfield(_, _) => MemberNodeExtends(p, BitfieldHeader, true, env, s);
    case Struct(info, _) => MemberNodeExtends(p, StructHeader, info.sealed, env, s);
    case Union(info, _) => MemberNodeExtends(p, UnionHeader, info.sealed, env, s);
    case Pointer(_, _) => PointerExtends(p, env, s);
    case _ => LeafExtends(p, env, s);
  }

  /** A node without children draws at most one row, its own. */
  lemma LeafExtends(p: Pattern, env: Env, s: Frame)
    requires !p.IsArray() && !p.HasMembers() && !p.Pointer?
    ensures Extends(Ids(p), env, s, VisitF(p, env, s))
    ensures |VisitF(p, env, s).rows| <= |s.rows| + 1
    ensures VisitF(p, env, s).displayEnd == s.displayEnd
  {
    var ids := Ids(p);
    match p
    case Padding(_) => ExtendsRefl(ids, env, s);
    case String(info) =>
      if info.size > 0 {
        EmitExtends(ids, env, s, DefaultEntry(info, Plain, env));
      } else {
        ExtendsRefl(ids, env, s);
      }
    case WideString(info) =>
      if info.size > 0 {
        EmitExtends(ids, env, s, DefaultEntry(info, Plain, env));
      } else {
        ExtendsRefl(ids, env, s);
      }
    case BitfieldField(info, bitOffset, bitSize) => EmitExtends(ids, env, s, FieldRow(info, bitOffset, bitSize, env));
    case Enum(info) => EmitExtends(ids, env, s, DefaultEntry(info, EnumStyle, env));
    case Boolean(info) => EmitExtends(ids, env, s, DefaultEntry(info, Plain, env));
    case Character(info) => EmitExtends(ids, env, s, DefaultEntry(info, Plain, env));
    case Float(info) => EmitExtends(ids, env, s, DefaultEntry(info, Plain, env));
    case Signed(info) => EmitExtends(ids, env, s, DefaultEntry(info, Plain, env));
    case Unsigned(info) => EmitExtends(ids, env, s, DefaultEntry(info, Plain, env));
    case WideCharacter(info) => EmitExtends(ids, env, s, DefaultEntry(info, Plain, env));
  }

  lemma {:induction false} PointerExtends(p: Pattern, env: Env, s: Frame)
    requires p.Pointer?
    ensures Extends(Ids(p), env, s, VisitF(p, env, s))
    decreases p, 2
  {
    var info, q := p.info, p.pointee;
    var ids := Ids(p);
    var open := info.inlined || TreeNodeOpen(info, env);
    var s1 := if info.inlined then s else Emit(s, HeaderRow(info, PointerHeader, true, env));
    if info.inlined {
      ExtendsRefl(ids, env, s);
    } else {
      EmitExtends(ids, env, s, HeaderRow(info, PointerHeader, true, env));
    }
    if open {
      var s2 := VisitF(q, env, s1);
      VisitExtends(q, env, s1);
      ChildIdsContain(p, 0, 0);
      ExtendsTrans(ids, Ids(q), ids, env, s, s1, s2);
      if !info.inlined {
        EmitExtends(ids, env, s2, Pop(info.id));
        ExtendsTrans(ids, ids, ids, env, s, s2, Emit(s2, Pop(info.id)));
      }
    }
  }

  lemma {:induction false} MemberNodeExtends(p: Pattern, kind: HeaderKind, colorShown: bool, env: Env, s: Frame)
    requires p.HasMembers()
    ensures Extends(Ids(p), env, s, MemberNodeF(p, kind, colorShown, env, s))
    decreases p, 2
  {
    var info := p.info;
    var ids := Ids(p);
    var open := info.inlined || TreeNodeOpen(info, env);
    var s1 := if info.inlined then s else Emit(s, HeaderRow(info, kind, colorShown, env));
    if info.inlined {
      ExtendsRefl(ids, env, s);
    } else {
      EmitExtends(ids, env, s, HeaderRow(info, kind, colorShown, env));
    }
    if open {
      var s2 := MembersF(p, env, 0, s1);
      MembersExtends(p, env, 0, s1);
      ExtendsTrans(ids, ChildIds(p, 0), ids, env, s, s1, s2);
      if !info.inlined {
        EmitExtends(ids, env, s2, Pop(info.id));
        ExtendsTrans(ids, ids, ids, env, s, s2, Emit(s2, Pop(info.id)));
      }
    }
  }

  lemma {:induction false} MembersExtends(p: Pattern, env: Env, j: nat, s: Frame)
    requires p.HasMembers()
    ensures Extends(ChildIds(p, 0), env, s, MembersF(p, env, j, s))
    decreases p, 0, |p.members| - j
  {
    var ids := ChildIds(p, 0);
    if j >= |p.members| {
      ExtendsRefl(ids, env, s);
    } else {
      var q := p.members[j];
      var s1 := DrawF(q, env, s);
      DrawExtends(q, env, s);
      ChildIdsContain(p, 0, j);
      MembersExtends(p, env, j + 1, s1);
      ExtendsTrans(Ids(q), ids, ids, env, s, s1, MembersF(p, env, j + 1, s1));
    }
  }

  lemma {:induction false} ArrayExtends(p: Pattern, env: Env, s: Frame)
    requires p.IsArray()
    ensures Extends(Ids(p), env, s, ArrayF(p, env, s))
    decreases p, 2
  {
    var ids := Ids(p);
    if |p.entries| == 0 {
      ExtendsRefl(ids, env, s);
    } else {
      var info := p.info;
      var open := info.inlined || TreeNodeOpen(info, env);
      var header := HeaderRow(info, ArrayHeader(|p.entries|), info.sealed, env);
      var s1 := if info.inlined then s else Emit(s, header);
      if info.inlined {
        ExtendsRefl(ids, env, s);
      } else {
        EmitExtends(ids, env, s, header);
      }
      if open {
        var s2 := WalkF(p, env, 0, 0, s1);
        WalkExtends(p, env, 0, 0, s1);
        ExtendsTrans(ids, ids, ids, env, s, s1, s2);
        if !info.inlined {
          EmitExtends(ids, env, s2, Pop(info.id));
          ExtendsTrans(ids, ids, ids, env, s, s2, Emit(s2, Pop(info.id)));
        }
      }
    }
  }

  lemma LookupExtends(ids: set<nat>, env: Env, s: Frame, id: nat)
    requires id in ids
    ensures Extends(ids, env, s, Frame(s.rows, DisplayEndLookup(s.displayEnd, id).1))
  {
    assert s.rows[..|s.rows|] == s.rows;
  }

  lemma PlaceholderExtends(ids: set<nat>, env: Env, id: nat, s: Frame)
    requires id in ids && id in s.displayEnd
    ensures Extends(ids, env, s, PlaceholderF(env, id, s.displayEnd[id], s))
  {
    var s1 := Emit(s, LoadMore(id));
    assert s1.rows[..|s.rows|] == s.rows;
  }

  lemma {:induction false} ChunkExtends(p: Pattern, env: Env, i: nat, s: Frame)
    requires p.IsArray() && i < |p.entries|
    ensures Extends(Ids(p), env, s, ChunkF(p, env, i, s))
    decreases p, 0, |p.entries| - i + 1
  {
    var ids := Ids(p);
    var e := Min(|p.entries|, i + env.chunkSize);
    var s1 := Emit(s, ChunkRow(p, i, e, env));
    EmitExtends(ids, env, s, ChunkRow(p, i, e, env));
    if env.treeOpen(ChunkOf(p.info.id, i)) {
      var s2 := RangeF(p, env, i, e, s1);
      RangeExtends(p, env, i, e, s1);
      ExtendsTrans(ids, ChildIds(p, 0), ids, env, s, s1, s2);
      EmitExtends(ids, env, s2, ChunkPop(p.info.id, i));
      ExtendsTrans(ids, ids, ids, env, s, s2, Emit(s2, ChunkPop(p.info.id, i)));
    }
  }

  lemma {:induction false} WalkExtends(p: Pattern, env: Env, i: nat, chunkCount: nat, s: Frame)
    requires p.IsArray()
    ensures Extends(Ids(p), env, s, WalkF(p, env, i, chunkCount, s))
    decreases p, 1, |p.entries| - i
  {
    var ids := Ids(p);
    if i >= |p.entries| {
      ExtendsRefl(ids, env, s);
    } else {
      var lookup := DisplayEndLookup(s.displayEnd, p.info.id);
      var s0 := Frame(s.rows, lookup.1);
      LookupExtends(ids, env, s, p.info.id);
      if chunkCount + 1 > lookup.0 {
        PlaceholderExtends(ids, env, p.info.id, s0);
        ExtendsTrans(ids, ids, ids, env, s, s0, PlaceholderF(env, p.info.id, lookup.0, s0));
      } else {
        var s1 := ChunkF(p, env, i, s0);
        ChunkExtends(p, env, i, s0);
        ExtendsTrans(ids, ids, ids, env, s, s0, s1);
        WalkExtends(p, env, i + env.chunkSize, chunkCount + 1, s1);
        ExtendsTrans(ids, ids, ids, env, s, s1, WalkF(p, env, i + env.chunkSize, chunkCount + 1, s1));
      }
    }
  }

  lemma {:induction false} RangeExtends(p: Pattern, env: Env, j: nat, e: nat, s: Frame)
    requires p.IsArray() && e <= |p.entries|
    ensures Extends(ChildIds(p, 0), env, s, RangeF(p, env, j, e, s))
    decreases p, 0, e - j
  {
    var ids := ChildIds(p, 0);
    if j >= e {
      ExtendsRefl(ids, env, s);
    } else {
      var q := p.entries[j];
      var s1 := DrawF(q, env, s);
      DrawExtends(q, env, s);
      ChildIdsContain(p, 0, j);
      RangeExtends(p, env, j + 1, e, s1);
      ExtendsTrans(Ids(q), ids, ids, env, s, s1, RangeF(p, env, j + 1, e, s1));
    }
  }
}

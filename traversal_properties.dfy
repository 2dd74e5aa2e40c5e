/** What drawing one node emits, kind by kind: nothing for hidden nodes, padding, empty
    strings and empty arrays; one row for a scalar; a header, and the children only when
    open, for a composite; only the children for an inlined composite. */
module TraversalProperties {
  import opened PatternModel
  import opened RowRenderer
  import opened Traversal

  predicate IsScalar(p: Pattern)
  {
    p.Boolean? || p.Character? || p.Enum? || p.Float? || p.Signed? || p.Unsigned? || p.WideCharacter? || p.BitfieldField?
  }

  predicate IsComposite(p: Pattern)
  {
    p.HasMembers() || p.Pointer? || p.IsArray()
  }

  /** A hidden node changes nothing: no row, and no chunk limit of any node below it is
      created, because none of them is visited. */
  lemma HiddenDrawsNothing(p: Pattern, env: Env, s: Frame)
    requires p.info.hidden
    ensures DrawF(p, env, s) == s
  {
  }

  lemma PaddingDrawsNothing(p: Pattern, env: Env, s: Frame)
    requires p.Padding?
    ensures DrawF(p, env, s) == s
  {
  }

  lemma EmptyArrayDrawsNothing(p: Pattern, env: Env, s: Frame)
    requires p.IsArray() && |p.entries| == 0
    ensures DrawF(p, env, s) == s
  {
    assert DrawF(p, env, s) == VisitF(p, env, s) == ArrayF(p, env, s);
  }

  /** A string or wide string draws one default row exactly when it is not empty. */
  lemma StringRowIffNonEmpty(p: Pattern, env: Env, s: Frame)
    requires (p.String? || p.WideString?) && !p.info.hidden
    ensures DrawF(p, env, s).displayEnd == s.displayEnd
    ensures |DrawF(p, env, s).rows| == |s.rows| + 1 <==> p.info.size > 0
    ensures p.info.size == 0 ==> DrawF(p, env, s).rows == s.rows
    ensures p.info.size > 0 ==> DrawF(p, env, s).rows == s.rows + [DefaultEntry(p.info, Plain, env)]
  {
  }

  /** A visible scalar draws exactly one row of its own and touches no chunk limit. */
  lemma ScalarDrawsOneRow(p: Pattern, env: Env, s: Frame)
    requires IsScalar(p) && !p.info.hidden
    ensures DrawF(p, env, s).displayEnd == s.displayEnd
    ensures |DrawF(p, env, s).rows| == |s.rows| + 1 && DrawF(p, env, s).rows[..|s.rows|] == s.rows
    ensures p.BitfieldField? ==>
              DrawF(p, env, s).rows[|s.rows|] == FieldRow(p.info, p.bitOffset, p.bitSize, env)
    ensures !p.BitfieldField? ==>
              DrawF(p, env, s).rows[|s.rows|] == DefaultEntry(p.info, if p.Enum? then EnumStyle else Plain, env)
  {
    var t := DrawF(p, env, s);
    assert t == VisitF(p, env, s);
    var r := t.rows[|s.rows|];
    assert t == Emit(s, r);
    assert t.rows[..|s.rows|] == s.rows;
  }

  /** With a selection, a visible scalar's row is highlighted exactly when the node's
      byte range overlaps the selection. */
  lemma ScalarHighlightFollowsSelection(p: Pattern, env: Env, s: Frame)
    requires IsScalar(p) && !p.info.hidden && env.selection.Some?
    ensures |DrawF(p, env, s).rows| == |s.rows| + 1
    ensures (DrawF(p, env, s).rows[|s.rows|].Highlighted()
             <==> env.overlaps(Region(p.info.offset, p.info.size), env.selection.value))
  {
    ScalarDrawsOneRow(p, env, s);
  }

  /** A visible composite that is not inlined first draws its header, with a toggle
      exactly when it is not sealed. When its tree node is not open, that header is all
      it draws; when it is open, the drawing ends by closing the node. A sealed node is
      never open. */
  lemma HeaderedComposite(p: Pattern, env: Env, s: Frame)
    requires IsComposite(p) && !p.info.hidden && !p.info.inlined
    requires p.IsArray() ==> |p.entries| > 0
    ensures var t := DrawF(p, env, s);
            && |t.rows| > |s.rows| && t.rows[..|s.rows|] == s.rows
            && t.rows[|s.rows|].Header? && t.rows[|s.rows|].id == p.info.id
            && (t.rows[|s.rows|].toggle <==> !p.info.sealed)
    ensures !TreeNodeOpen(p.info, env) ==>
              DrawF(p, env, s).rows == s.rows + [DrawF(p, env, s).rows[|s.rows|]]
              && DrawF(p, env, s).displayEnd == s.displayEnd
    ensures TreeNodeOpen(p.info, env) ==>
              |DrawF(p, env, s).rows| >= |s.rows| + 2
              && DrawF(p, env, s).rows[|DrawF(p, env, s).rows| - 1] == Pop(p.info.id)
  {
    var info := p.info;
    var kind := match p
      case Bitfield(_, _) => BitfieldHeader
      case Struct(_, _) => StructHeader
      case Union(_, _) => UnionHeader
      case Pointer(_, _) => PointerHeader
      case _ => ArrayHeader(|p.entries|);
    var colorShown := if p.Bitfield? || p.Pointer? then true else info.sealed;
    var header := HeaderRow(info, kind, colorShown, env);
    var s1 := Emit(s, header);
    var t := DrawF(p, env, s);
    assert t == VisitF(p, env, s);
    var s2;
    if p.HasMembers() {
      assert t == MemberNodeF(p, kind, colorShown, env, s);
      s2 := MembersF(p, env, 0, s1);
      MembersExtends(p, env, 0, s1);
    } else if p.Pointer? {
      s2 := VisitF(p.pointee, env, s1);
      VisitExtends(p.pointee, env, s1);
    } else {
      assert t == ArrayF(p, env, s);
      s2 := WalkF(p, env, 0, 0, s1);
      WalkExtends(p, env, 0, 0, s1);
    }
    assert t == if TreeNodeOpen(info, env) then Emit(s2, Pop(info.id)) else s1;
    HeaderThenBody(s, header, s2, t, TreeNodeOpen(info, env), info.id);
  }

  /** A header row, a body that only appends, and optionally the closing row. */
  lemma HeaderThenBody(s: Frame, header: Row, s2: Frame, t: Frame, open: bool, id: nat)
    requires |s.rows| + 1 <= |s2.rows| && s2.rows[..|s.rows| + 1] == s.rows + [header]
    requires t == if open then Emit(s2, Pop(id)) else Emit(s, header)
    ensures |t.rows| > |s.rows| && t.rows[..|s.rows|] == s.rows && t.rows[|s.rows|] == header
    ensures !open ==> t.rows == s.rows + [header] && t.displayEnd == s.displayEnd
    ensures open ==> |t.rows| >= |s.rows| + 2 && t.rows[|t.rows| - 1] == Pop(id)
  {
    if open {
      assert t.rows[..|s.rows|] == s2.rows[..|s.rows| + 1][..|s.rows|];
      assert t.rows[|s.rows|] == s2.rows[..|s.rows| + 1][|s.rows|];
    } else {
      assert t.rows[..|s.rows|] == s.rows;
    }
  }

  /** A sealed composite that is not inlined draws exactly one row, its header without a
      toggle, and nothing below it: no children and no closing of a tree node. */
  lemma SealedCompositeDrawsHeaderOnly(p: Pattern, env: Env, s: Frame)
    requires IsComposite(p) && !p.info.hidden && !p.info.inlined && p.info.sealed
    requires p.IsArray() ==> |p.entries| > 0
    ensures |DrawF(p, env, s).rows| == |s.rows| + 1
    ensures DrawF(p, env, s).rows[..|s.rows|] == s.rows
    ensures DrawF(p, env, s).rows[|s.rows|].Header? && !DrawF(p, env, s).rows[|s.rows|].toggle
    ensures DrawF(p, env, s).displayEnd == s.displayEnd
  {
    HeaderedComposite(p, env, s);
  }

  /** An inlined composite draws no header of its own and always draws its children:
      its members, its pointee, or the chunk walk over its entries. Unless it is an
      array, whose chunk rows carry its id, no row it draws belongs to it when its id is
      not reused below it. */
  lemma InlinedCompositeDrawsOnlyChildren(p: Pattern, env: Env, s: Frame)
    requires IsComposite(p) && !p.info.hidden && p.info.inlined
    ensures p.HasMembers() ==> DrawF(p, env, s) == MembersF(p, env, 0, s)
    ensures p.Pointer? ==> DrawF(p, env, s) == VisitF(p.pointee, env, s)
    ensures p.IsArray() && |p.entries| > 0 ==> DrawF(p, env, s) == WalkF(p, env, 0, 0, s)
    ensures !p.IsArray() && p.info.id !in ChildIds(p, 0) ==>
              forall j :: |s.rows| <= j < |DrawF(p, env, s).rows| ==> DrawF(p, env, s).rows[j].id != p.info.id
  {
    assert DrawF(p, env, s) == VisitF(p, env, s);
    if p.HasMembers() {
      var kind := if p.Bitfield? then BitfieldHeader else if p.Struct? then StructHeader else UnionHeader;
      assert VisitF(p, env, s) == MemberNodeF(p, kind, p.Bitfield? || p.info.sealed, env, s);
      MembersExtends(p, env, 0, s);
    } else if p.Pointer? {
      VisitExtends(p.pointee, env, s);
      assert ChildIds(p, 0) == Ids(p.pointee) + ChildIds(p, 1);
    } else {
      assert VisitF(p, env, s) == ArrayF(p, env, s);
    }
  }

  /** Drawing any node only raises chunk limits, leaves those of nodes outside its
      subtree alone, and keeps every limit a positive multiple of the step. */
  lemma DrawKeepsDisplayEnd(p: Pattern, env: Env, s: Frame)
    ensures Grows(s.displayEnd, DrawF(p, env, s).displayEnd)
    ensures forall k :: k in s.displayEnd && k !in Ids(p) ==> DrawF(p, env, s).displayEnd[k] == s.displayEnd[k]
    ensures ValidDisplayEnd(s.displayEnd) ==> ValidDisplayEnd(DrawF(p, env, s).displayEnd)
    ensures forall k :: k in DrawF(p, env, s).displayEnd && !env.loadMoreClicked(k) ==>
              DrawF(p, env, s).displayEnd[k] == if k in s.displayEnd then s.displayEnd[k] else DisplayEndDefault
  {
    DrawExtends(p, env, s);
  }

  /** Without a selection nothing is highlighted. */
  lemma NoSelectionNoHighlight(p: Pattern, env: Env, s: Frame)
    requires env.selection.None?
    ensures forall j :: |s.rows| <= j < |DrawF(p, env, s).rows| ==> !DrawF(p, env, s).rows[j].Highlighted()
  {
    DrawExtends(p, env, s);
  }

  /** The ids of the nodes `ps[j..]` and of everything below them. */
  function TableIds(ps: seq<Pattern>, j: nat): set<nat>
    decreases |ps| - j
  {
    if j >= |ps| then {} else Ids(ps[j]) + TableIds(ps, j + 1)
  }

  lemma {:induction false} DrawAllExtends(ps: seq<Pattern>, env: Env, j: nat, s: Frame)
    ensures Extends(TableIds(ps, j), env, s, DrawAllF(ps, env, j, s))
    decreases |ps| - j
  {
    var ids := TableIds(ps, j);
    if j >= |ps| {
      ExtendsRefl(ids, env, s);
    } else {
      var s1 := DrawF(ps[j], env, s);
      DrawExtends(ps[j], env, s);
      DrawAllExtends(ps, env, j + 1, s1);
      ExtendsTrans(Ids(ps[j]), TableIds(ps, j + 1), ids, env, s, s1, DrawAllF(ps, env, j + 1, s1));
    }
  }

  /** Drawing the whole table only appends rows, each belonging to a node of the table,
      none highlighted without a selection; it only raises chunk limits and keeps each
      a positive multiple of the step. */
  lemma TableKeepsDisplayEnd(ps: seq<Pattern>, env: Env, s: Frame)
    ensures var t := DrawAllF(ps, env, 0, s);
            && |s.rows| <= |t.rows| && t.rows[..|s.rows|] == s.rows
            && (forall j :: |s.rows| <= j < |t.rows| ==> t.rows[j].id in TableIds(ps, 0))
            && (env.selection.None? ==> forall j :: |s.rows| <= j < |t.rows| ==> !t.rows[j].Highlighted())
            && Grows(s.displayEnd, t.displayEnd)
            && (ValidDisplayEnd(s.displayEnd) ==> ValidDisplayEnd(t.displayEnd))
  {
    DrawAllExtends(ps, env, 0, s);
  }
}

/** The two-level pagination of an array: how many chunk-summary rows a walk draws, which
    entries each covers, and when the load-more placeholder follows. */
module Pagination {
  import opened PatternModel
  import opened RowRenderer
  import opened Traversal

  /** The number of chunks of `chunkSize` entries that `n` entries fill, the last one
      possibly partial. */
  function ChunkCount(n: int, c: Positive): nat
    decreases n
  {
    if n <= 0 then 0 else 1 + ChunkCount(n - c, c)
  }

  /** The chunk count is the ceiling of `n / c`. */
  lemma {:induction false} ChunkCountIsCeiling(n: nat, c: Positive)
    ensures ChunkCount(n, c) == (n + c - 1) / c
    decreases n
  {
    if n == 0 {
      DivUnique(c - 1, c, 0, c - 1);
    } else {
      DivShift(n + c - 1, c);
      if n > c {
        ChunkCountIsCeiling(n - c, c);
      } else {
        DivUnique(n - 1, c, 0, n - 1);
      }
    }
  }

  lemma DivShift(x: nat, c: Positive)
    requires x >= c
    ensures x / c == (x - c) / c + 1
  {
    var q := (x - c) / c;
    var r := (x - c) % c;
    MulSucc(q, c);
    DivUnique(x, c, q + 1, r);
  }

  /** Euclidean division has one quotient. */
  lemma DivUnique(x: nat, c: Positive, q: nat, r: nat)
    requires x == q * c + r && r < c
    ensures x / c == q
  {
    var q' := x / c;
    var r' := x % c;
    assert x == q' * c + r';
    if q' < q {
      MulLeft(q' + 1, q, c);
      MulSucc(q', c);
    } else if q < q' {
      MulLeft(q + 1, q', c);
      MulSucc(q, c);
    }
  }

  lemma MulLeft(a: nat, b: nat, c: nat)
    requires a <= b
    ensures a * c <= b * c
  {
  }

  lemma MulSucc(k: nat, c: nat)
    ensures (k + 1) * c == k * c + c
  {
  }

  /** What a node's own chunk walk shows, as entry ranges: a chunk summary over entries
      `firstIndex` to `lastIndex`, or the load-more placeholder. */
  datatype Shown = ChunkShown(firstIndex: nat, lastIndex: nat) | MoreShown

  /** The walk's own rows of node `id` among `rows`, as entry ranges: its chunk summaries
      and its placeholder, in order; every other row is dropped. */
  function Summaries(rows: seq<Row>, id: nat): seq<Shown>
  {
    if rows == [] then []
    else
      var row := rows[0];
      var head :=
        if row.ChunkSummary? && row.id == id then [ChunkShown(row.firstIndex, row.lastIndex)]
        else if row.LoadMore? && row.id == id then [MoreShown]
        else [];
      head + Summaries(rows[1..], id)
  }

  lemma {:induction false} SummariesAppend(a: seq<Row>, b: seq<Row>, id: nat)
    ensures Summaries(a + b, id) == Summaries(a, id) + Summaries(b, id)
  {
    if a == [] {
      assert a + b == b;
    } else {
      assert (a + b)[1..] == a[1..] + b;
      SummariesAppend(a[1..], b, id);
    }
  }

  lemma {:induction false} SummariesForeign(rows: seq<Row>, id: nat)
    requires forall j :: 0 <= j < |rows| ==> rows[j].id != id
    ensures Summaries(rows, id) == []
  {
    if rows != [] {
      SummariesForeign(rows[1..], id);
    }
  }

  /** Summaries over two successive extensions of a row sequence concatenate. */
  lemma SummariesConcat(a: seq<Row>, b: seq<Row>, c: seq<Row>, id: nat)
    requires |a| <= |b| && b[..|a|] == a
    requires |b| <= |c| && c[..|b|] == b
    ensures Summaries(c[|a|..], id) == Summaries(b[|a|..], id) + Summaries(c[|b|..], id)
  {
    assert c[|a|..] == b[|a|..] + c[|b|..] by {
      assert c == b + c[|b|..];
      assert b == a + b[|a|..];
    }
    SummariesAppend(b[|a|..], c[|b|..], id);
  }

  /** A header before and a closing after some rows add nothing to the node's summaries. */
  lemma EnclosedSummaries(s: seq<Row>, header: Row, s2: seq<Row>, id: nat)
    requires header.Header?
    requires |s| + 1 <= |s2| && s2[..|s| + 1] == s + [header]
    ensures Summaries((s2 + [Pop(id)])[|s|..], id) == Summaries(s2[|s| + 1..], id)
  {
    var mid := s2[|s| + 1..];
    assert (s2 + [Pop(id)])[|s|..] == [header] + mid + [Pop(id)] by {
      assert s2 == s + [header] + mid;
    }
    SummariesAppend([header] + mid, [Pop(id)], id);
    SummariesAppend([header], mid, id);
  }

  // ----- The expected walk, on entry ranges alone -----

  /** The entry ranges of at most `count` chunks of `c` entries out of `n`, from entry `i`
      on; the last chunk ends at the last entry. */
  function ChunkSpans(n: nat, c: Positive, i: nat, count: nat): seq<Shown>
    decreases count
  {
    if count == 0 || i >= n then []
    else [ChunkShown(i, Min(n, i + c) - 1)] + ChunkSpans(n, c, i + c, count - 1)
  }

  /** Whether entries are left from entry `i` on after `count` chunks. */
  function Truncated(n: nat, c: Positive, i: nat, count: nat): bool
    decreases count
  {
    if i >= n then false
    else if count == 0 then true
    else Truncated(n, c, i + c, count - 1)
  }

  /** From entry `i` on, `count` chunks give `min(chunks left, count)` ranges, and entries
      are left over exactly when more chunks are left than `count`. */
  lemma {:induction false} ChunkSpansLength(n: nat, c: Positive, i: nat, count: nat)
    ensures |ChunkSpans(n, c, i, count)| == Min(ChunkCount(n - i, c), count)
    ensures Truncated(n, c, i, count) <==> ChunkCount(n - i, c) > count
    decreases count
  {
    if count > 0 && i < n {
      ChunkSpansLength(n, c, i + c, count - 1);
      assert n - i - c == n - (i + c);
    }
  }

  /** The `j`-th range from entry `i` on starts at entry `first`, which is `i + j * c`. */
  lemma {:induction false} ChunkSpansFrom(n: nat, c: Positive, i: nat, count: nat, j: nat, first: nat)
    requires j < |ChunkSpans(n, c, i, count)| && first == i + j * c
    ensures first < n
    ensures ChunkSpans(n, c, i, count)[j] == ChunkShown(first, Min(n, first + c) - 1)
    decreases j
  {
    if j > 0 {
      var rest := ChunkSpans(n, c, i + c, count - 1);
      assert ChunkSpans(n, c, i, count) == [ChunkShown(i, Min(n, i + c) - 1)] + rest;
      MulSucc(j - 1, c);
      ChunkSpansFrom(n, c, i + c, count - 1, j - 1, first);
    }
  }

  /** The `j`-th range from entry `i` on covers the chunk that starts at entry
      `i + j * c`: up to `c` entries, fewer only for the last chunk. */
  lemma ChunkSpansAt(n: nat, c: Positive, i: nat, count: nat, j: nat)
    requires j < |ChunkSpans(n, c, i, count)|
    ensures i + j * c < n
    ensures ChunkSpans(n, c, i, count)[j] == ChunkShown(i + j * c, Min(n, i + j * c + c) - 1)
  {
    ChunkSpansFrom(n, c, i, count, j, i + j * c);
  }

  // ----- The walk against the expected walk -----

  /** The entries of a chunk draw no row of the array itself, as long as no entry below
      the array reuses the array's id. */
  lemma RangeShowsNothing(p: Pattern, env: Env, i: nat, e: nat, s: Frame)
    requires p.IsArray() && e <= |p.entries| && p.info.id !in ChildIds(p, 0)
    ensures |s.rows| <= |RangeF(p, env, i, e, s).rows|
    ensures RangeF(p, env, i, e, s).rows == s.rows + RangeF(p, env, i, e, s).rows[|s.rows|..]
    ensures Summaries(RangeF(p, env, i, e, s).rows[|s.rows|..], p.info.id) == []
    ensures s.displayEnd.Keys <= RangeF(p, env, i, e, s).displayEnd.Keys
    ensures forall k :: k in s.displayEnd && k !in ChildIds(p, 0) ==> RangeF(p, env, i, e, s).displayEnd[k] == s.displayEnd[k]
  {
    var t := RangeF(p, env, i, e, s);
    RangeExtends(p, env, i, e, s);
    var mid := t.rows[|s.rows|..];
    forall j | 0 <= j < |mid|
      ensures mid[j].id != p.info.id
    {
      assert mid[j] == t.rows[|s.rows| + j];
    }
    SummariesForeign(mid, p.info.id);
    assert t.rows == t.rows[..|s.rows|] + mid;
  }

  /** The summary of one chunk, as an entry range. */
  lemma ChunkRowShows(p: Pattern, i: nat, e: nat, env: Env)
    requires p.IsArray() && i < e <= |p.entries|
    ensures Summaries([ChunkRow(p, i, e, env)], p.info.id) == [ChunkShown(i, e - 1)]
  {
    assert [ChunkRow(p, i, e, env)][1..] == [];
  }

  /** A chunk row, rows of other nodes, and the chunk's closing show the chunk alone. */
  lemma ChunkBlockShows(s: seq<Row>, row: Row, mid: seq<Row>, t: seq<Row>, id: nat, firstIndex: nat)
    requires t == s + [row] + mid + [ChunkPop(id, firstIndex)]
    requires Summaries(mid, id) == []
    ensures |s| <= |t| && t[..|s|] == s
    ensures Summaries(t[|s|..], id) == Summaries([row], id)
  {
    assert t[|s|..] == [row] + mid + [ChunkPop(id, firstIndex)];
    SummariesAppend([row] + mid, [ChunkPop(id, firstIndex)], id);
    SummariesAppend([row], mid, id);
  }

  /** One chunk draws one summary row of its own and leaves the node's limit alone, as long
      as no entry below the array reuses the array's id. */
  lemma ChunkSummaries(p: Pattern, env: Env, i: nat, s: Frame)
    requires p.IsArray() && i < |p.entries| && p.info.id !in ChildIds(p, 0)
    requires p.info.id in s.displayEnd
    ensures |s.rows| <= |ChunkF(p, env, i, s).rows|
    ensures ChunkF(p, env, i, s).rows[..|s.rows|] == s.rows
    ensures Summaries(ChunkF(p, env, i, s).rows[|s.rows|..], p.info.id)
              == [ChunkShown(i, Min(|p.entries|, i + env.chunkSize) - 1)]
    ensures p.info.id in ChunkF(p, env, i, s).displayEnd
    ensures ChunkF(p, env, i, s).displayEnd[p.info.id] == s.displayEnd[p.info.id]
  {
    var id := p.info.id;
    var e := Min(|p.entries|, i + env.chunkSize);
    var row := ChunkRow(p, i, e, env);
    var s1 := Emit(s, row);
    var t := ChunkF(p, env, i, s);
    ChunkRowShows(p, i, e, env);
    if env.treeOpen(ChunkOf(id, i)) {
      var s2 := RangeF(p, env, i, e, s1);
      assert t == Emit(s2, ChunkPop(id, i));
      RangeShowsNothing(p, env, i, e, s1);
      ChunkBlockShows(s.rows, row, s2.rows[|s1.rows|..], t.rows, id, i);
    } else {
      assert t == s1;
      assert t.rows[..|s.rows|] == s.rows;
      assert t.rows[|s.rows|..] == [row];
    }
  }

  /** A walk only appends rows. */
  lemma WalkPrefix(p: Pattern, env: Env, i: nat, chunkCount: nat, s: Frame)
    requires p.IsArray()
    ensures |s.rows| <= |WalkF(p, env, i, chunkCount, s).rows|
    ensures WalkF(p, env, i, chunkCount, s).rows[..|s.rows|] == s.rows
  {
    WalkExtends(p, env, i, chunkCount, s);
  }

  /** What a walk over `n` entries in chunks of `c`, from entry `i` with `budget` chunks
      left under the limit `d` of node `id`, shows in `t` after `s`: the ranges of those
      chunks, then the placeholder if entries are left; the limit grows by a step only
      when the placeholder is shown and `clicked`. */
  ghost predicate ShowsBudget(id: nat, n: nat, c: Positive, clicked: bool, i: nat, budget: nat, s: Frame, t: Frame, d: nat)
  {
    var truncated := Truncated(n, c, i, budget);
    && |s.rows| <= |t.rows| && t.rows[..|s.rows|] == s.rows
    && Summaries(t.rows[|s.rows|..], id) == ChunkSpans(n, c, i, budget) + (if truncated then [MoreShown] else [])
    && id in t.displayEnd
    && t.displayEnd[id] == d + (if truncated && clicked then DisplayEndStep else 0)
  }

  /** What the walk from entry `i` at chunk count `k` shows for its node, whose limit is `d`. */
  ghost predicate WalkShows(p: Pattern, env: Env, i: nat, k: nat, s: Frame, d: nat)
    requires p.IsArray() && k <= d
  {
    ShowsBudget(p.info.id, |p.entries|, env.chunkSize, env.loadMoreClicked(p.info.id), i, d - k, s,
                WalkF(p, env, i, k, s), d)
  }

  /** The walk reaches its limit with entries left: it shows only the placeholder. */
  lemma WalkAtLimit(p: Pattern, env: Env, i: nat, k: nat, s: Frame)
    requires p.IsArray() && p.info.id in s.displayEnd
    requires k == s.displayEnd[p.info.id] && i < |p.entries|
    ensures WalkShows(p, env, i, k, s, k)
  {
    var id := p.info.id;
    var t := WalkF(p, env, i, k, s);
    var lookup := DisplayEndLookup(s.displayEnd, id);
    assert lookup == (k, s.displayEnd);
    assert Frame(s.rows, lookup.1) == s;
    assert t == PlaceholderF(env, id, k, s);
    assert t.rows[..|s.rows|] == s.rows;
    assert t.rows[|s.rows|..] == [LoadMore(id)];
  }

  /** The walk below its limit with entries left draws the chunk at `i` and goes on. */
  lemma WalkBelowLimit(p: Pattern, env: Env, i: nat, k: nat, s: Frame)
    requires p.IsArray() && p.info.id !in ChildIds(p, 0) && p.info.id in s.displayEnd
    requires k < s.displayEnd[p.info.id] && i < |p.entries|
    ensures var s1 := ChunkF(p, env, i, s);
            && WalkF(p, env, i, k, s) == WalkF(p, env, i + env.chunkSize, k + 1, s1)
            && |s.rows| <= |s1.rows| && s1.rows[..|s.rows|] == s.rows
            && Summaries(s1.rows[|s.rows|..], p.info.id) == [ChunkShown(i, Min(|p.entries|, i + env.chunkSize) - 1)]
            && p.info.id in s1.displayEnd && s1.displayEnd[p.info.id] == s.displayEnd[p.info.id]
  {
    var id := p.info.id;
    var lookup := DisplayEndLookup(s.displayEnd, id);
    assert lookup == (s.displayEnd[id], s.displayEnd);
    assert Frame(s.rows, lookup.1) == s;
    ChunkSummaries(p, env, i, s);
  }

  /** The walk past the last entry shows nothing. */
  lemma WalkPastEnd(p: Pattern, env: Env, i: nat, k: nat, s: Frame, d: nat)
    requires p.IsArray() && i >= |p.entries| && k <= d
    requires p.info.id in s.displayEnd && d == s.displayEnd[p.info.id]
    ensures WalkShows(p, env, i, k, s, d)
  {
    assert WalkF(p, env, i, k, s) == s;
    assert s.rows[..|s.rows|] == s.rows;
    assert s.rows[|s.rows|..] == [];
  }

  /** One chunk range followed by what the rest of the walk shows is what the walk shows
      with one more chunk of budget. */
  lemma ShowsBudgetStep(id: nat, n: nat, c: Positive, clicked: bool, i: nat, budget: nat, s: Frame, s1: Frame, t: Frame, d: nat)
    requires i < n && budget > 0
    requires |s.rows| <= |s1.rows| && s1.rows[..|s.rows|] == s.rows
    requires Summaries(s1.rows[|s.rows|..], id) == [ChunkShown(i, Min(n, i + c) - 1)]
    requires ShowsBudget(id, n, c, clicked, i + c, budget - 1, s1, t, d)
    ensures ShowsBudget(id, n, c, clicked, i, budget, s, t, d)
  {
    assert Truncated(n, c, i, budget) == Truncated(n, c, i + c, budget - 1);
    assert ChunkSpans(n, c, i, budget) == [ChunkShown(i, Min(n, i + c) - 1)] + ChunkSpans(n, c, i + c, budget - 1);
    SummariesConcat(s.rows, s1.rows, t.rows, id);
    assert t.rows[..|s.rows|] == t.rows[..|s1.rows|][..|s.rows|];
  }

  /** The chunk case of the walk: the chunk at `i`, then what the rest of the walk shows. */
  lemma WalkShowsStep(p: Pattern, env: Env, i: nat, k: nat, s: Frame)
    requires p.IsArray() && p.info.id !in ChildIds(p, 0) && p.info.id in s.displayEnd
    requires k < s.displayEnd[p.info.id] && i < |p.entries|
    requires WalkShows(p, env, i + env.chunkSize, k + 1, ChunkF(p, env, i, s), s.displayEnd[p.info.id])
    ensures WalkShows(p, env, i, k, s, s.displayEnd[p.info.id])
  {
    var d := s.displayEnd[p.info.id];
    var s1 := ChunkF(p, env, i, s);
    WalkBelowLimit(p, env, i, k, s);
    ShowsBudgetStep(p.info.id, |p.entries|, env.chunkSize, env.loadMoreClicked(p.info.id), i, d - k, s, s1,
                    WalkF(p, env, i + env.chunkSize, k + 1, s1), d);
  }

  /** The walk from entry `i` at chunk count `k`, given that the node already has a limit
      `d` not below `k`, shows what `WalkShows` states. */
  lemma {:induction false} WalkSummaries(p: Pattern, env: Env, i: nat, k: nat, s: Frame)
    requires p.IsArray() && p.info.id !in ChildIds(p, 0)
    requires p.info.id in s.displayEnd && k <= s.displayEnd[p.info.id]
    ensures WalkShows(p, env, i, k, s, s.displayEnd[p.info.id])
    decreases |p.entries| - i
  {
    var d := s.displayEnd[p.info.id];
    if i >= |p.entries| {
      WalkPastEnd(p, env, i, k, s, d);
    } else if k == d {
      WalkAtLimit(p, env, i, k, s);
    } else {
      ChunkSummaries(p, env, i, s);
      WalkSummaries(p, env, i + env.chunkSize, k + 1, ChunkF(p, env, i, s));
      WalkShowsStep(p, env, i, k, s);
    }
  }

  /** The first step of the walk creates the node's limit; the walk is the same as one
      started from a frame that already holds that limit. */
  lemma WalkFromCreatedLimit(p: Pattern, env: Env, s: Frame)
    requires p.IsArray() && |p.entries| > 0
    ensures var lookup := DisplayEndLookup(s.displayEnd, p.info.id);
            WalkF(p, env, 0, 0, s) == WalkF(p, env, 0, 0, Frame(s.rows, lookup.1))
  {
    var lookup := DisplayEndLookup(s.displayEnd, p.info.id);
    assert DisplayEndLookup(lookup.1, p.info.id) == lookup;
  }

  /** A walk with the whole limit `d` as its budget, from the first entry. */
  lemma ShowsWholeBudget(id: nat, n: nat, c: Positive, clicked: bool, d: nat, s: Frame, t: Frame)
    requires ShowsBudget(id, n, c, clicked, 0, d, s, t, d)
    ensures var count := ChunkCount(n, c);
            && |s.rows| <= |t.rows|
            && Summaries(t.rows[|s.rows|..], id) == ChunkSpans(n, c, 0, d) + (if count > d then [MoreShown] else [])
            && |ChunkSpans(n, c, 0, d)| == Min(count, d)
            && id in t.displayEnd
            && t.displayEnd[id] == d + (if count > d && clicked then DisplayEndStep else 0)
  {
    ChunkSpansLength(n, c, 0, d);
  }

  /** The whole walk of an array of `N` entries in `n` chunks, from any frame: with `d`
      the node's limit (the stored one, or the default for a node seen the first time), it
      shows the first `min(n, d)` chunks in order, then the placeholder exactly when
      `n > d`, and leaves the limit `d`, one step more when the placeholder was
      double-clicked. */
  lemma WalkPagination(p: Pattern, env: Env, s: Frame)
    requires p.IsArray() && |p.entries| > 0 && p.info.id !in ChildIds(p, 0)
    ensures var t := WalkF(p, env, 0, 0, s);
            var d := DisplayEndLookup(s.displayEnd, p.info.id).0;
            var n := ChunkCount(|p.entries|, env.chunkSize);
            && |s.rows| <= |t.rows|
            && Summaries(t.rows[|s.rows|..], p.info.id)
                 == ChunkSpans(|p.entries|, env.chunkSize, 0, d) + (if n > d then [MoreShown] else [])
            && |ChunkSpans(|p.entries|, env.chunkSize, 0, d)| == Min(n, d)
            && p.info.id in t.displayEnd
            && t.displayEnd[p.info.id] == d + (if n > d && env.loadMoreClicked(p.info.id) then DisplayEndStep else 0)
  {
    var lookup := DisplayEndLookup(s.displayEnd, p.info.id);
    var s' := Frame(s.rows, lookup.1);
    WalkFromCreatedLimit(p, env, s);
    WalkSummaries(p, env, 0, 0, s');
    ShowsWholeBudget(p.info.id, |p.entries|, env.chunkSize, env.loadMoreClicked(p.info.id), lookup.0,
                     s', WalkF(p, env, 0, 0, s'));
  }

  /** A visible, open, non-empty array draws its header unless inlined, the walk, and its
      closing unless inlined. */
  lemma OpenArrayDraws(p: Pattern, env: Env, s: Frame)
    requires p.IsArray() && !p.info.hidden && |p.entries| > 0
    requires p.info.inlined || TreeNodeOpen(p.info, env)
    ensures p.info.inlined ==> DrawF(p, env, s) == WalkF(p, env, 0, 0, s)
    ensures !p.info.inlined ==>
              var s1 := Emit(s, HeaderRow(p.info, ArrayHeader(|p.entries|), p.info.sealed, env));
              DrawF(p, env, s) == Emit(WalkF(p, env, 0, 0, s1), Pop(p.info.id))
  {
    assert DrawF(p, env, s) == VisitF(p, env, s) == ArrayF(p, env, s);
  }

  /** What `WalkPagination` states, for the frame `t` reached from `s`. */
  ghost predicate Paginated(p: Pattern, env: Env, s: Frame, t: Frame)
    requires p.IsArray()
  {
    var d := DisplayEndLookup(s.displayEnd, p.info.id).0;
    var n := ChunkCount(|p.entries|, env.chunkSize);
    && |s.rows| <= |t.rows|
    && Summaries(t.rows[|s.rows|..], p.info.id)
         == ChunkSpans(|p.entries|, env.chunkSize, 0, d) + (if n > d then [MoreShown] else [])
    && |ChunkSpans(|p.entries|, env.chunkSize, 0, d)| == Min(n, d)
    && p.info.id in t.displayEnd
    && t.displayEnd[p.info.id] == d + (if n > d && env.loadMoreClicked(p.info.id) then DisplayEndStep else 0)
  }

  /** The header before the walk and the closing after it change nothing of `Paginated`. */
  lemma HeaderedPagination(p: Pattern, env: Env, s: Frame, header: Row)
    requires p.IsArray() && |p.entries| > 0 && p.info.id !in ChildIds(p, 0) && header.Header?
    ensures Paginated(p, env, s, Emit(WalkF(p, env, 0, 0, Emit(s, header)), Pop(p.info.id)))
  {
    var s1 := Emit(s, header);
    var s2 := WalkF(p, env, 0, 0, s1);
    assert DisplayEndLookup(s1.displayEnd, p.info.id) == DisplayEndLookup(s.displayEnd, p.info.id);
    WalkPagination(p, env, s1);
    WalkPrefix(p, env, 0, 0, s1);
    EnclosedSummaries(s.rows, header, s2.rows, p.info.id);
  }

  /** The pagination of a visible, open array: the summary and placeholder rows it draws
      of its own are those `WalkPagination` states, and so is the node's limit
      afterwards. */
  lemma ArrayPagination(p: Pattern, env: Env, s: Frame)
    requires p.IsArray() && !p.info.hidden && |p.entries| > 0
    requires p.info.inlined || TreeNodeOpen(p.info, env)
    requires p.info.id !in ChildIds(p, 0)
    ensures var t := DrawF(p, env, s);
            var d := DisplayEndLookup(s.displayEnd, p.info.id).0;
            var n := ChunkCount(|p.entries|, env.chunkSize);
            && |s.rows| <= |t.rows|
            && Summaries(t.rows[|s.rows|..], p.info.id)
                 == ChunkSpans(|p.entries|, env.chunkSize, 0, d) + (if n > d then [MoreShown] else [])
            && |ChunkSpans(|p.entries|, env.chunkSize, 0, d)| == Min(n, d)
            && p.info.id in t.displayEnd
            && t.displayEnd[p.info.id] == d + (if n > d && env.loadMoreClicked(p.info.id) then DisplayEndStep else 0)
  {
    OpenArrayDraws(p, env, s);
    if p.info.inlined {
      WalkPagination(p, env, s);
    } else {
      HeaderedPagination(p, env, s, HeaderRow(p.info, ArrayHeader(|p.entries|), p.info.sealed, env));
      assert Paginated(p, env, s, DrawF(p, env, s));
    }
  }

  /** 120 entries in chunks of 50 make three chunks: with a limit of one chunk the walk
      shows entries 0 to 49 and then the placeholder; with a limit of three it shows 0 to
      49, 50 to 99 and 100 to 119, and no placeholder. */
  lemma PaginationOf120()
    ensures ChunkCount(120, 50) == 3
    ensures ChunkSpans(120, 50, 0, 1) == [ChunkShown(0, 49)] && Truncated(120, 50, 0, 1)
    ensures ChunkSpans(120, 50, 0, 3) == [ChunkShown(0, 49), ChunkShown(50, 99), ChunkShown(100, 119)]
    ensures !Truncated(120, 50, 0, 3)
  {
    assert ChunkCount(20, 50) == 1 + ChunkCount(-30, 50);
    assert ChunkCount(70, 50) == 1 + ChunkCount(20, 50);
    ChunkSpansLength(120, 50, 0, 3);
    ChunkSpansLength(120, 50, 0, 1);
  }
}

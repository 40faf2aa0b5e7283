/**
 The parent chain behind `frame_viewport_offset`: from a target frame through the listed
 parents to its top-level frame. The loop has no guard. It ends from every target exactly
 when no frames lead only to each other, which nesting without repeated ids rules out; on
 the walk of a forest with distinct context ids it is the graph's path to the root.
 */
module FrameViewport {
  import opened Wrappers
  import opened Sequences
  import opened FrameForest
  import opened FrameTraversal

  /** Where a context id is found: the last position that carries it. */
  function Locate(tree: seq<FrameTreeNode>, id: string): (at: Option<nat>)
    ensures at.Some? ==> at.value < |tree| && tree[at.value].id == id
    ensures at.None? ==> forall i | 0 <= i < |tree| :: tree[i].id != id
  {
    if tree == [] then None
    else if tree[|tree| - 1].id == id then Some(|tree| - 1)
    else Locate(tree[..|tree| - 1], id)
  }

  /** One turn of the loop. */
  function Above(tree: seq<FrameTreeNode>, i: nat): Option<nat>
    requires i < |tree|
  {
    if tree[i].parent.None? then None else Locate(tree, tree[i].parent.value)
  }

  // ------------------------------------------------------------------ the loop

  /** Where the loop stands after `n` turns from `cur`; nothing once it has ended. */
  function Climb(tree: seq<FrameTreeNode>, cur: Option<nat>, n: nat): (at: Option<nat>)
    requires cur.Some? ==> cur.value < |tree|
    ensures at.Some? ==> at.value < |tree|
    decreases n
  {
    if n == 0 then cur
    else
      var before := Climb(tree, cur, n - 1);
      if before.None? then None else Above(tree, before.value)
  }

  ghost predicate Ends(tree: seq<FrameTreeNode>, cur: Option<nat>)
    requires cur.Some? ==> cur.value < |tree|
  {
    exists n: nat :: Climb(tree, cur, n).None?
  }

  lemma ClimbOn(tree: seq<FrameTreeNode>, cur: Option<nat>, n: nat)
    requires cur.Some? ==> cur.value < |tree|
    ensures Climb(tree, cur, n + 1)
            == if Climb(tree, cur, n).None? then None else Above(tree, Climb(tree, cur, n).value)
  {
    hide Above;
  }

  lemma {:induction false} EndedStays(tree: seq<FrameTreeNode>, cur: Option<nat>, n: nat, m: nat)
    requires cur.Some? ==> cur.value < |tree|
    requires n <= m && Climb(tree, cur, n).None?
    ensures Climb(tree, cur, m).None?
    decreases m
  {
    if n == m {
    } else {
      EndedStays(tree, cur, n, m - 1);
    }
  }

  function Lookup(byId: map<string, nat>, id: string): Option<nat> {
    if id in byId then Some(byId[id]) else None
  }

  /** The loop stands at this frame after `n` turns. */
  ghost predicate StandsAt(tree: seq<FrameTreeNode>, start: Option<nat>, n: nat, frame: FrameTreeNode)
    requires start.Some? ==> start.value < |tree|
  {
    Climb(tree, start, n).Some? && frame == tree[Climb(tree, start, n).value]
  }

  /** The chain lists the frames the loop stands at, turn by turn. */
  ghost predicate Follows(tree: seq<FrameTreeNode>, start: Option<nat>, chain: seq<FrameTreeNode>)
    requires start.Some? ==> start.value < |tree|
  {
    forall k | 0 <= k < |chain| :: StandsAt(tree, start, k, chain[k])
  }

  /** The frames on the way up from the target, as long as the loop ends at all. */
  method ViewportChain(tree: seq<FrameTreeNode>, target: string) returns (chain: seq<FrameTreeNode>)
    requires Ends(tree, Locate(tree, target))
    ensures Follows(tree, Locate(tree, target), chain)
    ensures Climb(tree, Locate(tree, target), |chain|).None?
  {
    hide Locate, Above, Climb, Follows;
    var byId := Positions(tree);
    chain := [];
    ghost var start := Locate(tree, target);
    ghost var turns: nat :| Climb(tree, start, turns).None?;
    var cur := Lookup(byId, target);
    NoTurns(tree, start);
    while cur.Some?
      invariant cur == Climb(tree, start, |chain|)
      invariant Follows(tree, start, chain)
      decreases turns - |chain|
    {
      var i := cur.value;
      OneTurn(tree, start, chain, i);
      StillClimbing(tree, start, turns, |chain|);
      chain := chain + [tree[i]];
      cur := if tree[i].parent.Some? then Lookup(byId, tree[i].parent.value) else None;
    }
  }

  lemma NoTurns(tree: seq<FrameTreeNode>, start: Option<nat>)
    requires start.Some? ==> start.value < |tree|
    ensures Climb(tree, start, 0) == start && Follows(tree, start, [])
  {
  }

  lemma OneTurn(tree: seq<FrameTreeNode>, start: Option<nat>, chain: seq<FrameTreeNode>, i: nat)
    requires start.Some? ==> start.value < |tree|
    requires Follows(tree, start, chain) && Climb(tree, start, |chain|) == Some(i)
    ensures Follows(tree, start, chain + [tree[i]])
    ensures Climb(tree, start, |chain| + 1)
            == if tree[i].parent.Some? then Locate(tree, tree[i].parent.value) else None
  {
    hide Climb, Locate, Follows;
    ClimbOn(tree, start, |chain|);
    assert StandsAt(tree, start, |chain|, tree[i]);
    FollowsOn(tree, start, chain, tree[i]);
  }

  lemma FollowsOn(tree: seq<FrameTreeNode>, start: Option<nat>, chain: seq<FrameTreeNode>, frame: FrameTreeNode)
    requires start.Some? ==> start.value < |tree|
    requires Follows(tree, start, chain) && StandsAt(tree, start, |chain|, frame)
    ensures Follows(tree, start, chain + [frame])
  {
    hide StandsAt;
  }

  lemma StillClimbing(tree: seq<FrameTreeNode>, cur: Option<nat>, turns: nat, n: nat)
    requires cur.Some? ==> cur.value < |tree|
    requires Climb(tree, cur, turns).None? && Climb(tree, cur, n).Some?
    ensures n < turns
  {
    if turns <= n {
      EndedStays(tree, cur, turns, n);
    }
  }

  method Positions(tree: seq<FrameTreeNode>) returns (byId: map<string, nat>)
    ensures forall id :: Lookup(byId, id) == Locate(tree, id)
  {
    byId := map[];
    for i := 0 to |tree|
      invariant forall id :: Lookup(byId, id) == Locate(tree[..i], id)
    {
      assert tree[..i + 1][..i] == tree[..i];
      byId := byId[tree[i].id := i];
    }
    assert tree[..|tree|] == tree;
  }

  // ------------------------------------------------------------------ exactly when it ends

  /** Positions from which one turn of the loop never leaves the set. */
  predicate Closed(tree: seq<FrameTreeNode>, s: set<nat>) {
    s != {} && forall i | i in s :: i < |tree| && Above(tree, i).Some? && Above(tree, i).value in s
  }

  lemma {:induction false} ClosedKeeps(tree: seq<FrameTreeNode>, s: set<nat>, i: nat, n: nat)
    requires Closed(tree, s) && i in s
    ensures Climb(tree, Some(i), n).Some? && Climb(tree, Some(i), n).value in s
    decreases n
  {
    hide Above;
    if n == 0 {
    } else {
      ClosedKeeps(tree, s, i, n - 1);
    }
  }

  /** The loop is somewhere on the way up at this position. */
  ghost predicate Visits(tree: seq<FrameTreeNode>, cur: Option<nat>, at: nat)
    requires cur.Some? ==> cur.value < |tree|
  {
    exists n: nat :: Climb(tree, cur, n) == Some(at)
  }

  /** Where a loop that never ends goes is closed. */
  lemma EndlessIsClosed(tree: seq<FrameTreeNode>, i: nat) returns (s: set<nat>)
    requires i < |tree| && !Ends(tree, Some(i))
    ensures Closed(tree, s) && i in s
  {
    hide Above;
    s := set at: nat | at < |tree| && Visits(tree, Some(i), at);
    assert Climb(tree, Some(i), 0) == Some(i);
    assert Visits(tree, Some(i), i);
    assert i in s;
    forall at | at in s
      ensures Above(tree, at).Some? && Above(tree, at).value in s
    {
      var n: nat :| Climb(tree, Some(i), n) == Some(at);
      assert Climb(tree, Some(i), n + 1) == Above(tree, at);
      assert Climb(tree, Some(i), n + 1).Some?;
      assert Visits(tree, Some(i), Above(tree, at).value);
    }
  }

  /** The loop ends from every target exactly when no frames lead only to each other. */
  lemma LoopEndsExactly(tree: seq<FrameTreeNode>)
    ensures (forall target :: Ends(tree, Locate(tree, target))) <==> forall s: set<nat> :: !Closed(tree, s)
  {
    hide Closed, Locate, Above, Ends;
    if s: set<nat> :| Closed(tree, s) {
      var target := ClosedTarget(tree, s);
      assert !Ends(tree, Locate(tree, target));
    }
    if target: string :| !Ends(tree, Locate(tree, target)) {
      NowhereEnds(tree);
      var s := EndlessIsClosed(tree, Locate(tree, target).value);
      assert Closed(tree, s);
    }
  }

  lemma NowhereEnds(tree: seq<FrameTreeNode>)
    ensures Ends(tree, None)
  {
    assert Climb(tree, None, 0).None?;
  }

  lemma ClosedTarget(tree: seq<FrameTreeNode>, s: set<nat>) returns (target: string)
    requires Closed(tree, s)
    ensures !Ends(tree, Locate(tree, target))
  {
    hide Climb, Locate;
    var i :| i in s;
    target := tree[i].parent.value;
    var j := Locate(tree, target).value;
    forall n: nat
      ensures Climb(tree, Some(j), n).Some?
    {
      ClosedKeeps(tree, s, j, n);
    }
  }

  function Positioned(tree: seq<FrameTreeNode>, cur: Option<nat>, n: nat): (at: seq<nat>)
    requires (cur.Some? ==> cur.value < |tree|) && Climb(tree, cur, n).Some?
    requires forall k | 0 <= k < n :: Climb(tree, cur, k).Some?
    ensures |at| == n + 1 && forall k | 0 <= k <= n :: Climb(tree, cur, k) == Some(at[k])
  {
    seq(n + 1, k requires 0 <= k <= n => Climb(tree, cur, k).value)
  }

  /** A loop that comes back to a position never ends. */
  lemma {:induction false} ReturningIsEndless(tree: seq<FrameTreeNode>, cur: Option<nat>, i: nat, j: nat, n: nat)
    requires cur.Some? ==> cur.value < |tree|
    requires i < j && Climb(tree, cur, i) == Climb(tree, cur, j) && Climb(tree, cur, j).Some?
    ensures Climb(tree, cur, n).Some?
    decreases n
  {
    hide Climb;
    if n <= j {
      if Climb(tree, cur, n).None? {
        EndedStays(tree, cur, n, j);
      }
    } else {
      var m := n - j;
      Repeats(tree, cur, i, j, m);
      ReturningIsEndless(tree, cur, i, j, i + m);
    }
  }

  lemma {:induction false} Repeats(tree: seq<FrameTreeNode>, cur: Option<nat>, i: nat, j: nat, n: nat)
    requires cur.Some? ==> cur.value < |tree|
    requires Climb(tree, cur, i) == Climb(tree, cur, j)
    ensures Climb(tree, cur, i + n) == Climb(tree, cur, j + n)
    decreases n
  {
    hide Climb, Above;
    if n == 0 {
    } else {
      Repeats(tree, cur, i, j, n - 1);
      ClimbOn(tree, cur, i + (n - 1));
      ClimbOn(tree, cur, j + (n - 1));
    }
  }

  /** From one target: the loop ends exactly when it has ended after as many turns as
      there are frames. */
  lemma EndsWithinLength(tree: seq<FrameTreeNode>, cur: Option<nat>)
    requires cur.Some? ==> cur.value < |tree|
    ensures Ends(tree, cur) <==> Climb(tree, cur, |tree|).None?
  {
    hide Above;
    var n := |tree|;
    if Climb(tree, cur, n).Some? {
      forall k | 0 <= k < n
        ensures Climb(tree, cur, k).Some?
      {
        if Climb(tree, cur, k).None? {
          EndedStays(tree, cur, k, n);
        }
      }
      var at := Positioned(tree, cur, n);
      if Distinct(at) {
        DistinctFits(at, n);
      }
      var i, j :| 0 <= i < j <= n && at[i] == at[j];
      forall m: nat
        ensures Climb(tree, cur, m).Some?
      {
        ReturningIsEndless(tree, cur, i, j, m);
      }
    }
  }

  // ------------------------------------------------------------------ no repeats in the nesting

  /** Frame `j` is an ancestor of frame `k`: whatever is listed up to `k` is deeper. */
  predicate Encloses(tree: seq<FrameTreeNode>, j: nat, k: nat) {
    j < k < |tree| && forall m | j < m <= k :: tree[m].depth > tree[j].depth
  }

  /** No frame is nested inside a frame of the same id. */
  ghost predicate NoSelfNesting(tree: seq<FrameTreeNode>) {
    forall j: nat, k: nat | Encloses(tree, j, k) :: tree[j].id != tree[k].id
  }

  /** The parent a frame names is listed before it, encloses it, and is one level up. */
  ghost predicate HasParentAt(tree: seq<FrameTreeNode>, i: nat, p: nat) {
    && p < i < |tree| && tree[i].parent == Some(tree[p].id) && Encloses(tree, p, i)
    && tree[i].depth == tree[p].depth + 1
  }

  ghost predicate Placed(part: seq<FrameTreeNode>, parent: Option<string>, depth: nat, i: nat) {
    && i < |part| && part[i].depth >= depth
    && ((part[i].parent == parent && part[i].depth == depth) || exists p: nat :: HasParentAt(part, i, p))
  }

  lemma {:induction false} WalkPlaces(list: seq<Info>, parent: Option<string>, depth: nat, i: nat)
    requires i < |Flatten(list, parent, depth)|
    ensures Placed(Flatten(list, parent, depth), parent, depth, i)
    decreases list
  {
    hide Flatten, Placed, Size, KidSize;
    FlattenSize(list, parent, depth);
    SizeSplits(list);
    if list == [] {
    } else {
      var part := Flatten(list, parent, depth);
      var id := Some(list[0].context);
      var m := 1 + KidSize(list[0]);
      assert part[0..|part|] == part;
      PartSplits(part, list, parent, depth, 0, m);
      KidSizeIs(list[0]);
      if i == 0 {
        FirstIsPlaced(part, parent, depth);
      } else if i < m {
        var kids := part[1..m];
        WalkPlaces(list[0].children.infos, id, depth + 1, i - 1);
        forall k | 0 <= k < |kids|
          ensures kids[k].depth > depth
        {
          WalkPlaces(list[0].children.infos, id, depth + 1, k);
          PlacedDepth(kids, id, depth + 1, k);
        }
        KidIsPlaced(part, kids, parent, depth, i);
      } else {
        WalkPlaces(list[1..], parent, depth, i - m);
        RestIsPlaced(part, part[m..|part|], m, parent, depth, i);
      }
    }
  }

  lemma PlacedDepth(part: seq<FrameTreeNode>, parent: Option<string>, depth: nat, i: nat)
    requires Placed(part, parent, depth, i)
    ensures i < |part| && part[i].depth >= depth
  {
  }

  lemma FirstIsPlaced(part: seq<FrameTreeNode>, parent: Option<string>, depth: nat)
    requires part != [] && part[0].parent == parent && part[0].depth == depth
    ensures Placed(part, parent, depth, 0)
  {
  }

  lemma KidIsPlaced(part: seq<FrameTreeNode>, kids: seq<FrameTreeNode>, parent: Option<string>, depth: nat, i: nat)
    requires 0 < i <= |kids| && |kids| < |part| && part[1..1 + |kids|] == kids && part[0].depth == depth
    requires Placed(kids, Some(part[0].id), depth + 1, i - 1)
    requires forall k | 0 <= k < |kids| :: kids[k].depth > depth
    ensures Placed(part, parent, depth, i)
  {
    assert forall k | 0 <= k < |kids| :: part[k + 1] == kids[k];
    var k := i - 1;
    if p: nat :| HasParentAt(kids, k, p) {
      ShiftedParent(part, kids, 1, k, p);
    } else {
      assert forall k | 0 < k <= i :: part[k] == kids[k - 1];
      assert HasParentAt(part, i, 0);
    }
  }

  lemma RestIsPlaced(part: seq<FrameTreeNode>, rest: seq<FrameTreeNode>, at: nat, parent: Option<string>, depth: nat,
                     i: nat)
    requires at <= i < |part| && part[at..] == rest
    requires Placed(rest, parent, depth, i - at)
    ensures Placed(part, parent, depth, i)
  {
    assert part[i] == rest[i - at];
    var k := i - at;
    if p: nat :| HasParentAt(rest, k, p) {
      ShiftedParent(part, rest, at, k, p);
    }
  }

  lemma ShiftedParent(part: seq<FrameTreeNode>, slice: seq<FrameTreeNode>, at: nat, i: nat, p: nat)
    requires at + |slice| <= |part| && part[at..at + |slice|] == slice && HasParentAt(slice, i, p)
    ensures HasParentAt(part, at + i, at + p)
  {
    assert forall k | 0 <= k < |slice| :: part[at + k] == slice[k];
    assert forall m | at + p < m <= at + i :: part[m] == slice[m - at];
  }

  /** Every listed parent encloses its frame. */
  ghost predicate Nested(tree: seq<FrameTreeNode>) {
    forall i | 0 <= i < |tree| && tree[i].parent.Some? :: exists p: nat :: HasParentAt(tree, i, p)
  }

  lemma WalkIsNested(forest: seq<Info>)
    ensures Nested(Flatten(forest, None, 0))
  {
    hide Flatten;
    var tree := Flatten(forest, None, 0);
    forall i | 0 <= i < |tree| && tree[i].parent.Some?
      ensures exists p: nat :: HasParentAt(tree, i, p)
    {
      WalkPlaces(forest, None, 0, i);
    }
  }

  lemma {:induction false} LocateIsLast(tree: seq<FrameTreeNode>, id: string)
    ensures Locate(tree, id).Some? ==> forall j | Locate(tree, id).value < j < |tree| :: tree[j].id != id
    ensures forall i | 0 <= i < |tree| && tree[i].id == id :: Locate(tree, id).Some?
  {
    if tree != [] && tree[|tree| - 1].id != id {
      LocateIsLast(tree[..|tree| - 1], id);
      assert forall j | 0 <= j < |tree| - 1 :: tree[j] == tree[..|tree| - 1][j];
    }
  }

  /** The last frame of its id. */
  predicate Latest(tree: seq<FrameTreeNode>, i: nat) {
    i < |tree| && Locate(tree, tree[i].id) == Some(i)
  }

  lemma AboveIsLatest(tree: seq<FrameTreeNode>, i: nat)
    requires i < |tree| && Above(tree, i).Some?
    ensures Latest(tree, Above(tree, i).value)
    ensures tree[i].parent == Some(tree[Above(tree, i).value].id)
  {
  }

  lemma {:induction false} Largest(s: set<nat>) returns (m: nat)
    requires s != {}
    ensures m in s && forall x | x in s :: x <= m
  {
    var x :| x in s;
    if s == {x} {
      m := x;
    } else {
      assert s - {x} != {};
      m := Largest(s - {x});
      assert forall y | y in s :: y == x || y in s - {x};
      m := if x > m then x else m;
    }
  }

  lemma EnclosesTransitive(tree: seq<FrameTreeNode>, p: nat, c: nat, top: nat)
    requires Encloses(tree, p, c) && (c == top || Encloses(tree, c, top))
    ensures Encloses(tree, p, top)
  {
  }

  /** Below its latest frame a closed set climbs true parents only, forever. */
  lemma {:induction false} ClosedDescends(tree: seq<FrameTreeNode>, s: set<nat>, top: nat, c: nat)
    requires Nested(tree) && NoSelfNesting(tree) && Closed(tree, s)
    requires top < |tree| && forall d | d in s && Latest(tree, d) :: d <= top
    requires c in s && (c == top || Encloses(tree, c, top))
    ensures false
    decreases c
  {
    hide Locate, Latest, Above, Encloses, NoSelfNesting, Nested;
    var d := Above(tree, c).value;
    AboveIsLatest(tree, c);
    NamedParent(tree, c);
    var p: nat :| HasParentAt(tree, c, p);
    LatestIsLast(tree, d, p);
    EnclosesTransitive(tree, p, c, top);
    NothingBetween(tree, p, d, top);
    ClosedDescends(tree, s, top, p);
  }

  lemma NothingBetween(tree: seq<FrameTreeNode>, p: nat, d: nat, top: nat)
    requires NoSelfNesting(tree) && Encloses(tree, p, top) && p <= d <= top && tree[p].id == tree[d].id
    ensures p == d
  {
    assert p < d ==> Encloses(tree, p, d);
  }

  lemma NamedParent(tree: seq<FrameTreeNode>, c: nat)
    requires Nested(tree) && c < |tree| && tree[c].parent.Some?
    ensures exists p: nat :: HasParentAt(tree, c, p)
  {
  }

  lemma LatestIsLast(tree: seq<FrameTreeNode>, d: nat, p: nat)
    requires Latest(tree, d) && p < |tree| && tree[p].id == tree[d].id
    ensures p <= d
  {
    LocateIsLast(tree, tree[d].id);
  }

  /** On the walk of a forest in which no frame is nested inside one of the same id, the
      loop ends from every target; ids repeated elsewhere do no harm. */
  lemma EndsWithoutSelfNesting(forest: seq<Info>)
    requires NoSelfNesting(Flatten(forest, None, 0))
    ensures forall target :: Ends(Flatten(forest, None, 0), Locate(Flatten(forest, None, 0), target))
  {
    hide Flatten, Locate, Above, Ends, NoSelfNesting, Nested;
    var tree := Flatten(forest, None, 0);
    WalkIsNested(forest);
    LoopEndsExactly(tree);
    if s: set<nat> :| Closed(tree, s) {
      var i :| i in s;
      AboveIsLatest(tree, i);
      var latest := set d | d in s && Latest(tree, d);
      assert Above(tree, i).value in latest;
      var top := Largest(latest);
      assert forall d | d in s && Latest(tree, d) :: d in latest;
      ClosedDescends(tree, s, top, top);
    }
  }

  // ------------------------------------------------------------------ distinct ids

  function NoProbes(tree: seq<FrameTreeNode>): (probes: seq<(string, bool)>)
    ensures |probes| == |tree|
  {
    seq(|tree|, _ => ("", false))
  }

  function GraphOf(tree: seq<FrameTreeNode>): (nodes: seq<FrameNode>)
    ensures |nodes| == |tree| + 1
  {
    Graph(Enrich(tree, NoProbes(tree)))
  }

  /** The loop's next frame is the node's parent in the graph, and the root stands for none. */
  lemma AboveIsParent(forest: seq<Info>, i: nat)
    requires i < |Flatten(forest, None, 0)| && DistinctContexts(Flatten(forest, None, 0))
    ensures var tree := Flatten(forest, None, 0);
            && TreeShaped(GraphOf(tree))
            && GraphOf(tree)[i + 1].parent == Some(if Above(tree, i).Some? then Above(tree, i).value + 1 else 0)
  {
    hide Flatten, Locate, Graph, Enrich, DistinctContexts, TreeShaped;
    var tree := Flatten(forest, None, 0);
    EveryFrameIsPlaced(forest, NoProbes(tree), i);
    if tree[i].parent.Some? {
      HasParent(GraphOf(tree), i + 1);
      var p := GraphOf(tree)[i + 1].parent.value;
      NodeIsListed(tree, p);
      LocateUnique(tree, p - 1);
    }
  }

  lemma HasParent(nodes: seq<FrameNode>, i: nat)
    requires TreeShaped(nodes) && 0 < i < |nodes|
    ensures nodes[i].parent.Some? && nodes[i].parent.value < i
  {
  }

  lemma NodeIsListed(tree: seq<FrameTreeNode>, p: nat)
    requires p < |GraphOf(tree)| && GraphOf(tree)[p].frameId.Some?
    ensures p > 0 && tree[p - 1].id == GraphOf(tree)[p].frameId.value
  {
    if p > 0 {
      assert GraphOf(tree)[p] == NodeOf(Enrich(tree, NoProbes(tree)), p - 1);
    }
  }

  lemma LocateUnique(tree: seq<FrameTreeNode>, k: nat)
    requires DistinctContexts(tree) && k < |tree|
    ensures Locate(tree, tree[k].id) == Some(k)
  {
  }

  /** On the walk of a forest with distinct ids the loop ends, and the frames on the way
      up are those of the graph's path to the root, without the root. */
  lemma {:induction false} WalkClimbsPath(forest: seq<Info>, i: nat, k: nat)
    requires i < |Flatten(forest, None, 0)| && DistinctContexts(Flatten(forest, None, 0))
    ensures TreeShaped(GraphOf(Flatten(forest, None, 0)))
    ensures var tree := Flatten(forest, None, 0);
            var path := PathUp(GraphOf(tree), i + 1);
            && |path| == tree[i].depth + 2 && path[|path| - 1] == 0
            && (k < |path| - 1 ==> path[k] > 0 && Climb(tree, Some(i), k) == Some(path[k] - 1))
            && (k >= |path| - 1 ==> Climb(tree, Some(i), k).None?)
    decreases k
  {
    hide Flatten, DistinctContexts, Above, PathUp, GraphOf, TreeShaped;
    var tree := Flatten(forest, None, 0);
    PathOnWalk(forest, i);
    if k == 0 {
    } else {
      WalkClimbsPath(forest, i, k - 1);
      var path := PathUp(GraphOf(tree), i + 1);
      if k <= |path| - 1 {
        AboveIsParent(forest, path[k - 1] - 1);
      }
    }
  }

  lemma PathOnWalk(forest: seq<Info>, i: nat)
    requires i < |Flatten(forest, None, 0)| && DistinctContexts(Flatten(forest, None, 0))
    ensures TreeShaped(GraphOf(Flatten(forest, None, 0)))
    ensures ClimbsToRoot(GraphOf(Flatten(forest, None, 0)), i + 1)
    ensures GraphOf(Flatten(forest, None, 0))[i + 1].depth == Flatten(forest, None, 0)[i].depth + 1
  {
    hide Flatten, DistinctContexts, PathUp, Graph, TreeShaped, ClimbsToRoot;
    EveryFrameIsPlaced(forest, NoProbes(Flatten(forest, None, 0)), i);
    PathClimbs(GraphOf(Flatten(forest, None, 0)), i + 1);
  }

  /** The path to the root has one node per level and leaves the root for last. */
  ghost predicate ClimbsToRoot(nodes: seq<FrameNode>, i: nat)
    requires TreeShaped(nodes) && i < |nodes|
  {
    var path := PathUp(nodes, i);
    && |path| == nodes[i].depth + 1 && path[0] == i && path[|path| - 1] == 0
    && forall k | 0 <= k < |path| - 1 :: 0 < path[k] < |nodes| && nodes[path[k]].parent == Some(path[k + 1])
  }

  lemma PathClimbs(nodes: seq<FrameNode>, i: nat)
    requires TreeShaped(nodes) && i < |nodes|
    ensures ClimbsToRoot(nodes, i)
  {
    hide PathUp, TreeShaped;
    PathUpDescends(nodes, i);
  }

  // ------------------------------------------------------------------ repeated ids

  function LoopingForest(a: string, b: string): seq<Info> {
    [Info(a, "", Listed([Info(b, "", Listed([Info(a, "", Absent)]))]))]
  }

  function LoopingWalk(a: string, b: string): seq<FrameTreeNode> {
    [FrameTreeNode(a, "", None, 0), FrameTreeNode(b, "", Some(a), 1), FrameTreeNode(a, "", Some(b), 2)]
  }

  lemma LoopingWalkIs(a: string, b: string)
    ensures Flatten(LoopingForest(a, b), None, 0) == LoopingWalk(a, b)
  {
    var inner := [Info(a, "", Absent)];
    var middle := [Info(b, "", Listed(inner))];
    assert Flatten(inner, Some(b), 2) == [FrameTreeNode(a, "", Some(b), 2)];
    assert Flatten(middle, Some(a), 1) == [FrameTreeNode(b, "", Some(a), 1), FrameTreeNode(a, "", Some(b), 2)];
  }

  /** A frame two levels below one of its own id: from it the loop goes between it and its
      parent forever, however many turns it has taken. */
  lemma {:induction false} RepeatedIdLoops(a: string, b: string, n: nat)
    requires a != b
    ensures var tree := Flatten(LoopingForest(a, b), None, 0);
            Climb(tree, Locate(tree, a), n) == Some(if n % 2 == 0 then 2 else 1)
  {
    hide Flatten;
    LoopingWalkIs(a, b);
    var tree := LoopingWalk(a, b);
    assert tree[..2] == [tree[0], tree[1]];
    assert Locate(tree, a) == Some(2) && Above(tree, 2) == Some(1) && Above(tree, 1) == Some(2);
    hide LoopingWalk, Locate, Above;
    if n == 0 {
    } else {
      RepeatedIdLoops(a, b, n - 1);
    }
  }

  /** Nesting under the same id is not enough to loop: here a later frame of the id in
      between leads the loop out, whatever the target. */
  lemma SelfNestingMayEnd(a: string, b: string, target: string)
    requires a != b
    ensures var tree := Flatten(LoopingForest(a, b) + [Info(b, "", Absent)], None, 0);
            !NoSelfNesting(tree) && Ends(tree, Locate(tree, target))
  {
    ExtendedWalkIs(a, b);
    var tree := LoopingWalk(a, b) + [FrameTreeNode(b, "", None, 0)];
    hide Flatten;
    assert Encloses(tree, 0, 2);
    assert Locate(tree, b) == Some(3);
    assert Above(tree, 2) == Some(3) && Above(tree, 3).None?;
    var cur := Locate(tree, target);
    LastOfFour(tree, target);
    hide Locate, Above;
    assert Climb(tree, cur, 0) == cur;
    assert Climb(tree, cur, 1).None? || Climb(tree, cur, 1) == Some(3);
    assert Climb(tree, cur, 2).None?;
  }

  lemma ExtendedWalkIs(a: string, b: string)
    ensures Flatten(LoopingForest(a, b) + [Info(b, "", Absent)], None, 0)
            == LoopingWalk(a, b) + [FrameTreeNode(b, "", None, 0)]
  {
    LoopingWalkIs(a, b);
    var last := [Info(b, "", Absent)];
    var forest := LoopingForest(a, b) + last;
    assert forest[1..] == last && LoopingForest(a, b)[1..] == [];
    assert Flatten(last, None, 0) == [FrameTreeNode(b, "", None, 0)];
    hide Flatten;
    FlattenHead(forest, None, 0);
    FlattenHead(LoopingForest(a, b), None, 0);
    FlattenNothing(None, 0);
  }

  lemma LastOfFour(tree: seq<FrameTreeNode>, target: string)
    requires |tree| == 4 && tree[0].id == tree[2].id && tree[1].id == tree[3].id
    ensures Locate(tree, target).Some? ==> Locate(tree, target).value >= 2
  {
    LocateIsLast(tree, target);
  }
}

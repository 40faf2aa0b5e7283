/**
 Walking the frame graph: breadth-first from the root, up to the root, to the deepest
 captcha, and up the parent chain of the listed frames.
 */
module FrameTraversal {
  import opened Wrappers
  import opened Sequences
  import opened FrameForest

  lemma {:induction false} DistinctMembers(s: seq<nat>, t: seq<nat>)
    requires Distinct(s) && forall i | 0 <= i < |s| :: s[i] in t
    ensures |s| <= |t|
    decreases |s|
  {
    if s == [] {
    } else {
      var n := |s| - 1;
      var k :| 0 <= k < |t| && t[k] == s[n];
      var u := t[..k] + t[k + 1..];
      forall i | 0 <= i < n
        ensures s[..n][i] in u
      {
        var j :| 0 <= j < |t| && t[j] == s[i];
        assert u[if j < k then j else j - 1] == s[i];
      }
      DistinctMembers(s[..n], u);
    }
  }

  function UpTo(n: nat): (s: seq<nat>)
    ensures |s| == n && forall i | 0 <= i < n :: s[i] == i
  {
    seq(n, i requires 0 <= i < n => i)
  }

  lemma DistinctFits(s: seq<nat>, n: nat)
    requires Distinct(s) && forall i | 0 <= i < |s| :: s[i] < n
    ensures |s| <= n
  {
    var all := UpTo(n);
    forall i | 0 <= i < |s|
      ensures s[i] in all
    {
      assert all[s[i]] == s[i];
    }
    DistinctMembers(s, all);
  }

  lemma Pigeonhole(s: seq<nat>, n: nat)
    requires forall i: nat | i < n :: i in s
    ensures |s| >= n
  {
    DistinctMembers(UpTo(n), s);
  }

  lemma DistinctConcat(a: seq<nat>, b: seq<nat>)
    requires Distinct(a) && Ascending(b) && forall x | x in b :: x !in a
    ensures Distinct(a + b)
  {
    var s := a + b;
    forall i, j | 0 <= i < j < |s|
      ensures s[i] != s[j]
    {
      if j >= |a| {
        assert s[j] == b[j - |a|] && s[j] in b;
        if i < |a| {
          assert s[i] == a[i] && s[i] in a;
        } else {
          assert s[i] == b[i - |a|];
        }
      }
    }
  }

  // ------------------------------------------------------------------ breadth first

  /** The children of each node of `order`, in turn. */
  function AllChildren(nodes: seq<FrameNode>, order: seq<nat>): seq<nat> {
    if order == [] then [] else
      AllChildren(nodes, order[..|order| - 1]) + Children(nodes, order[|order| - 1])
  }

  /** Every node reached but the root has its parent among the visited ones. */
  ghost predicate Claimed(nodes: seq<FrameNode>, full: seq<nat>, visited: seq<nat>) {
    forall x | x in full :: x < |nodes| && (x != 0 ==> nodes[x].parent.Some? && nodes[x].parent.value in visited)
  }

  /** Every child of a visited node is reached. */
  ghost predicate Covered(nodes: seq<FrameNode>, full: seq<nat>, visited: seq<nat>) {
    forall c | 0 < c < |nodes| && nodes[c].parent.Some? && nodes[c].parent.value in visited :: c in full
  }

  /** `full` is what was visited, followed by the queue: the root, then the children of
      each visited node in turn. */
  ghost predicate Exploring(nodes: seq<FrameNode>, full: seq<nat>, visited: seq<nat>) {
    && visited <= full && full == [0] + AllChildren(nodes, visited)
    && Distinct(full) && Claimed(nodes, full, visited) && Covered(nodes, full, visited)
    && ParentsFirst(nodes, full) && AllRooted(nodes, full)
  }

  // ------------------------------------------------------------------ parent links of any list

  /** The node `n` parent links up; none where a link is missing or leaves the list. */
  function Up(nodes: seq<FrameNode>, i: nat, n: nat): (at: Option<nat>)
    requires i < |nodes|
    ensures at.Some? ==> at.value < |nodes|
    decreases n
  {
    if n == 0 then Some(i)
    else
      var before := Up(nodes, i, n - 1);
      if before.None? then None
      else
        var link := nodes[before.value].parent;
        if link.Some? && link.value < |nodes| then link else None
  }

  ghost predicate OwnAncestor(nodes: seq<FrameNode>, i: nat)
    requires i < |nodes|
  {
    exists m: nat :: m > 0 && Up(nodes, i, m) == Some(i)
  }

  /** The root is reached by parent links. */
  ghost predicate Rooted(nodes: seq<FrameNode>, i: nat) {
    i < |nodes| && exists n: nat :: Up(nodes, i, n) == Some(0)
  }

  ghost predicate AllRooted(nodes: seq<FrameNode>, full: seq<nat>) {
    forall x | x in full :: Rooted(nodes, x)
  }

  lemma {:induction false} UpFromParent(nodes: seq<FrameNode>, i: nat, p: nat, n: nat)
    requires i < |nodes| && p < |nodes| && nodes[i].parent == Some(p)
    ensures Up(nodes, i, n + 1) == Up(nodes, p, n)
    decreases n
  {
    if n == 0 {
      assert Up(nodes, i, 0) == Some(i);
    } else {
      UpFromParent(nodes, i, p, n - 1);
    }
  }

  lemma ChildIsRooted(nodes: seq<FrameNode>, c: nat, p: nat)
    requires c < |nodes| && nodes[c].parent == Some(p) && Rooted(nodes, p)
    ensures Rooted(nodes, c)
    ensures c == 0 ==> OwnAncestor(nodes, 0)
  {
    var n: nat :| Up(nodes, p, n) == Some(0);
    UpFromParent(nodes, c, p, n);
  }

  // ------------------------------------------------------------------ the queue

  ghost predicate ParentsFirst(nodes: seq<FrameNode>, order: seq<nat>) {
    forall i | 1 <= i < |order| :: order[i] < |nodes| && nodes[order[i]].parent.Some? &&
      exists j | 0 <= j < i :: order[j] == nodes[order[i]].parent.value
  }

  /** Depth never decreases, and the queue spans at most two levels. */
  ghost predicate Leveled(nodes: seq<FrameNode>, full: seq<nat>, k: nat) {
    && (forall i | 0 <= i < |full| :: full[i] < |nodes|)
    && (forall i, j | 0 <= i < j < |full| :: nodes[full[i]].depth <= nodes[full[j]].depth)
    && (k < |full| ==> forall j | 0 <= j < |full| :: nodes[full[j]].depth <= nodes[full[k]].depth + 1)
  }

  lemma LevelsGrow(nodes: seq<FrameNode>, full: seq<nat>, k: nat)
    requires TreeShaped(nodes) && Leveled(nodes, full, k) && k < |full|
    ensures Leveled(nodes, full + Children(nodes, full[k]), k + 1)
  {
    var kids := Children(nodes, full[k]);
    forall i | 0 <= i < |kids|
      ensures kids[i] < |nodes| && nodes[kids[i]].depth == nodes[full[k]].depth + 1
    {
      assert kids[i] in kids;
    }
  }

  lemma ParentsStayFirst(nodes: seq<FrameNode>, full: seq<nat>, k: nat)
    requires ParentsFirst(nodes, full) && k < |full|
    ensures ParentsFirst(nodes, full + Children(nodes, full[k]))
  {
    var kids := Children(nodes, full[k]);
    var more := full + kids;
    forall i | 1 <= i < |more|
      ensures more[i] < |nodes| && nodes[more[i]].parent.Some?
      ensures exists j | 0 <= j < i :: more[j] == nodes[more[i]].parent.value
    {
      if i < |full| {
        var j :| 0 <= j < i && full[j] == nodes[full[i]].parent.value;
        assert more[j] == nodes[more[i]].parent.value;
      } else {
        assert more[i] == kids[i - |full|] && kids[i - |full|] in kids;
        assert more[k] == nodes[more[i]].parent.value;
      }
    }
  }

  lemma ChildrenAreNew(nodes: seq<FrameNode>, full: seq<nat>, visited: seq<nat>)
    requires |nodes| > 0 && !OwnAncestor(nodes, 0)
    requires visited < full && Distinct(full) && Claimed(nodes, full, visited) && AllRooted(nodes, full)
    ensures forall c | c in Children(nodes, full[|visited|]) :: c !in full && Rooted(nodes, c)
  {
    hide Rooted, OwnAncestor;
    var next := full[|visited|];
    assert next !in visited by { assert visited == full[..|visited|]; }
    forall c | c in Children(nodes, next)
      ensures c !in full && Rooted(nodes, c)
    {
      assert next in full;
      ChildIsRooted(nodes, c, next);
    }
  }

  lemma ExploreNext(nodes: seq<FrameNode>, full: seq<nat>, visited: seq<nat>)
    requires |nodes| > 0 && !OwnAncestor(nodes, 0) && Exploring(nodes, full, visited) && visited < full
    ensures Exploring(nodes, full + Children(nodes, full[|visited|]), visited + [full[|visited|]])
  {
    hide AllChildren, Distinct, Ascending, Claimed, Covered, ParentsFirst, Rooted, OwnAncestor;
    var next := full[|visited|];
    var kids := Children(nodes, next);
    ChildrenAreNew(nodes, full, visited);
    DistinctConcat(full, kids);
    PrefixGrows(full, visited, kids);
    AllChildrenSnoc(nodes, visited, next);
    assert [0] + AllChildren(nodes, visited) + kids == [0] + (AllChildren(nodes, visited) + kids);
    ParentsStayFirst(nodes, full, |visited|);
    ReachGrows(nodes, full, visited, next);
  }

  lemma PrefixGrows<T>(full: seq<T>, visited: seq<T>, more: seq<T>)
    requires visited < full
    ensures visited + [full[|visited|]] <= full + more
  {
    assert full == visited + full[|visited|..];
  }

  lemma ReachGrows(nodes: seq<FrameNode>, full: seq<nat>, visited: seq<nat>, next: nat)
    requires Claimed(nodes, full, visited) && Covered(nodes, full, visited)
    ensures Claimed(nodes, full + Children(nodes, next), visited + [next])
    ensures Covered(nodes, full + Children(nodes, next), visited + [next])
  {
    assert forall x | x in visited + [next] :: x in visited || x == next;
  }

  lemma AllChildrenSnoc(nodes: seq<FrameNode>, order: seq<nat>, x: nat)
    ensures AllChildren(nodes, order + [x]) == AllChildren(nodes, order) + Children(nodes, x)
  {
    assert (order + [x])[..|order|] == order;
  }

  /** All nodes queued so far after `n` turns of the loop, in the order they were queued. */
  function Queued(nodes: seq<FrameNode>, n: nat): (full: seq<nat>)
    requires nodes != []
    ensures full != [] && forall x | x in full :: x < |nodes|
    decreases n
  {
    if n == 0 then [0]
    else
      var full := Queued(nodes, n - 1);
      if n - 1 < |full| then full + Children(nodes, full[n - 1]) else full
  }

  /** The queue runs empty: some number of turns visits all that was queued. */
  ghost predicate QueueEnds(nodes: seq<FrameNode>)
    requires nodes != []
  {
    exists n: nat :: |Queued(nodes, n)| <= n
  }

  function Visited(full: seq<nat>, n: nat): seq<nat> {
    if n < |full| then full[..n] else full
  }

  lemma {:induction false} QueueExplores(nodes: seq<FrameNode>, n: nat)
    requires nodes != [] && !OwnAncestor(nodes, 0)
    ensures Exploring(nodes, Queued(nodes, n), Visited(Queued(nodes, n), n))
    decreases n
  {
    hide Exploring, OwnAncestor;
    if n == 0 {
      StartExploring(nodes);
      assert [0][..0] == [];
    } else {
      var full := Queued(nodes, n - 1);
      QueueExplores(nodes, n - 1);
      if n - 1 < |full| {
        ExploreNext(nodes, full, full[..n - 1]);
        var more := full + Children(nodes, full[n - 1]);
        assert full[..n - 1] + [full[n - 1]] == more[..n];
        assert Visited(more, n) == more[..n];
      }
    }
  }

  /** Each child of the first `k` queued nodes is queued after it. */
  ghost predicate ChildrenLater(nodes: seq<FrameNode>, full: seq<nat>, k: nat) {
    forall j, c | 0 <= j < k && j < |full| && c in Children(nodes, full[j]) :: QueuedAfter(full, j, c)
  }

  predicate QueuedAfter(full: seq<nat>, j: nat, c: nat) {
    exists l | j < l < |full| :: full[l] == c
  }

  lemma {:induction false} QueuesChildrenLater(nodes: seq<FrameNode>, n: nat)
    requires nodes != []
    ensures ChildrenLater(nodes, Queued(nodes, n), n)
    decreases n
  {
    hide Children, ChildrenLater;
    if n == 0 {
      NoneLater(nodes, Queued(nodes, 0));
    } else {
      QueuesChildrenLater(nodes, n - 1);
      var full := Queued(nodes, n - 1);
      if n - 1 < |full| {
        LaterGrows(nodes, full, n - 1);
      } else {
        LaterStays(nodes, full, n - 1);
      }
    }
  }

  lemma NoneLater(nodes: seq<FrameNode>, full: seq<nat>)
    ensures ChildrenLater(nodes, full, 0)
  {
  }

  lemma LaterStays(nodes: seq<FrameNode>, full: seq<nat>, n: nat)
    requires ChildrenLater(nodes, full, n) && |full| <= n
    ensures ChildrenLater(nodes, full, n + 1) && ChildrenLater(nodes, full, |full|)
  {
    hide Children, QueuedAfter;
  }

  lemma LaterGrows(nodes: seq<FrameNode>, full: seq<nat>, k: nat)
    requires ChildrenLater(nodes, full, k) && k < |full|
    ensures ChildrenLater(nodes, full + Children(nodes, full[k]), k + 1)
  {
    hide Children;
    var kids := Children(nodes, full[k]);
    var more := full + kids;
    forall j, c | 0 <= j < k + 1 && c in Children(nodes, more[j])
      ensures QueuedAfter(more, j, c)
    {
      if j < k {
        assert QueuedAfter(full, j, c);
        var l :| j < l < |full| && full[l] == c;
        assert more[l] == c;
      } else {
        var i :| 0 <= i < |kids| && kids[i] == c;
        assert more[|full| + i] == c;
      }
    }
  }

  /** On a cycle through the root every queued node has its child on the cycle queued
      later: no queue of finite length is done with it. */
  lemma {:induction false} CycleNeverDone(nodes: seq<FrameNode>, full: seq<nat>, m: nat, k: nat, j: nat)
    requires nodes != [] && Up(nodes, 0, m) == Some(0) && 0 < k <= m
    requires ChildrenLater(nodes, full, |full|) && j < |full| && Up(nodes, 0, k) == Some(full[j])
    ensures false
    decreases |full| - j
  {
    hide ChildrenLater;
    var c := Up(nodes, 0, k - 1).value;
    assert c in Children(nodes, full[j]);
    LaterChild(nodes, full, j, c);
    var l :| j < l < |full| && full[l] == c;
    CycleNeverDone(nodes, full, m, if k == 1 then m else k - 1, l);
  }

  lemma LaterChild(nodes: seq<FrameNode>, full: seq<nat>, j: nat, c: nat)
    requires ChildrenLater(nodes, full, |full|) && j < |full| && c in Children(nodes, full[j])
    ensures exists l | j < l < |full| :: full[l] == c
  {
    assert QueuedAfter(full, j, c);
  }

  lemma {:induction false} StartsWithRoot(nodes: seq<FrameNode>, n: nat)
    requires nodes != []
    ensures Queued(nodes, n)[0] == 0
    decreases n
  {
    if n == 0 {
    } else {
      StartsWithRoot(nodes, n - 1);
    }
  }

  /** On any node list at all, the queue loop ends exactly when the root is not its own ancestor. */
  lemma QueueEndsExactly(nodes: seq<FrameNode>)
    requires nodes != []
    ensures QueueEnds(nodes) <==> !OwnAncestor(nodes, 0)
  {
    hide Queued, Exploring;
    if !OwnAncestor(nodes, 0) {
      QueueExplores(nodes, |nodes|);
      ExploringFits(nodes, Queued(nodes, |nodes|), Visited(Queued(nodes, |nodes|), |nodes|));
    } else if QueueEnds(nodes) {
      var m: nat :| m > 0 && Up(nodes, 0, m) == Some(0);
      var n: nat :| |Queued(nodes, n)| <= n;
      var full := Queued(nodes, n);
      QueuesChildrenLater(nodes, n);
      LaterStays(nodes, full, n);
      StartsWithRoot(nodes, n);
      CycleNeverDone(nodes, full, m, m, 0);
    }
  }

  /** Breadth-first order from the root, on any node list on which the queue runs empty. */
  method Bfs(nodes: seq<FrameNode>) returns (order: seq<nat>)
    requires nodes == [] || QueueEnds(nodes)
    ensures nodes == [] ==> order == []
    ensures nodes != [] ==> order == Queued(nodes, |order|) && Explores(nodes, order)
    ensures nodes != [] && TreeShaped(nodes) ==> IsBreadthFirst(nodes, order)
  {
    if nodes == [] {
      return [];
    }
    hide Searching, Explores, IsBreadthFirst, QueueEnds, Queued, TreeShaped, OwnAncestor;
    order := [];
    var queue: seq<nat> := [0];
    StartSearching(nodes);
    while queue != []
      invariant Searching(nodes, order, queue)
      decreases |nodes| - |order|
    {
      var idx := queue[0];
      SearchOn(nodes, order, queue);
      order := order + [idx];
      queue := queue[1..] + Children(nodes, idx);
    }
    EndSearching(nodes, order);
  }

  /** The order found and the queue, in any state of the loop. */
  ghost predicate Searching(nodes: seq<FrameNode>, order: seq<nat>, queue: seq<nat>) {
    && nodes != [] && !OwnAncestor(nodes, 0)
    && order + queue == Queued(nodes, |order|)
    && Exploring(nodes, order + queue, order)
    && (TreeShaped(nodes) ==> Leveled(nodes, order + queue, |order|))
  }

  lemma StartSearching(nodes: seq<FrameNode>)
    requires nodes != [] && QueueEnds(nodes)
    ensures Searching(nodes, [], [0])
  {
    hide QueueEnds, OwnAncestor, Exploring, Leveled, TreeShaped;
    QueueEndsExactly(nodes);
    StartExploring(nodes);
    StartLeveled(nodes);
    assert [] + [0] == [0];
  }

  /** One turn of the loop. */
  lemma SearchOn(nodes: seq<FrameNode>, order: seq<nat>, queue: seq<nat>)
    requires Searching(nodes, order, queue) && queue != []
    ensures Searching(nodes, order + [queue[0]], queue[1..] + Children(nodes, queue[0]))
    ensures |order| < |nodes|
  {
    hide TreeShaped, Exploring, OwnAncestor, Leveled;
    ExploringFits(nodes, order + queue, order);
    Shift(order, queue, Children(nodes, queue[0]));
    ExploreNext(nodes, order + queue, order);
    if TreeShaped(nodes) {
      LevelsGrow(nodes, order + queue, |order|);
    }
  }

  lemma EndSearching(nodes: seq<FrameNode>, order: seq<nat>)
    requires Searching(nodes, order, [])
    ensures order == Queued(nodes, |order|) && Explores(nodes, order)
    ensures TreeShaped(nodes) ==> IsBreadthFirst(nodes, order)
  {
    hide TreeShaped, Exploring, OwnAncestor, Leveled, Explores, IsBreadthFirst;
    assert order + [] == order;
    ExploringEnd(nodes, order);
    if TreeShaped(nodes) {
      BreadthFirstEnd(nodes, order);
    }
  }

  lemma Shift<T>(order: seq<T>, queue: seq<T>, kids: seq<T>)
    requires queue != []
    ensures order < order + queue && (order + queue)[|order|] == queue[0]
    ensures (order + [queue[0]]) + (queue[1..] + kids) == (order + queue) + kids
  {
  }

  lemma StartExploring(nodes: seq<FrameNode>)
    requires nodes != []
    ensures Exploring(nodes, [0], [])
  {
    assert Up(nodes, 0, 0) == Some(0);
  }

  lemma StartLeveled(nodes: seq<FrameNode>)
    requires nodes != []
    ensures Leveled(nodes, [0], 0)
  {
  }

  lemma ExploringFits(nodes: seq<FrameNode>, full: seq<nat>, visited: seq<nat>)
    requires Exploring(nodes, full, visited)
    ensures |full| <= |nodes|
  {
    forall i | 0 <= i < |full|
      ensures full[i] < |nodes|
    {
      assert full[i] in full;
    }
    DistinctFits(full, |nodes|);
  }

  /** The order is its own unfolding, and lists exactly the nodes below the root, each
      once and after its parent. */
  ghost predicate Explores(nodes: seq<FrameNode>, order: seq<nat>) {
    && order == [0] + AllChildren(nodes, order)
    && Distinct(order) && (forall i: nat :: i in order <==> Rooted(nodes, i))
    && ParentsFirst(nodes, order)
  }

  lemma {:induction false} RootedIsReached(nodes: seq<FrameNode>, order: seq<nat>, i: nat, n: nat)
    requires Exploring(nodes, order, order) && i < |nodes| && Up(nodes, i, n) == Some(0)
    ensures i in order
    decreases n
  {
    hide AllChildren, Distinct, ParentsFirst, AllRooted, Claimed;
    assert order[0] == 0;
    if n > 0 && i != 0 {
      assert Up(nodes, i, 1).Some? by {
        FirstLink(nodes, i, n);
      }
      var p := nodes[i].parent.value;
      UpFromParent(nodes, i, p, n - 1);
      RootedIsReached(nodes, order, p, n - 1);
    }
  }

  lemma {:induction false} FirstLink(nodes: seq<FrameNode>, i: nat, n: nat)
    requires i < |nodes| && n > 0 && Up(nodes, i, n).Some?
    ensures Up(nodes, i, 1).Some? && nodes[i].parent.Some? && nodes[i].parent.value < |nodes|
    decreases n
  {
    if n == 1 {
      assert Up(nodes, i, 0) == Some(i);
    } else {
      FirstLink(nodes, i, n - 1);
    }
  }

  lemma ExploringEnd(nodes: seq<FrameNode>, order: seq<nat>)
    requires Exploring(nodes, order, order)
    ensures Explores(nodes, order)
  {
    hide AllChildren, Distinct, ParentsFirst, Claimed, Covered;
    forall i: nat | Rooted(nodes, i)
      ensures i in order
    {
      var n: nat :| Up(nodes, i, n) == Some(0);
      RootedIsReached(nodes, order, i, n);
    }
  }

  /** The order is its own unfolding: the root, then the children of each node in turn;
      and it visits every node exactly once. */
  ghost predicate IsBreadthFirst(nodes: seq<FrameNode>, order: seq<nat>) {
    && order == [0] + AllChildren(nodes, order)
    && Distinct(order) && |order| == |nodes| && (forall i: nat :: i in order <==> i < |nodes|)
    && ParentsFirst(nodes, order)
    && (forall i, j | 0 <= i < j < |order| :: nodes[order[i]].depth <= nodes[order[j]].depth)
  }

  /** On a tree everything is below the root, and the levels come in order. */
  lemma BreadthFirstEnd(nodes: seq<FrameNode>, order: seq<nat>)
    requires TreeShaped(nodes) && Exploring(nodes, order, order) && Leveled(nodes, order, |order|)
    ensures IsBreadthFirst(nodes, order)
  {
    hide TreeShaped, Distinct, ParentsFirst, AllChildren, Covered, AllRooted;
    forall i: nat | i < |nodes|
      ensures i in order
    {
      AllReached(nodes, order, i);
    }
    Pigeonhole(order, |nodes|);
    ExploringFits(nodes, order, order);
  }

  lemma {:induction false} AllReached(nodes: seq<FrameNode>, order: seq<nat>, i: nat)
    requires TreeShaped(nodes) && Exploring(nodes, order, order) && i < |nodes|
    ensures i in order
    decreases i
  {
    hide AllChildren, Distinct, ParentsFirst, AllRooted, Claimed;
    if i == 0 {
      assert order[0] == 0;
    } else {
      AllReached(nodes, order, nodes[i].parent.value);
    }
  }

  /** In a tree the root has no parent, so the queue runs empty on every one. */
  lemma TreesEnd(nodes: seq<FrameNode>)
    requires TreeShaped(nodes) && nodes != []
    ensures QueueEnds(nodes)
  {
    hide QueueEnds;
    if OwnAncestor(nodes, 0) {
      var m: nat :| m > 0 && Up(nodes, 0, m) == Some(0);
      FirstLink(nodes, 0, m);
    }
    QueueEndsExactly(nodes);
  }

  /** A root that names its own child as parent: the queue never runs empty. */
  lemma RootInItsOwnSubtree(root: FrameNode, child: FrameNode)
    requires root.parent == Some(1) && child.parent == Some(0)
    ensures !QueueEnds([root, child])
  {
    hide QueueEnds;
    var nodes := [root, child];
    assert Up(nodes, 0, 0) == Some(0);
    assert Up(nodes, 0, 1) == Some(1);
    assert Up(nodes, 0, 2) == Some(0);
    QueueEndsExactly(nodes);
  }

  /** A tree has one breadth-first order only. */
  lemma {:induction false} BreadthFirstIsUnique(nodes: seq<FrameNode>, a: seq<nat>, b: seq<nat>, n: nat)
    requires IsBreadthFirst(nodes, a) && IsBreadthFirst(nodes, b) && n <= |a| == |b|
    requires TreeShaped(nodes)
    ensures a[..n] == b[..n]
    decreases n
  {
    hide IsBreadthFirst, TreeShaped;
    if n == 0 {
    } else {
      BreadthFirstIsUnique(nodes, a, b, n - 1);
      SameNext(nodes, a, b, n - 1);
      assert a[..n] == a[..n - 1] + [a[n - 1]] && b[..n] == b[..n - 1] + [b[n - 1]];
    }
  }

  lemma SameNext(nodes: seq<FrameNode>, a: seq<nat>, b: seq<nat>, k: nat)
    requires IsBreadthFirst(nodes, a) && IsBreadthFirst(nodes, b) && k < |a| == |b|
    requires TreeShaped(nodes) && a[..k] == b[..k]
    ensures a[k] == b[k]
  {
    if k > 0 {
      // The first k nodes already determine 1 + (their children): more than k nodes.
      AllChildrenPrefix(nodes, a, k);
      AllChildrenPrefix(nodes, b, k);
      OpenedEnough(nodes, a, k);
    }
  }

  lemma {:induction false} AllChildrenPrefix(nodes: seq<FrameNode>, order: seq<nat>, k: nat)
    requires k <= |order|
    ensures AllChildren(nodes, order[..k]) <= AllChildren(nodes, order)
    decreases |order|
  {
    if k == |order| {
      assert order[..k] == order;
    } else {
      var n := |order| - 1;
      AllChildrenPrefix(nodes, order[..n], k);
      assert order[..n][..k] == order[..k];
    }
  }

  /** The children of the first k nodes reach at least the node at position k. */
  lemma OpenedEnough(nodes: seq<FrameNode>, order: seq<nat>, k: nat)
    requires TreeShaped(nodes) && IsBreadthFirst(nodes, order) && 0 < k < |order|
    ensures |AllChildren(nodes, order[..k])| >= k
  {
    hide TreeShaped, AllChildren;
    assert Distinct(order[1..k + 1]);
    hide IsBreadthFirst, Distinct;
    // Position k is a child of an earlier node, and so is everything before it.
    var part := order[1..k + 1];
    forall i | 0 <= i < |part|
      ensures part[i] in AllChildren(nodes, order[..k])
    {
      EarlierParent(nodes, order, i + 1, k);
    }
    DistinctMembers(part, AllChildren(nodes, order[..k]));
  }

  lemma EarlierParent(nodes: seq<FrameNode>, order: seq<nat>, i: nat, k: nat)
    requires IsBreadthFirst(nodes, order) && 0 < i <= k < |order|
    ensures order[i] in AllChildren(nodes, order[..k])
  {
    hide AllChildren, Distinct;
    var j :| 0 <= j < i && order[j] == nodes[order[i]].parent.value;
    ChildIsOpened(nodes, order[..k], j, order[i]);
  }

  lemma {:induction false} ChildIsOpened(nodes: seq<FrameNode>, order: seq<nat>, j: nat, c: nat)
    requires j < |order| && c < |nodes| && nodes[c].parent == Some(order[j])
    ensures c in AllChildren(nodes, order)
    decreases |order|
  {
    var n := |order| - 1;
    if j == n {
    } else {
      ChildIsOpened(nodes, order[..n], j, c);
    }
  }

  // ------------------------------------------------------------------ up to the root

  function PathUp(nodes: seq<FrameNode>, i: nat): (path: seq<nat>)
    requires TreeShaped(nodes) && i < |nodes|
    decreases i
  {
    if i == 0 then [0] else [i] + PathUp(nodes, nodes[i].parent.value)
  }

  /** The path to the root has one node per level: the guard against cycles never trips. */
  lemma {:induction false} PathUpDescends(nodes: seq<FrameNode>, i: nat)
    requires TreeShaped(nodes) && i < |nodes|
    ensures var path := PathUp(nodes, i);
            && |path| == nodes[i].depth + 1 && path[0] == i && path[|path| - 1] == 0
            && (forall k | 0 <= k < |path| :: path[k] < |nodes| && nodes[path[k]].depth == nodes[i].depth - k)
            && (forall k | 0 <= k < |path| - 1 :: nodes[path[k]].parent == Some(path[k + 1]) && path[k + 1] < path[k])
    decreases i
  {
    if i == 0 {
      assert PathUp(nodes, i) == [0];
    } else {
      var p := nodes[i].parent.value;
      assert p < i && nodes[p].depth + 1 == nodes[i].depth;
      PathUpDescends(nodes, p);
      var above := PathUp(nodes, p);
      assert PathUp(nodes, i) == [i] + above;
      hide TreeShaped, PathUp;
      assert forall k | 1 <= k < |above| + 1 :: ([i] + above)[k] == above[k - 1];
    }
  }

  /** `out` follows parent links from `start`, never visits a node twice, and stops at a
      node without parent, before a link out of the graph, or before a node already visited. */
  ghost predicate LinkedUp(nodes: seq<FrameNode>, start: nat, out: seq<nat>)
    ensures LinkedUp(nodes, start, out) ==> forall k | 0 <= k < |out| :: out[k] < |nodes|
  {
    && Distinct(out)
    && (forall k | 0 <= k < |out| :: out[k] < |nodes|)
    && (forall k | 0 <= k < |out| - 1 :: nodes[out[k]].parent == Some(out[k + 1]))
    && (out == [] <==> start >= |nodes|)
    && (out != [] ==> out[0] == start)
  }

  /** Terminates on any node list, even a cyclic one, and on a tree gives the path to the root. */
  method AncestorsInclusive(nodes: seq<FrameNode>, start: nat) returns (out: seq<nat>)
    ensures LinkedUp(nodes, start, out)
    ensures out != [] ==> var last := nodes[out[|out| - 1]];
              last.parent.Some? ==> last.parent.value >= |nodes| || last.parent.value in out
    ensures TreeShaped(nodes) && start < |nodes| ==> out == PathUp(nodes, start)
  {
    hide TreeShaped, PathUp, Distinct, LinkedUp;
    out := [];
    var idx := start;
    var visited: set<nat> := {};
    NothingRepeats(nodes, start);
    while idx < |nodes|
      invariant forall x :: x in visited <==> x in out
      invariant out != [] ==> LinkedUp(nodes, start, out) && nodes[out[|out| - 1]].parent == Some(idx)
      invariant out == [] ==> idx == start
      invariant ClimbsTree(nodes, start, out, idx)
      decreases |nodes| - |out|
    {
      if idx in visited {
        return;
      }
      ClimbOn(nodes, start, out, idx);
      LinkOn(nodes, start, out, idx);
      visited := visited + {idx};
      out := out + [idx];
      match nodes[idx].parent {
        case Some(p) => idx := p;
        case None => return;
      }
    }
    LinkedNowhere(nodes, start);
  }

  lemma LinkOn(nodes: seq<FrameNode>, start: nat, out: seq<nat>, idx: nat)
    requires out == [] ==> idx == start
    requires out != [] ==> LinkedUp(nodes, start, out) && nodes[out[|out| - 1]].parent == Some(idx)
    requires idx < |nodes| && idx !in out
    ensures LinkedUp(nodes, start, out + [idx]) && |out| < |nodes|
  {
    assert Distinct(out);
    DistinctSnoc(out, idx);
    DistinctFits(out + [idx], |nodes|);
  }

  lemma LinkedNowhere(nodes: seq<FrameNode>, start: nat)
    ensures start >= |nodes| ==> LinkedUp(nodes, start, [])
  {
  }

  lemma ClimbOn(nodes: seq<FrameNode>, start: nat, out: seq<nat>, idx: nat)
    requires ClimbsTree(nodes, start, out, idx) && idx < |nodes|
    ensures nodes[idx].parent.Some? ==> ClimbsTree(nodes, start, out + [idx], nodes[idx].parent.value)
    ensures nodes[idx].parent.None? && TreeShaped(nodes) && start < |nodes| ==> out + [idx] == PathUp(nodes, start)
  {
    if TreeShaped(nodes) && start < |nodes| && idx > 0 {
      assert out + PathUp(nodes, idx) == out + [idx] + PathUp(nodes, nodes[idx].parent.value);
    }
  }

  lemma NothingRepeats(nodes: seq<FrameNode>, start: nat)
    ensures Distinct<nat>([]) && ClimbsTree(nodes, start, [], start)
  {
    assert TreeShaped(nodes) && start < |nodes| ==> PathUp(nodes, start) == [] + PathUp(nodes, start);
  }

  lemma DistinctSnoc(s: seq<nat>, x: nat)
    requires Distinct(s) && x !in s
    ensures Distinct(s + [x])
  {
  }

  /** On a tree, the walk so far is the first part of the path to the root. */
  ghost predicate ClimbsTree(nodes: seq<FrameNode>, start: nat, out: seq<nat>, idx: nat) {
    TreeShaped(nodes) && start < |nodes| ==>
      && idx < |nodes| && PathUp(nodes, start) == out + PathUp(nodes, idx)
      && forall x | x in out :: idx < x
  }

  // ------------------------------------------------------------------ the deepest captcha

  /** The marked node of greatest depth, and the last of those. */
  function DeepestCaptcha(nodes: seq<FrameNode>): (r: Option<nat>)
    ensures r.None? <==> forall i | 0 <= i < |nodes| :: !nodes[i].hasCaptchaMarker
    ensures r.Some? ==> r.value < |nodes| && nodes[r.value].hasCaptchaMarker
    ensures r.Some? ==> forall i | 0 <= i < |nodes| && nodes[i].hasCaptchaMarker ::
              nodes[i].depth < nodes[r.value].depth || (nodes[i].depth == nodes[r.value].depth && i <= r.value)
  {
    if nodes == [] then None else
      var n := |nodes| - 1;
      var best := DeepestCaptcha(nodes[..n]);
      if nodes[n].hasCaptchaMarker && (best.None? || nodes[best.value].depth <= nodes[n].depth) then Some(n) else best
  }
}

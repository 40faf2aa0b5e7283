/**
 What probing the frames found, in the graph: every node carries its own frame's probe, and
 where no frame is listed under the wrong parent the deepest captcha is the deepest marked
 frame of the walk.
 */
module FrameProbes {
  import opened Wrappers
  import opened FrameForest
  import opened FrameTraversal
  import opened FrameViewport

  /** Whatever the entries, node i+1 carries the i-th one's id, title, URL and marker. */
  lemma NodesCarry(entries: seq<EnrichedFrame>, i: nat)
    requires i < |entries|
    ensures var n, e := Graph(entries)[i + 1], entries[i];
            n.frameId == Some(e.id) && n.title == e.title && n.url == e.url && n.hasCaptchaMarker == e.marker
  {
    assert Graph(entries)[i + 1] == NodeOf(entries, i);
  }

  /** The graph of a walk and its probes. */
  function Probed(tree: seq<FrameTreeNode>, probes: seq<(string, bool)>): (nodes: seq<FrameNode>)
    requires |tree| == |probes|
    ensures |nodes| == |tree| + 1
  {
    Graph(Enrich(tree, probes))
  }

  lemma ProbesArrive(tree: seq<FrameTreeNode>, probes: seq<(string, bool)>, i: nat)
    requires |tree| == |probes| && i < |tree|
    ensures var n := Probed(tree, probes)[i + 1];
            && n.frameId == Some(tree[i].id) && n.url == tree[i].url
            && n.title == probes[i].0 && n.hasCaptchaMarker == probes[i].1
    ensures Probed(tree, probes)[0] == FrameNode(None, None, "(root)", "", false, 0)
  {
    NodesCarry(Enrich(tree, probes), i);
  }

  // ------------------------------------------------------------------ frames under the right parent

  /** A frame of the parent's id is listed between the parent and the frame. */
  ghost predicate Strays(tree: seq<FrameTreeNode>, i: nat) {
    exists p: nat, q: nat :: StraysTo(tree, i, p, q)
  }

  ghost predicate StraysTo(tree: seq<FrameTreeNode>, i: nat, p: nat, q: nat) {
    HasParentAt(tree, i, p) && p < q < i && tree[q].id == tree[p].id
  }

  ghost predicate StraysPast(tree: seq<FrameTreeNode>, i: nat, p: nat) {
    exists q: nat :: StraysTo(tree, i, p, q)
  }

  lemma ParentIsSeen(tree: seq<FrameTreeNode>, probes: seq<(string, bool)>, i: nat, p: nat)
    requires |tree| == |probes| && p < i < |tree| && tree[i].parent == Some(tree[p].id)
    ensures var k := LastSeen(Enrich(tree, probes), i, tree[p].id);
            Probed(tree, probes)[i + 1].parent == Some(k) && p < k <= i && tree[k - 1].id == tree[p].id
            && forall q | k <= q < i :: tree[q].id != tree[p].id
  {
    hide Graph, LastSeen;
    var entries := Enrich(tree, probes);
    NodeParent(entries, i);
    var k := LastSeen(entries, i, tree[p].id);
    assert entries[p].id == tree[p].id && entries[i].parent == tree[i].parent;
    assert forall q | k <= q < i :: entries[q].id == tree[q].id;
  }

  lemma NodeParent(entries: seq<EnrichedFrame>, i: nat)
    requires i < |entries| && entries[i].parent.Some?
    ensures Graph(entries)[i + 1].parent == Some(LastSeen(entries, i, entries[i].parent.value))
  {
    hide DepthOf, LastSeen;
    assert Graph(entries)[i + 1] == NodeOf(entries, i);
  }

  /** A frame's node hangs below its parent's exactly when no such frame is between; else it
      hangs below the last of those, which is deeper. */
  lemma ParentIs(tree: seq<FrameTreeNode>, probes: seq<(string, bool)>, i: nat, p: nat)
    requires |tree| == |probes| && HasParentAt(tree, i, p)
    ensures Probed(tree, probes)[i + 1].parent == Some(p + 1) <==> !StraysPast(tree, i, p)
    ensures var k := Probed(tree, probes)[i + 1].parent;
            k.Some? && p < k.value <= i && (k.value > p + 1 ==> tree[k.value - 1].depth > tree[p].depth)
  {
    hide LastSeen, Enrich, Probed;
    ParentIsSeen(tree, probes, i, p);
    var k := LastSeen(Enrich(tree, probes), i, tree[p].id);
    if k > p + 1 {
      assert StraysTo(tree, i, p, k - 1);
    }
  }

  lemma TopIs(tree: seq<FrameTreeNode>, probes: seq<(string, bool)>, i: nat)
    requires |tree| == |probes| && i < |tree| && tree[i].parent.None?
    ensures Probed(tree, probes)[i + 1].parent == Some(0) && Probed(tree, probes)[i + 1].depth == 1
  {
    var entries := Enrich(tree, probes);
    assert Graph(entries)[i + 1] == NodeOf(entries, i);
  }

  /** A listed frame has a parent one level up, or is at the top. */
  lemma WalkHasParents(forest: seq<Info>, i: nat)
    requires i < |Flatten(forest, None, 0)|
    ensures var tree := Flatten(forest, None, 0);
            if tree[i].parent.None? then tree[i].depth == 0 else exists p: nat :: HasParentAt(tree, i, p)
  {
    hide Flatten;
    WalkPlaces(forest, None, 0, i);
  }

  ghost predicate DepthsMatch(nodes: seq<FrameNode>, tree: seq<FrameTreeNode>, n: nat)
    requires n <= |tree| && |nodes| == |tree| + 1
  {
    forall i | 0 <= i < n :: nodes[i + 1].depth == tree[i].depth + 1
  }

  lemma DepthFollowsParent(tree: seq<FrameTreeNode>, probes: seq<(string, bool)>, i: nat, p: nat)
    requires |tree| == |probes| && HasParentAt(tree, i, p) && DepthsMatch(Probed(tree, probes), tree, i)
    ensures Probed(tree, probes)[i + 1].depth == tree[i].depth + 1 <==> !StraysPast(tree, i, p)
  {
    hide StraysPast, Graph, Enrich, Encloses;
    var nodes := Probed(tree, probes);
    ParentIs(tree, probes, i, p);
    GraphIsATree(Enrich(tree, probes));
    var k := nodes[i + 1].parent.value;
    StepDown(nodes, i + 1);
    assert nodes[(k - 1) + 1].depth == tree[k - 1].depth + 1;
  }

  lemma StepDown(nodes: seq<FrameNode>, i: nat)
    requires TreeShaped(nodes) && 0 < i < |nodes|
    ensures nodes[i].parent.Some? && nodes[i].parent.value < i
    ensures nodes[i].depth == nodes[nodes[i].parent.value].depth + 1
  {
  }

  /** A frame has one parent. */
  lemma OneParent(tree: seq<FrameTreeNode>, i: nat, p: nat, q: nat)
    requires HasParentAt(tree, i, p) && HasParentAt(tree, i, q)
    ensures p == q
  {
  }

  /** On the walk of any forest, every node is one level deeper than the walk says exactly
      when no frame strays. */
  lemma {:induction false} DepthsMatchExactly(forest: seq<Info>, probes: seq<(string, bool)>, n: nat)
    requires |probes| == |Flatten(forest, None, 0)| && n <= |Flatten(forest, None, 0)|
    ensures var tree := Flatten(forest, None, 0);
            DepthsMatch(Probed(tree, probes), tree, n) <==> forall i | 0 <= i < n :: !Strays(tree, i)
    decreases n
  {
    hide Flatten, Probed, HasParentAt, StraysTo;
    var tree := Flatten(forest, None, 0);
    if n == 0 {
    } else {
      var i := n - 1;
      DepthsMatchExactly(forest, probes, i);
      WalkHasParents(forest, i);
      if tree[i].parent.None? {
        TopIs(tree, probes, i);
        TopNeverStrays(tree, i);
      } else if DepthsMatch(Probed(tree, probes), tree, i) {
        var p: nat :| HasParentAt(tree, i, p);
        DepthFollowsParent(tree, probes, i, p);
        StraysFrom(tree, i, p);
      }
    }
  }

  lemma TopNeverStrays(tree: seq<FrameTreeNode>, i: nat)
    requires i < |tree| && tree[i].parent.None?
    ensures !Strays(tree, i)
  {
  }

  lemma StraysFrom(tree: seq<FrameTreeNode>, i: nat, p: nat)
    requires HasParentAt(tree, i, p)
    ensures Strays(tree, i) <==> StraysPast(tree, i, p)
  {
    hide HasParentAt;
    if r: nat, q: nat :| StraysTo(tree, i, r, q) {
      OneParent(tree, i, p, r);
    }
  }

  /** No frame strays where none is nested inside one of its own id. */
  lemma UnnestedNeverStrays(tree: seq<FrameTreeNode>, i: nat)
    requires NoSelfNesting(tree)
    ensures !Strays(tree, i)
  {
    if p: nat, q: nat :| StraysTo(tree, i, p, q) {
      assert Encloses(tree, p, q);
    }
  }

  // ------------------------------------------------------------------ the deepest captcha

  /** On the walk of a forest with any probes, a captcha is found exactly when some frame is
      marked; the node found is a marked frame's. */
  lemma CaptchaIsMarked(tree: seq<FrameTreeNode>, probes: seq<(string, bool)>)
    requires |tree| == |probes|
    ensures var found := DeepestCaptcha(Probed(tree, probes));
            && (found.Some? <==> exists i | 0 <= i < |probes| :: probes[i].1)
            && (found.Some? ==> 0 < found.value <= |tree| && probes[found.value - 1].1)
  {
    hide DeepestCaptcha;
    var nodes := Probed(tree, probes);
    assert !nodes[0].hasCaptchaMarker;
    forall i | 0 <= i < |tree|
      ensures nodes[i + 1].hasCaptchaMarker == probes[i].1
    {
      ProbesArrive(tree, probes, i);
    }
    var found := DeepestCaptcha(nodes);
    if i :| 0 <= i < |probes| && probes[i].1 {
      assert nodes[i + 1].hasCaptchaMarker;
    }
    if found.Some? {
      assert nodes[(found.value - 1) + 1].hasCaptchaMarker == probes[found.value - 1].1;
    }
  }

  /** Where no frame strays it is the marked frame of greatest depth in the walk, and the
      last of those. */
  lemma CaptchaIsDeepest(forest: seq<Info>, probes: seq<(string, bool)>)
    requires |probes| == |Flatten(forest, None, 0)|
    requires forall i | 0 <= i < |Flatten(forest, None, 0)| :: !Strays(Flatten(forest, None, 0), i)
    ensures var tree := Flatten(forest, None, 0);
            var found := DeepestCaptcha(Probed(tree, probes));
            && (found.Some? <==> exists i | 0 <= i < |probes| :: probes[i].1)
            && (found.Some? ==>
                  && 0 < found.value <= |tree| && probes[found.value - 1].1
                  && forall i | 0 <= i < |tree| && probes[i].1 :: NotBefore(tree, i, found.value - 1))
  {
    hide Flatten, DeepestCaptcha, Strays, Probed;
    var tree := Flatten(forest, None, 0);
    var nodes := Probed(tree, probes);
    CaptchaIsMarked(tree, probes);
    DepthsMatchExactly(forest, probes, |tree|);
    var found := DeepestCaptcha(nodes);
    if found.Some? {
      var k := found.value - 1;
      assert nodes[k + 1].depth == tree[k].depth + 1;
      forall i | 0 <= i < |tree| && probes[i].1
        ensures NotBefore(tree, i, k)
      {
        ProbesArrive(tree, probes, i);
        assert nodes[i + 1].depth == tree[i].depth + 1;
      }
    }
  }

  /** Frame `k` is deeper than `i`, or as deep and listed no earlier. */
  predicate NotBefore(tree: seq<FrameTreeNode>, i: nat, k: nat)
    requires i < |tree| && k < |tree|
  {
    tree[i].depth < tree[k].depth || (tree[i].depth == tree[k].depth && i <= k)
  }

  // ------------------------------------------------------------------ a frame that strays

  function StrayForest(a: string, c: string, d: string, e: string): seq<Info> {
    [Info(a, "", Listed([Info(a, "", Absent), Info(c, "", Absent)])), Info(d, "", Listed([Info(e, "", Absent)]))]
  }

  function StrayWalk(a: string, c: string, d: string, e: string): seq<FrameTreeNode> {
    [FrameTreeNode(a, "", None, 0), FrameTreeNode(a, "", Some(a), 1), FrameTreeNode(c, "", Some(a), 1),
     FrameTreeNode(d, "", None, 0), FrameTreeNode(e, "", Some(d), 1)]
  }

  lemma StrayWalkIs(a: string, c: string, d: string, e: string)
    ensures Flatten(StrayForest(a, c, d, e), None, 0) == StrayWalk(a, c, d, e)
  {
    var kids, last := [Info(a, "", Absent), Info(c, "", Absent)], [Info(e, "", Absent)];
    assert kids[1..] == [Info(c, "", Absent)] && kids[1..][1..] == [] && last[1..] == [];
    assert Flatten(kids[1..], Some(a), 1) == [FrameTreeNode(c, "", Some(a), 1)];
    assert Flatten(kids, Some(a), 1) == [FrameTreeNode(a, "", Some(a), 1), FrameTreeNode(c, "", Some(a), 1)];
    assert Flatten(last, Some(d), 1) == [FrameTreeNode(e, "", Some(d), 1)];
    hide Flatten;
    var forest := StrayForest(a, c, d, e);
    assert forest[1..] == [Info(d, "", Listed(last))] && forest[1..][1..] == [];
    FlattenHead(forest, None, 0);
    FlattenHead(forest[1..], None, 0);
    FlattenNothing(None, 0);
  }

  /** Marked frames c and e, both at depth 1 and e listed last. But c comes after a frame
      nested in its parent a under a's own id, hangs below that one in the graph, and is
      taken for the deepest. */
  lemma StrayIsTakenForDeepest(a: string, c: string, d: string, e: string)
    requires a != d && a != c && c != d
    ensures var tree := Flatten(StrayForest(a, c, d, e), None, 0);
            var probes := [("", false), ("", false), ("", true), ("", false), ("", true)];
            && |tree| == |probes| && Strays(tree, 2)
            && DeepestCaptcha(Probed(tree, probes)) == Some(3) && !NotBefore(tree, 4, 2)
  {
    hide Flatten, DeepestCaptcha;
    StrayWalkIs(a, c, d, e);
    var tree := StrayWalk(a, c, d, e);
    var probes := [("", false), ("", false), ("", true), ("", false), ("", true)];
    assert Encloses(tree, 0, 2);
    assert StraysTo(tree, 2, 0, 1);
    StrayMarkers(tree, probes);
    StrayDepths(a, c, d, e, Enrich(tree, probes));
    var nodes := Probed(tree, probes);
    assert nodes == Graph(Enrich(tree, probes));
    hide Probed, Graph, Enrich, Encloses, StraysTo, StrayWalk, NotBefore;
    OnlyDeepest(nodes, 3);
  }

  /** The third frame and the fifth are marked. */
  lemma StrayMarkers(tree: seq<FrameTreeNode>, probes: seq<(string, bool)>)
    requires |tree| == 5 && probes == [("", false), ("", false), ("", true), ("", false), ("", true)]
    ensures forall i | 0 <= i < 6 :: Probed(tree, probes)[i].hasCaptchaMarker <==> i == 3 || i == 5
  {
    hide Probed;
    forall i | 0 <= i < 6
      ensures Probed(tree, probes)[i].hasCaptchaMarker <==> i == 3 || i == 5
    {
      ProbesArrive(tree, probes, if i == 0 then 0 else i - 1);
      assert i > 0 ==> Probed(tree, probes)[(i - 1) + 1].hasCaptchaMarker == probes[i - 1].1;
    }
  }

  lemma OnlyDeepest(nodes: seq<FrameNode>, k: nat)
    requires k < |nodes| && nodes[k].hasCaptchaMarker
    requires forall i | 0 <= i < |nodes| && i != k && nodes[i].hasCaptchaMarker :: nodes[i].depth < nodes[k].depth
    ensures DeepestCaptcha(nodes) == Some(k)
  {
    hide DeepestCaptcha;
  }

  lemma StrayDepths(a: string, c: string, d: string, e: string, entries: seq<EnrichedFrame>)
    requires a != d && a != c && c != d && |entries| == 5
    requires forall i | 0 <= i < 5 ::
               entries[i].id == StrayWalk(a, c, d, e)[i].id && entries[i].parent == StrayWalk(a, c, d, e)[i].parent
    ensures Graph(entries)[3].depth == 3 && Graph(entries)[5].depth == 2
  {
    hide Graph, LastSeen, ParentIndex, NodeOf;
    assert entries[0].id == a && entries[1].id == a && entries[2].id == c && entries[3].id == d;
    assert LastSeen(entries, 1, a) == 1;
    assert LastSeen(entries, 2, a) == 2;
    assert LastSeen(entries, 4, d) == 4;
    DepthFrom(entries, 0, 0);
    DepthFrom(entries, 1, 1);
    DepthFrom(entries, 2, 2);
    DepthFrom(entries, 3, 0);
    DepthFrom(entries, 4, 4);
  }

  lemma DepthFrom(entries: seq<EnrichedFrame>, i: nat, p: nat)
    requires i < |entries| && p <= i
    requires if entries[i].parent.None? then p == 0 else p == LastSeen(entries, i, entries[i].parent.value)
    ensures Graph(entries)[i + 1].depth == Graph(entries)[p].depth + 1
  {
    hide LastSeen, DepthOf;
    GraphIsATree(entries);
    assert Graph(entries)[i + 1] == NodeOf(entries, i);
  }
}

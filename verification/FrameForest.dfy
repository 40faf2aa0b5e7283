/**
 A page's frames: the nested contexts the browser reports, flattened to a pre-order list
 by `walk`, and rebuilt as a graph of parent indices by `assemble`. The graph is the
 forest again, exactly.
 */
module FrameForest {
  import opened Wrappers

  datatype Info = Info(context: string, url: string, children: ChildList)

  datatype ChildList = Absent | Listed(infos: seq<Info>)

  datatype FrameTreeNode = FrameTreeNode(id: string, url: string, parent: Option<string>, depth: nat)

  /** A listed frame with what probing its realm found. */
  datatype EnrichedFrame = EnrichedFrame(id: string, url: string, parent: Option<string>, title: string, marker: bool)

  datatype FrameNode = FrameNode(
    frameId: Option<string>, parent: Option<nat>, url: string, title: string, hasCaptchaMarker: bool, depth: nat)

  const ROOT := FrameNode(None, None, "(root)", "", false, 0)

  // ------------------------------------------------------------------ flattening

  function Flatten(list: seq<Info>, parent: Option<string>, depth: nat): seq<FrameTreeNode>
    decreases list
  {
    if list == [] then [] else
      [FrameTreeNode(list[0].context, list[0].url, parent, depth)]
      + (if list[0].children.Listed? then Flatten(list[0].children.infos, Some(list[0].context), depth + 1) else [])
      + Flatten(list[1..], parent, depth)
  }

  /** The list that `walk` pushes onto. */
  class Output {
    var nodes: seq<FrameTreeNode>

    constructor ()
      ensures nodes == []
    {
      nodes := [];
    }
  }

  method Walk(list: seq<Info>, parent: Option<string>, depth: nat, out: Output)
    modifies out
    ensures out.nodes == old(out.nodes) + Flatten(list, parent, depth)
    decreases list
  {
    hide Flatten;
    ghost var done: seq<FrameTreeNode> := [];
    assert list[0..] == list;
    for i := 0 to |list|
      invariant out.nodes == old(out.nodes) + done
      invariant Flatten(list, parent, depth) == done + Flatten(list[i..], parent, depth)
    {
      FlattenHead(list[i..], parent, depth);
      assert list[i..][1..] == list[i + 1..];
      out.nodes := out.nodes + [FrameTreeNode(list[i].context, list[i].url, parent, depth)];
      done := done + [FrameTreeNode(list[i].context, list[i].url, parent, depth)];
      if list[i].children.Listed? {
        Walk(list[i].children.infos, Some(list[i].context), depth + 1, out);
        done := done + Flatten(list[i].children.infos, Some(list[i].context), depth + 1);
      }
    }
    FlattenNothing(parent, depth);
  }

  lemma FlattenNothing(parent: Option<string>, depth: nat)
    ensures Flatten([], parent, depth) == []
  {
  }

  lemma FlattenHead(list: seq<Info>, parent: Option<string>, depth: nat)
    requires list != []
    ensures Flatten(list, parent, depth) ==
            [FrameTreeNode(list[0].context, list[0].url, parent, depth)]
            + (if list[0].children.Listed?
              then Flatten(list[0].children.infos, Some(list[0].context), depth + 1) else [])
            + Flatten(list[1..], parent, depth)
  {
  }

  // ------------------------------------------------------------------ assembling

  function Enrich(tree: seq<FrameTreeNode>, probes: seq<(string, bool)>): (entries: seq<EnrichedFrame>)
    requires |tree| == |probes|
    ensures |entries| == |tree|
  {
    seq(|tree|, i requires 0 <= i < |tree| =>
      EnrichedFrame(tree[i].id, tree[i].url, tree[i].parent, probes[i].0, probes[i].1))
  }

  /** One more than the last of the first `n` positions that carries this id; 0 for none. */
  function LastSeen(entries: seq<EnrichedFrame>, n: nat, id: string): (k: nat)
    requires n <= |entries|
    ensures k <= n
    ensures k > 0 ==> entries[k - 1].id == id
    ensures forall j | k <= j < n :: entries[j].id != id
  {
    if n == 0 then 0 else if entries[n - 1].id == id then n else LastSeen(entries, n - 1, id)
  }

  function ParentIndex(entries: seq<EnrichedFrame>, i: nat): (p: nat)
    requires i < |entries|
    ensures p <= i
  {
    if entries[i].parent.None? then 0 else LastSeen(entries, i, entries[i].parent.value)
  }

  function DepthOf(entries: seq<EnrichedFrame>, i: nat): nat
    requires i < |entries|
    decreases i
  {
    var p := ParentIndex(entries, i);
    1 + if p == 0 then 0 else DepthOf(entries, p - 1)
  }

  function NodeOf(entries: seq<EnrichedFrame>, i: nat): FrameNode
    requires i < |entries|
  {
    var e := entries[i];
    FrameNode(Some(e.id), Some(ParentIndex(entries, i)), e.url, e.title, e.marker, DepthOf(entries, i))
  }

  function Graph(entries: seq<EnrichedFrame>): (nodes: seq<FrameNode>)
    ensures |nodes| == |entries| + 1
    ensures nodes[0] == ROOT
    ensures forall i | 0 <= i < |entries| :: nodes[i + 1] == NodeOf(entries, i)
  {
    [ROOT] + seq(|entries|, i requires 0 <= i < |entries| => NodeOf(entries, i))
  }

  /** The table from context id to node index after the first `n` entries. */
  ghost predicate Tracks(idToIdx: map<string, nat>, entries: seq<EnrichedFrame>, n: nat)
    requires n <= |entries|
  {
    forall id :: (if id in idToIdx then idToIdx[id] else 0) == LastSeen(entries, n, id) &&
                 (id in idToIdx ==> idToIdx[id] > 0)
  }

  lemma TracksNext(idToIdx: map<string, nat>, entries: seq<EnrichedFrame>, n: nat)
    requires n < |entries| && Tracks(idToIdx, entries, n)
    ensures Tracks(idToIdx[entries[n].id := n + 1], entries, n + 1)
  {
    var next := idToIdx[entries[n].id := n + 1];
    forall id
      ensures (if id in next then next[id] else 0) == LastSeen(entries, n + 1, id)
      ensures id in next ==> next[id] > 0
    {
      assert LastSeen(entries, n + 1, id) == if entries[n].id == id then n + 1 else LastSeen(entries, n, id);
    }
  }

  lemma TrackedParent(idToIdx: map<string, nat>, entries: seq<EnrichedFrame>, i: nat)
    requires i < |entries| && Tracks(idToIdx, entries, i)
    ensures ParentIndex(entries, i) == if entries[i].parent.Some? && entries[i].parent.value in idToIdx
                                       then idToIdx[entries[i].parent.value] else 0
  {
  }

  method Assemble(entries: seq<EnrichedFrame>) returns (nodes: seq<FrameNode>)
    ensures nodes == Graph(entries)
  {
    hide LastSeen, Tracks, ParentIndex;
    nodes := [ROOT];
    var idToIdx: map<string, nat> := map[];
    NothingTracked(entries);
    for i := 0 to |entries|
      invariant |nodes| == i + 1 && nodes[0] == ROOT
      invariant forall j | 0 <= j < i :: nodes[j + 1] == NodeOf(entries, j)
      invariant Tracks(idToIdx, entries, i)
    {
      var e := entries[i];
      TrackedParent(idToIdx, entries, i);
      var parentIdx := if e.parent.Some? && e.parent.value in idToIdx then idToIdx[e.parent.value] else 0;
      var depth := nodes[parentIdx].depth + 1;
      assert parentIdx > 0 ==> nodes[parentIdx] == NodeOf(entries, parentIdx - 1);
      TracksNext(idToIdx, entries, i);
      idToIdx := idToIdx[e.id := |nodes|];
      nodes := nodes + [FrameNode(Some(e.id), Some(parentIdx), e.url, e.title, e.marker, depth)];
    }
  }

  lemma NothingTracked(entries: seq<EnrichedFrame>)
    ensures Tracks(map[], entries, 0)
  {
  }

  /** Parents come before their children and depth counts the steps to the root. */
  ghost predicate TreeShaped(nodes: seq<FrameNode>) {
    && |nodes| > 0 && nodes[0].parent == None && nodes[0].depth == 0
    && forall i | 1 <= i < |nodes| ::
         && nodes[i].parent.Some? && nodes[i].parent.value < i
         && nodes[i].depth == nodes[nodes[i].parent.value].depth + 1
  }

  /** Whatever the entries, even with duplicate or out-of-order ids, the graph is a tree. */
  lemma GraphIsATree(entries: seq<EnrichedFrame>)
    ensures TreeShaped(Graph(entries))
  {
    var nodes := Graph(entries);
    forall i | 1 <= i < |nodes|
      ensures nodes[i].parent.Some? && nodes[i].parent.value < i
      ensures nodes[i].depth == nodes[nodes[i].parent.value].depth + 1
    {
      var p := ParentIndex(entries, i - 1);
      assert nodes[i] == NodeOf(entries, i - 1);
      if p > 0 {
        assert nodes[p] == NodeOf(entries, p - 1);
      }
    }
  }

  // ------------------------------------------------------------------ queries

  function ChildrenIn(nodes: seq<FrameNode>, parent: nat, lo: nat, hi: nat): seq<nat>
    requires lo <= hi <= |nodes|
    decreases hi - lo
  {
    if lo == hi then []
    else if nodes[lo].parent == Some(parent) then [lo] + ChildrenIn(nodes, parent, lo + 1, hi)
    else ChildrenIn(nodes, parent, lo + 1, hi)
  }

  /** The child nodes of `parent`, in index order. */
  function Children(nodes: seq<FrameNode>, parent: nat): (kids: seq<nat>)
    ensures forall c: nat :: c in kids <==> c < |nodes| && nodes[c].parent == Some(parent)
    ensures Ascending(kids)
  {
    ChildrenInAre(nodes, parent, 0, |nodes|);
    ChildrenInAscend(nodes, parent, 0, |nodes|);
    ChildrenIn(nodes, parent, 0, |nodes|)
  }

  lemma {:induction false} ChildrenInAre(nodes: seq<FrameNode>, parent: nat, lo: nat, hi: nat)
    requires lo <= hi <= |nodes|
    ensures forall c: nat :: c in ChildrenIn(nodes, parent, lo, hi) <==> lo <= c < hi && nodes[c].parent == Some(parent)
    decreases hi - lo
  {
    if lo == hi {
    } else {
      ChildrenInAre(nodes, parent, lo + 1, hi);
    }
  }

  predicate Ascending(s: seq<nat>) {
    forall i, j | 0 <= i < j < |s| :: s[i] < s[j]
  }

  lemma AscendingCons(x: nat, rest: seq<nat>)
    requires Ascending(rest) && forall c | c in rest :: x < c
    ensures Ascending([x] + rest)
  {
    var s := [x] + rest;
    forall i, j | 0 <= i < j < |s|
      ensures s[i] < s[j]
    {
      assert s[j] == rest[j - 1] && rest[j - 1] in rest;
      assert i > 0 ==> s[i] == rest[i - 1];
    }
  }

  lemma {:induction false} ChildrenInAscend(nodes: seq<FrameNode>, parent: nat, lo: nat, hi: nat)
    requires lo <= hi <= |nodes|
    ensures Ascending(ChildrenIn(nodes, parent, lo, hi))
    decreases hi - lo
  {
    hide Ascending;
    if lo < hi {
      ChildrenInAscend(nodes, parent, lo + 1, hi);
      ChildrenInAre(nodes, parent, lo + 1, hi);
      AscendingCons(lo, ChildrenIn(nodes, parent, lo + 1, hi));
    } else {
      assert Ascending([]) by { NothingAscends(); }
    }
  }

  lemma NothingAscends()
    ensures Ascending([])
  {
  }

  /** The frame at a node with everything below it, read off the graph by `Children`. */
  function TreeAt(nodes: seq<FrameNode>, i: nat): Info
    requires TreeShaped(nodes) && i < |nodes|
    decreases |nodes| - i
  {
    var kids := Children(nodes, i);
    Info(if nodes[i].frameId.Some? then nodes[i].frameId.value else "", nodes[i].url,
         Listed(seq(|kids|, k requires 0 <= k < |kids| => assert kids[k] in kids; TreeAt(nodes, kids[k]))))
  }

  /** A forest with every missing child list written as an empty one. */
  function Normalize(list: seq<Info>): (r: seq<Info>)
    ensures |r| == |list|
  {
    if list == [] then [] else
      [Info(list[0].context, list[0].url,
            Listed(if list[0].children.Listed? then Normalize(list[0].children.infos) else []))]
      + Normalize(list[1..])
  }

  function Size(list: seq<Info>): nat {
    if list == [] then 0 else
      1 + (if list[0].children.Listed? then Size(list[0].children.infos) else 0) + Size(list[1..])
  }

  // ------------------------------------------------------------------ the list lays out the forest

  ghost predicate DistinctContexts(tree: seq<FrameTreeNode>) {
    forall i, j | 0 <= i < j < |tree| :: tree[i].id != tree[j].id
  }

  /** From node `start` on, the graph lists `list` in pre-order below node `parent`. */
  ghost predicate Laid(nodes: seq<FrameNode>, list: seq<Info>, parent: nat, start: nat)
    decreases list
  {
    list != [] ==>
      && start < |nodes|
      && nodes[start].frameId == Some(list[0].context)
      && nodes[start].url == list[0].url
      && nodes[start].parent == Some(parent)
      && (list[0].children.Listed? ==> Laid(nodes, list[0].children.infos, start, start + 1))
      && Laid(nodes, list[1..], parent, start + KidSize(list[0]) + 1)
  }

  function Below(info: Info): seq<Info> {
    if info.children.Listed? then info.children.infos else []
  }

  function KidSize(info: Info): nat {
    Size(Below(info))
  }

  lemma {:induction false} FlattenSize(list: seq<Info>, parent: Option<string>, depth: nat)
    ensures |Flatten(list, parent, depth)| == Size(list)
    decreases list
  {
    if list == [] {
    } else {
      if list[0].children.Listed? {
        FlattenSize(list[0].children.infos, Some(list[0].context), depth + 1);
      }
      FlattenSize(list[1..], parent, depth);
    }
  }

  /** Where a context id occurs only once, it is the last one seen ever after. */
  lemma OnlySeen(entries: seq<EnrichedFrame>, k: nat, n: nat, id: string)
    requires k < n <= |entries| && entries[k].id == id
    requires forall j | k < j < n :: entries[j].id != id
    ensures LastSeen(entries, n, id) == k + 1
  {
  }

  /** The pre-order list of a forest: the first frame, its descendants, the rest. */
  lemma PartSplits(tree: seq<FrameTreeNode>, list: seq<Info>, parent: Option<string>, depth: nat, k: nat, m: nat)
    requires list != [] && k + Size(list) <= |tree| && m == k + 1 + KidSize(list[0])
    requires tree[k..k + Size(list)] == Flatten(list, parent, depth)
    ensures m + Size(list[1..]) == k + Size(list)
    ensures tree[k] == FrameTreeNode(list[0].context, list[0].url, parent, depth)
    ensures tree[k + 1..m] == Flatten(Below(list[0]), Some(list[0].context), depth + 1)
    ensures tree[m..k + Size(list)] == Flatten(list[1..], parent, depth)
  {
    hide *;
    var first := FrameTreeNode(list[0].context, list[0].url, parent, depth);
    var kids := Flatten(Below(list[0]), Some(list[0].context), depth + 1);
    var rest := Flatten(list[1..], parent, depth);
    PartIs(list, parent, depth);
    SizeSplits(list);
    FirstOfSlice(tree, k, k + Size(list), first, kids + rest);
    assert [first] + kids + rest == [first] + (kids + rest);
    Slices(tree, k, k + 1, m, k + Size(list), [first], kids, rest);
  }

  lemma PartIs(list: seq<Info>, parent: Option<string>, depth: nat)
    requires list != []
    ensures Flatten(list, parent, depth) ==
            [FrameTreeNode(list[0].context, list[0].url, parent, depth)]
            + Flatten(Below(list[0]), Some(list[0].context), depth + 1)
            + Flatten(list[1..], parent, depth)
    ensures |Flatten(Below(list[0]), Some(list[0].context), depth + 1)| == KidSize(list[0])
  {
    FlattenSize(Below(list[0]), Some(list[0].context), depth + 1);
    FlattenNothing(Some(list[0].context), depth + 1);
    FlattenHead(list, parent, depth);
    hide Flatten, Size;
  }

  lemma FirstOfSlice<T>(s: seq<T>, lo: nat, hi: nat, x: T, rest: seq<T>)
    requires lo <= hi <= |s| && s[lo..hi] == [x] + rest
    ensures s[lo] == x
  {
    assert s[lo] == s[lo..hi][0];
  }

  lemma Slices<T>(s: seq<T>, lo: nat, i: nat, j: nat, hi: nat, a: seq<T>, b: seq<T>, c: seq<T>)
    requires lo <= i <= j <= hi <= |s| && s[lo..hi] == a + b + c
    requires |a| == i - lo && |b| == j - i
    ensures s[lo..i] == a && s[i..j] == b && s[j..hi] == c
  {
    var t := s[lo..hi];
    assert t[0..i - lo] == a && t[i - lo..j - lo] == b && t[j - lo..hi - lo] == c;
    SliceOfSlice(s, lo, hi, 0, i - lo);
    SliceOfSlice(s, lo, hi, i - lo, j - lo);
    SliceOfSlice(s, lo, hi, j - lo, hi - lo);
  }

  lemma SliceOfSlice<T>(s: seq<T>, lo: nat, hi: nat, from: nat, to: nat)
    requires lo <= hi <= |s| && from <= to <= hi - lo
    ensures s[lo..hi][from..to] == s[lo + from..lo + to]
  {
    forall i | 0 <= i < to - from
      ensures s[lo..hi][from..to][i] == s[lo + from..lo + to][i]
    {
      assert s[lo..hi][from..to][i] == s[lo..hi][from + i] == s[lo + from + i];
    }
  }

  /** A frame's node: its parent is the node of the context named as its parent. */
  lemma FrameNodeIs(tree: seq<FrameTreeNode>, probes: seq<(string, bool)>, k: nat, p: nat)
    requires |tree| == |probes| && DistinctContexts(tree) && p <= k < |tree|
    requires if tree[k].parent.None? then p == 0 else p > 0 && tree[p - 1].id == tree[k].parent.value
    ensures var nodes := Graph(Enrich(tree, probes));
            && nodes[k + 1].frameId == Some(tree[k].id) && nodes[k + 1].url == tree[k].url
            && nodes[k + 1].parent == Some(p) && nodes[k + 1].depth == nodes[p].depth + 1
  {
    var entries := Enrich(tree, probes);
    if tree[k].parent.Some? {
      OnlySeen(entries, p - 1, k, tree[k].parent.value);
    }
    assert Graph(entries)[k + 1] == NodeOf(entries, k);
    GraphIsATree(entries);
  }

  /** Part of the pre-order list is a sub-forest: its nodes hang below `p`, the node of the
      context the list names as their parent, and one level deeper than it. */
  lemma {:induction false} FlattenIsLaid(tree: seq<FrameTreeNode>, probes: seq<(string, bool)>, list: seq<Info>,
                                         parent: Option<string>, depth: nat, k: nat, p: nat)
    requires |tree| == |probes| && DistinctContexts(tree)
    requires k + Size(list) <= |tree| && tree[k..k + Size(list)] == Flatten(list, parent, depth)
    requires p <= k && (if parent.None? then p == 0 else p > 0 && tree[p - 1].id == parent.value)
    requires Graph(Enrich(tree, probes))[p].depth == depth
    ensures Laid(Graph(Enrich(tree, probes)), list, p, k + 1)
    ensures AllDeeper(Graph(Enrich(tree, probes)), tree, k, k + Size(list))
    decreases list
  {
    hide Flatten, Graph, Enrich, DistinctContexts, Size, KidSize, Laid, Deeper, AllDeeper;
    SizeSplits(list);
    var nodes := Graph(Enrich(tree, probes));
    if list == [] {
      NothingLaid(nodes, tree, p, k);
    } else {
      var m := k + 1 + KidSize(list[0]);
      PartSplits(tree, list, parent, depth, k, m);
      FrameNodeIs(tree, probes, k, p);
      KidSizeIs(list[0]);
      if list[0].children.Listed? {
        FlattenIsLaid(tree, probes, list[0].children.infos, Some(list[0].context), depth + 1, k + 1, k + 1);
      } else {
        NothingLaid(nodes, tree, p, m);
      }
      FlattenIsLaid(tree, probes, list[1..], parent, depth, m, p);
      LaidCons(nodes, list, p, k + 1);
      DeeperJoins(nodes, tree, k, m, k + Size(list));
    }
  }

  lemma KidSizeIs(info: Info)
    ensures KidSize(info) == if info.children.Listed? then Size(info.children.infos) else 0
  {
  }

  lemma NothingLaid(nodes: seq<FrameNode>, tree: seq<FrameTreeNode>, p: nat, k: nat)
    ensures Laid(nodes, [], p, k + 1) && AllDeeper(nodes, tree, k, k)
  {
  }

  /** A laid forest is its first frame's node, the laid frames below it and the laid rest. */
  lemma LaidCons(nodes: seq<FrameNode>, list: seq<Info>, p: nat, start: nat)
    requires list != []
    ensures Laid(nodes, list, p, start) <==>
            && start < |nodes| && nodes[start].frameId == Some(list[0].context)
            && nodes[start].url == list[0].url && nodes[start].parent == Some(p)
            && (list[0].children.Listed? ==> Laid(nodes, list[0].children.infos, start, start + 1))
            && Laid(nodes, list[1..], p, start + KidSize(list[0]) + 1)
  {
    hide KidSize;
  }

  ghost predicate AllDeeper(nodes: seq<FrameNode>, tree: seq<FrameTreeNode>, lo: nat, hi: nat) {
    forall i | lo <= i < hi :: Deeper(nodes, tree, i)
  }

  lemma DeeperJoins(nodes: seq<FrameNode>, tree: seq<FrameTreeNode>, k: nat, m: nat, hi: nat)
    requires k < m <= hi <= |tree| && k + 1 < |nodes| && nodes[k + 1].depth == tree[k].depth + 1
    requires AllDeeper(nodes, tree, k + 1, m) && AllDeeper(nodes, tree, m, hi)
    ensures AllDeeper(nodes, tree, k, hi)
  {
    assert Deeper(nodes, tree, k);
  }

  lemma SizeSplits(list: seq<Info>)
    ensures Size(list) == if list == [] then 0 else 1 + KidSize(list[0]) + Size(list[1..])
  {
  }

  /** The node of the i-th listed frame is one level deeper than the walk says. */
  ghost predicate Deeper(nodes: seq<FrameNode>, tree: seq<FrameTreeNode>, i: nat) {
    i < |tree| && i + 1 < |nodes| && nodes[i + 1].depth == tree[i].depth + 1
  }

  // ------------------------------------------------------------------ reading the forest back

  function Starts(list: seq<Info>, start: nat): (starts: seq<nat>)
    ensures |starts| == |list|
    ensures forall c | c in starts :: c >= start
  {
    if list == [] then [] else [start] + Starts(list[1..], start + KidSize(list[0]) + 1)
  }

  lemma {:induction false} ChildrenInSplit(nodes: seq<FrameNode>, q: nat, lo: nat, mid: nat, hi: nat)
    requires lo <= mid <= hi <= |nodes|
    ensures ChildrenIn(nodes, q, lo, hi) == ChildrenIn(nodes, q, lo, mid) + ChildrenIn(nodes, q, mid, hi)
    decreases mid - lo
  {
    if lo == mid {
    } else {
      ChildrenInSplit(nodes, q, lo + 1, mid, hi);
    }
  }

  lemma {:induction false} LaidFits(nodes: seq<FrameNode>, list: seq<Info>, p: nat, start: nat)
    requires Laid(nodes, list, p, start) && start <= |nodes|
    ensures start + Size(list) <= |nodes|
    decreases list
  {
    if list == [] {
    } else {
      if list[0].children.Listed? {
        LaidFits(nodes, list[0].children.infos, start, start + 1);
      }
      LaidFits(nodes, list[1..], p, start + KidSize(list[0]) + 1);
    }
  }

  /** Within the nodes of a laid forest, the children of its parent are its top-level
      frames, and no earlier node has a child there. */
  lemma {:induction false} LaidChildren(nodes: seq<FrameNode>, list: seq<Info>, p: nat, start: nat, q: nat)
    requires Laid(nodes, list, p, start) && p < start && q < start && start + Size(list) <= |nodes|
    ensures ChildrenIn(nodes, q, start, start + Size(list)) == if q == p then Starts(list, start) else []
    decreases list
  {
    hide Laid, Size, KidSize, ChildrenIn, Starts;
    SizeSplits(list);
    StartsCons(list, start);
    if list != [] {
      LaidCons(nodes, list, p, start);
      KidSizeIs(list[0]);
      var mid := start + 1 + KidSize(list[0]);
      if list[0].children.Listed? {
        LaidChildren(nodes, list[0].children.infos, start, start + 1, q);
      }
      LaidChildren(nodes, list[1..], p, mid, q);
      ChildrenInSplit(nodes, q, start + 1, mid, start + Size(list));
      ChildrenInCons(nodes, q, start, start + Size(list));
      NoneIn(nodes, q, mid);
    } else {
      NoneIn(nodes, q, start);
    }
  }

  lemma StartsCons(list: seq<Info>, start: nat)
    ensures Starts(list, start) == if list == [] then [] else [start] + Starts(list[1..], start + KidSize(list[0]) + 1)
  {
  }

  lemma ChildrenInCons(nodes: seq<FrameNode>, q: nat, lo: nat, hi: nat)
    requires lo < hi <= |nodes|
    ensures ChildrenIn(nodes, q, lo, hi) ==
            (if nodes[lo].parent == Some(q) then [lo] else []) + ChildrenIn(nodes, q, lo + 1, hi)
  {
  }

  lemma NoneIn(nodes: seq<FrameNode>, q: nat, at: nat)
    requires at <= |nodes|
    ensures ChildrenIn(nodes, q, at, at) == []
  {
  }

  function Trees(nodes: seq<FrameNode>, at: seq<nat>): (r: seq<Info>)
    requires TreeShaped(nodes) && forall c | c in at :: c < |nodes|
    ensures |r| == |at|
  {
    seq(|at|, k requires 0 <= k < |at| => assert at[k] in at; TreeAt(nodes, at[k]))
  }

  lemma NoChildrenBefore(nodes: seq<FrameNode>, q: nat)
    requires TreeShaped(nodes) && q < |nodes|
    ensures ChildrenIn(nodes, q, 0, q + 1) == []
  {
    NoChildrenFrom(nodes, q, 0);
  }

  lemma {:induction false} NoChildrenFrom(nodes: seq<FrameNode>, q: nat, lo: nat)
    requires TreeShaped(nodes) && lo <= q + 1 <= |nodes|
    ensures ChildrenIn(nodes, q, lo, q + 1) == []
    decreases q + 1 - lo
  {
    if lo <= q {
      NoChildrenFrom(nodes, q, lo + 1);
      assert nodes[lo].parent != Some(q);
    }
  }

  /** No node from `at` on is a child of `q`. */
  ghost predicate Barren(nodes: seq<FrameNode>, q: nat, at: nat) {
    at <= |nodes| && ChildrenIn(nodes, q, at, |nodes|) == []
  }

  lemma EmptyIsLaid(nodes: seq<FrameNode>, p: nat, start: nat)
    ensures Laid(nodes, [], p, start)
  {
  }

  /** The children of the first frame of a laid forest are its child list's top level. */
  lemma FirstFrameChildren(nodes: seq<FrameNode>, list: seq<Info>, p: nat, start: nat)
    requires TreeShaped(nodes) && Laid(nodes, list, p, start) && p < start && list != []
    requires start + 1 + KidSize(list[0]) <= |nodes|
    requires Barren(nodes, start, start + 1 + KidSize(list[0]))
    ensures Children(nodes, start) == Starts(Below(list[0]), start + 1)
  {
    hide TreeShaped, Starts, Size, Laid, ChildrenIn;
    LaidCons(nodes, list, p, start);
    EmptyIsLaid(nodes, start, start + 1);
    var mid := start + 1 + KidSize(list[0]);
    LaidChildren(nodes, Below(list[0]), start, start + 1, start);
    assert nodes[start..] != [];
    NoChildrenBefore(nodes, start);
    ChildrenInSplit(nodes, start, 0, start + 1, |nodes|);
    ChildrenInSplit(nodes, start, start + 1, mid, |nodes|);
  }

  /** Beyond the first frame's descendants nothing hangs below it or them. */
  lemma RestIsBarren(nodes: seq<FrameNode>, list: seq<Info>, p: nat, start: nat, q: nat)
    requires Laid(nodes, list, p, start) && list != [] && start + Size(list) <= |nodes|
    requires p < start <= q < start + 1 + KidSize(list[0])
    requires Barren(nodes, q, start + Size(list))
    ensures Barren(nodes, q, start + 1 + KidSize(list[0]))
  {
    hide Laid, Size, KidSize, ChildrenIn, Starts;
    LaidCons(nodes, list, p, start);
    SizeSplits(list);
    var mid := start + 1 + KidSize(list[0]);
    LaidChildren(nodes, list[1..], p, mid, q);
    ChildrenInSplit(nodes, q, mid, start + Size(list), |nodes|);
  }

  lemma TreeAtIs(nodes: seq<FrameNode>, i: nat)
    requires TreeShaped(nodes) && 0 < i < |nodes| && nodes[i].frameId.Some?
    ensures forall c | c in Children(nodes, i) :: c < |nodes|
    ensures TreeAt(nodes, i) == Info(nodes[i].frameId.value, nodes[i].url, Listed(Trees(nodes, Children(nodes, i))))
  {
  }

  lemma TreesCons(nodes: seq<FrameNode>, first: nat, rest: seq<nat>)
    requires TreeShaped(nodes) && first < |nodes| && forall c | c in rest :: c < |nodes|
    ensures forall c | c in [first] + rest :: c < |nodes|
    ensures Trees(nodes, [first] + rest) == [TreeAt(nodes, first)] + Trees(nodes, rest)
  {
    hide TreeAt;
  }

  lemma {:induction false} LaidRebuilds(nodes: seq<FrameNode>, list: seq<Info>, p: nat, start: nat, end: nat)
    requires TreeShaped(nodes) && Laid(nodes, list, p, start) && p < start && end == start + Size(list) <= |nodes|
    requires forall q | start <= q < end :: Barren(nodes, q, end)
    ensures forall c | c in Starts(list, start) :: c < |nodes|
    ensures Trees(nodes, Starts(list, start)) == Normalize(list)
    decreases list
  {
    hide TreeShaped, TreeAt, Trees, Children, Barren, Size, Starts, Normalize;
    SizeSplits(list);
    StartsAndNormalize(list, start);
    NoTrees(nodes);
    if list == [] {
    } else {
      var mid := start + 1 + KidSize(list[0]);
      forall q | start <= q < mid
        ensures Barren(nodes, q, mid)
      {
        RestIsBarren(nodes, list, p, start, q);
      }
      if list[0].children.Listed? {
        LaidRebuilds(nodes, list[0].children.infos, start, start + 1, mid);
      } else {
        StartsAndNormalize(Below(list[0]), start + 1);
      }
      LaidRebuilds(nodes, list[1..], p, mid, end);
      FirstFrameChildren(nodes, list, p, start);
      TreeAtIs(nodes, start);
      TreesCons(nodes, start, Starts(list[1..], mid));
    }
  }

  lemma StartsAndNormalize(list: seq<Info>, start: nat)
    ensures Starts(list, start) == if list == [] then [] else [start] + Starts(list[1..], start + 1 + KidSize(list[0]))
    ensures Normalize(list) == if list == [] then [] else
              [Info(list[0].context, list[0].url, Listed(Normalize(Below(list[0]))))] + Normalize(list[1..])
  {
  }

  lemma NoTrees(nodes: seq<FrameNode>)
    requires TreeShaped(nodes)
    ensures Trees(nodes, []) == []
  {
  }

  // ------------------------------------------------------------------ main result

  /** The graph assembled from the walk of a forest with distinct context ids is that
      forest: reading it back by `Children` from the root gives every frame in place. */
  lemma GraphRebuildsForest(forest: seq<Info>, probes: seq<(string, bool)>)
    requires |probes| == |Flatten(forest, None, 0)|
    requires DistinctContexts(Flatten(forest, None, 0))
    ensures TreeShaped(Graph(Enrich(Flatten(forest, None, 0), probes)))
    ensures TreeAt(Graph(Enrich(Flatten(forest, None, 0), probes)), 0) == Info("", "(root)", Listed(Normalize(forest)))
  {
    hide Flatten, Enrich, Size, DistinctContexts, TreeAt, TreeShaped, Graph, Laid, AllDeeper, Normalize;
    var tree := Flatten(forest, None, 0);
    var nodes := Graph(Enrich(tree, probes));
    GraphIsATree(Enrich(tree, probes));
    FlattenSize(forest, None, 0);
    assert tree[0..|tree|] == tree;
    FlattenIsLaid(tree, probes, forest, None, 0, 0, 0);
    RootRebuilds(nodes, forest);
  }

  lemma EndIsBarren(nodes: seq<FrameNode>)
    ensures forall q: nat :: Barren(nodes, q, |nodes|)
  {
  }

  lemma RootRebuilds(nodes: seq<FrameNode>, forest: seq<Info>)
    requires |nodes| > 0 && TreeShaped(nodes) && nodes[0] == ROOT && Laid(nodes, forest, 0, 1)
        && |nodes| == 1 + Size(forest)
    ensures TreeAt(nodes, 0) == Info("", "(root)", Listed(Normalize(forest)))
  {
    hide TreeShaped, ChildrenIn, Laid, Normalize, Size, Starts, Barren, Children, Trees;
    EndIsBarren(nodes);
    LaidRebuilds(nodes, forest, 0, 1, |nodes|);
    RootChildren(nodes, forest);
    RootTree(nodes);
  }

  lemma RootChildren(nodes: seq<FrameNode>, forest: seq<Info>)
    requires TreeShaped(nodes) && Laid(nodes, forest, 0, 1) && |nodes| == 1 + Size(forest)
    ensures Children(nodes, 0) == Starts(forest, 1)
  {
    hide TreeShaped, ChildrenIn, Laid, Starts;
    NonEmptyTree(nodes);
    LaidChildren(nodes, forest, 0, 1, 0);
    NoChildrenBefore(nodes, 0);
    ChildrenInSplit(nodes, 0, 0, 1, |nodes|);
  }

  lemma NonEmptyTree(nodes: seq<FrameNode>)
    requires TreeShaped(nodes)
    ensures |nodes| > 0
  {
  }

  lemma RootTree(nodes: seq<FrameNode>)
    requires TreeShaped(nodes) && |nodes| > 0 && nodes[0] == ROOT
    ensures forall c | c in Children(nodes, 0) :: c < |nodes|
    ensures TreeAt(nodes, 0) == Info("", "(root)", Listed(Trees(nodes, Children(nodes, 0))))
  {
  }

  /** `i` in the list names no parent but the given one or a frame listed before it. */
  ghost predicate ParentListed(part: seq<FrameTreeNode>, parent: Option<string>, i: nat)
    requires i < |part|
  {
    part[i].parent == parent || exists j | 0 <= j < i :: part[i].parent == Some(part[j].id)
  }

  lemma {:induction false} ParentsAreListed(list: seq<Info>, parent: Option<string>, depth: nat, i: nat)
    requires i < |Flatten(list, parent, depth)|
    ensures ParentListed(Flatten(list, parent, depth), parent, i)
    decreases list
  {
    hide Flatten, ParentListed, Size, KidSize;
    FlattenSize(list, parent, depth);
    SizeSplits(list);
    if list == [] {
    } else {
      var part := Flatten(list, parent, depth);
      var id := Some(list[0].context);
      var m := 1 + KidSize(list[0]);
      assert part[0..|part|] == part;
      PartSplits(part, list, parent, depth, 0, m);
      KidSizeIs(list[0]);
      if i == 0 {
        FirstIsListed(part, parent);
      } else if i < m {
        ParentsAreListed(list[0].children.infos, id, depth + 1, i - 1);
        ListedWithin(part, part[1..m], 1, id, i - 1, parent);
      } else {
        ParentsAreListed(list[1..], parent, depth, i - m);
        ListedWithin(part, part[m..|part|], m, parent, i - m, parent);
      }
    }
  }

  lemma FirstIsListed(part: seq<FrameTreeNode>, parent: Option<string>)
    requires part != [] && part[0].parent == parent
    ensures ParentListed(part, parent, 0)
  {
  }

  /** A parent listed within a slice, or named by it and listed first, is listed. */
  lemma ListedWithin(part: seq<FrameTreeNode>, slice: seq<FrameTreeNode>, at: nat, id: Option<string>, i: nat,
                     parent: Option<string>)
    requires 0 < at && at + |slice| <= |part| && part[at..at + |slice|] == slice && i < |slice|
    requires ParentListed(slice, id, i)
    requires id == parent || id == Some(part[0].id)
    ensures ParentListed(part, parent, at + i)
  {
    assert part[at + i] == slice[i];
    if j :| 0 <= j < i && slice[i].parent == Some(slice[j].id) {
      assert part[at + j] == slice[j];
    }
  }

  /** Each listed frame has its own node, one deeper than the walk says, below the node
      of the context named as its parent; the attach-to-root fallback is never taken. */
  lemma EveryFrameIsPlaced(forest: seq<Info>, probes: seq<(string, bool)>, i: nat)
    requires |probes| == |Flatten(forest, None, 0)| && i < |Flatten(forest, None, 0)|
    requires DistinctContexts(Flatten(forest, None, 0))
    ensures var tree := Flatten(forest, None, 0);
            var nodes := Graph(Enrich(tree, probes));
            && TreeShaped(nodes)
            && nodes[i + 1].frameId == Some(tree[i].id) && nodes[i + 1].depth == tree[i].depth + 1
            && (tree[i].parent.None? <==> nodes[i + 1].parent == Some(0))
            && (tree[i].parent.Some? ==> nodes[nodes[i + 1].parent.value].frameId == tree[i].parent)
  {
    hide Flatten, Size, Laid, Graph, TreeShaped;
    var tree := Flatten(forest, None, 0);
    FlattenSize(forest, None, 0);
    assert tree[0..|tree|] == tree;
    GraphIsATree(Enrich(tree, probes));
    FlattenIsLaid(tree, probes, forest, None, 0, 0, 0);
    assert Deeper(Graph(Enrich(tree, probes)), tree, i);
    ParentsAreListed(forest, None, 0, i);
    if tree[i].parent.None? {
      FrameNodeIs(tree, probes, i, 0);
    } else {
      var j :| 0 <= j < i && tree[i].parent == Some(tree[j].id);
      FrameNodeIs(tree, probes, i, j + 1);
      assert Graph(Enrich(tree, probes))[j + 1] == NodeOf(Enrich(tree, probes), j);
    }
  }
}

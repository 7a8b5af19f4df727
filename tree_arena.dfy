/** The node arena of the suffix tree (D3_suf_tree.cpp, struct Node). A node
    pointer becomes an index into a sequence of nodes: `parentRoot_` is 0,
    `root_` is 1 and `nullptr` is -1. The fields that `findCounts` fills in,
    `lengthOfSubstring` and `count`, live in sequences beside the arena (see
    SuffixTree). Beside the arena the model keeps a proof-only `depth` per
    node: the length of the path from the root to the node. */
module TreeArena {

  /** One node: the edge into it spells `text[start..finish)`; its suffix
      link, its parent and its children keyed by first symbol. A leaf's
      `finish` is the length of the whole text, fixed when the tree is made. */
  datatype Node = Node(start: int, finish: int, link: int, parent: int, children: map<char, nat>)

  /** `Position`: the point `dist` symbols above the end of `node`'s edge;
      `dist == 0` is the node itself. */
  datatype Position = Position(node: int, dist: int)

  const ParentRoot := 0
  const Root := 1

  /** The depth of a point: the depth of its node less the distance up. */
  function PosDepth(depth: seq<int>, p: Position): int
    requires 0 <= p.node < |depth|
  {
    depth[p.node] - p.dist
  }

  /** A point names a node of the arena and lies on that node's edge. */
  ghost predicate Placed(ns: seq<Node>, p: Position) {
    0 <= p.node < |ns| && 0 <= p.dist && (p.dist == 0 || p.dist < ns[p.node].finish - ns[p.node].start)
  }

  /** `parentRoot_` and `root_` as the constructor makes them: the root's
      edge `[-1, 0)` is the one-symbol step that `parentRoot_` takes on any
      symbol, and the root's link is `parentRoot_`. */
  ghost predicate Ends(ns: seq<Node>, depth: seq<int>) {
    && |ns| >= 2 && |depth| == |ns|
    && ns[ParentRoot] == Node(-1, -1, -1, -1, map[])
    && ns[Root].start == -1 && ns[Root].finish == 0 && ns[Root].link == ParentRoot && ns[Root].parent == ParentRoot
    && depth[ParentRoot] == -1 && depth[Root] == 0
  }

  /** The edge into `x` is non-empty, ends no later than the whole text, and
      the depths add up along it; the edge's text starts at or after index 0
      once its depth is subtracted. */
  ghost predicate Hung(ns: seq<Node>, depth: seq<int>, size: int, x: int)
    requires 1 <= x < |ns| && |depth| == |ns|
  {
    var n := ns[x];
    && 0 <= n.parent < |ns| && (x >= 2 ==> n.parent >= 1)
    && n.start < n.finish <= size
    && depth[x] == depth[n.parent] + n.finish - n.start
    && 0 <= depth[x] <= size && n.finish - depth[x] >= 0
  }

  /** The child of `x` under `d` is a proper node whose parent is `x` and
      whose edge begins with `d`. */
  ghost predicate ChildOk(ns: seq<Node>, text: seq<char>, x: int, d: char)
    requires 0 <= x < |ns| && d in ns[x].children
  {
    var y := ns[x].children[d];
    2 <= y < |ns| && ns[y].parent == x && 0 <= ns[y].start < |text| && text[ns[y].start] == d
  }

  /** A proper node is the child of its parent under its edge's first symbol. */
  ghost predicate Keyed(ns: seq<Node>, text: seq<char>, x: int)
    requires 2 <= x < |ns|
  {
    var n := ns[x];
    && 0 <= n.start < |text| && 0 <= n.parent < |ns|
    && text[n.start] in ns[n.parent].children && ns[n.parent].children[text[n.start]] == x
  }

  /** A suffix link is null or a node one symbol shallower. */
  ghost predicate LinkOk(ns: seq<Node>, depth: seq<int>, x: int)
    requires 0 <= x < |ns| && |depth| == |ns|
  {
    -1 <= ns[x].link < |ns| && (ns[x].link >= 0 ==> depth[ns[x].link] == depth[x] - 1)
  }

  /** What holds of the arena between two operations of `SuffixTree`. */
  ghost predicate Formed(ns: seq<Node>, text: seq<char>, depth: seq<int>, size: int) {
    && Ends(ns, depth)
    && |text| <= size
    && (forall x :: 1 <= x < |ns| ==> Hung(ns, depth, size, x))
    && (forall x :: 2 <= x < |ns| ==> Keyed(ns, text, x))
    && (forall x, d {:trigger ChildOk(ns, text, x, d)} :: 0 <= x < |ns| && d in ns[x].children ==> ChildOk(ns, text, x, d))
    && (forall x :: 0 <= x < |ns| ==> LinkOk(ns, depth, x))
  }

  /** Every node's depth is below that of its children, so the proper
      nodes lie deeper than the root. */
  lemma ChildDeeper(ns: seq<Node>, text: seq<char>, depth: seq<int>, size: int, x: int, d: char)
    requires Formed(ns, text, depth, size) && 0 <= x < |ns| && d in ns[x].children
    ensures ChildOk(ns, text, x, d)
    ensures depth[x] < depth[ns[x].children[d]] <= size
  {
    assert ChildOk(ns, text, x, d);
    assert Hung(ns, depth, size, ns[x].children[d]);
  }

  // ---------------------------------------------------------------- updates

  /** `makeNode` at a point inside an edge: a new node takes the upper part
      of the edge of `y`, `y` keeps the lower part below it, and the new node
      replaces `y` among the children of `y`'s old parent. */
  function Split(ns: seq<Node>, text: seq<char>, p: Position): seq<Node>
    requires 2 <= p.node < |ns| && 0 < p.dist < ns[p.node].finish - ns[p.node].start
    requires 0 <= ns[p.node].parent < |ns| && 0 <= ns[p.node].start && ns[p.node].finish - p.dist < |text|
  {
    var y := p.node;
    var n := ns[y];
    var e := n.finish - p.dist;
    var q := n.parent;
    var ns1 := ns[y := n.(start := e, parent := |ns|)];
    ns1[q := ns1[q].(children := ns1[q].children[text[n.start] := |ns|])] + [Node(n.start, e, -1, q, map[text[e] := y])]
  }

  /** The new leaf of `add`: its edge runs from the last symbol read to the
      end of the whole text, and it hangs under `v` by that symbol. */
  function AddLeaf(ns: seq<Node>, text: seq<char>, size: int, v: int): seq<Node>
    requires 0 <= v < |ns| && |text| >= 1
  {
    ns[v := ns[v].(children := ns[v].children[text[|text| - 1] := |ns|])] + [Node(|text| - 1, size, -1, v, map[])]
  }

  /** `node->link = ...`. */
  function SetLink(ns: seq<Node>, x: int, m: int): seq<Node>
    requires 0 <= x < |ns|
  {
    ns[x := ns[x].(link := m)]
  }

  /** Reading one more symbol keeps the arena formed. */
  lemma PushFormed(ns: seq<Node>, text: seq<char>, depth: seq<int>, size: int, c: char)
    requires Formed(ns, text, depth, size) && |text| < size
    ensures Formed(ns, text + [c], depth, size)
  {
    var t := text + [c];
    forall x | 2 <= x < |ns| ensures Keyed(ns, t, x) {
      assert Keyed(ns, text, x);
      assert t[ns[x].start] == text[ns[x].start];
    }
    forall x, d | 0 <= x < |ns| && d in ns[x].children ensures ChildOk(ns, t, x, d) {
      assert ChildOk(ns, text, x, d);
      assert t[ns[ns[x].children[d]].start] == text[ns[ns[x].children[d]].start];
    }
    forall x | 0 <= x < |ns| ensures LinkOk(ns, depth, x) {
      assert LinkOk(ns, depth, x);
    }
  }

  /** Setting the link of a node without one to a node one shallower keeps
      the arena formed. */
  lemma SetLinkFormed(ns: seq<Node>, text: seq<char>, depth: seq<int>, size: int, x: int, m: int)
    requires Formed(ns, text, depth, size) && 2 <= x < |ns| && 0 <= m < |ns| && depth[m] == depth[x] - 1
    ensures Formed(SetLink(ns, x, m), text, depth, size)
    ensures Grown(ns, SetLink(ns, x, m))
  {
    var r := SetLink(ns, x, m);
    forall y | 1 <= y < |r| ensures Hung(r, depth, size, y) {
      assert Hung(ns, depth, size, y);
    }
    forall y | 2 <= y < |r| ensures Keyed(r, text, y) {
      assert Keyed(ns, text, y);
    }
    forall y, d | 0 <= y < |r| && d in r[y].children ensures ChildOk(r, text, y, d) {
      assert ChildOk(ns, text, y, d);
    }
    forall y | 0 <= y < |r| ensures LinkOk(r, depth, y) {
      assert LinkOk(ns, depth, y);
    }
  }

  /** The new leaf keeps the arena formed when `v` has no child under the
      symbol just read and lies no deeper than the text read before it. */
  lemma AddLeafFormed(ns: seq<Node>, text: seq<char>, depth: seq<int>, size: int, v: int)
    requires Formed(ns, text, depth, size) && 1 <= v < |ns| && |text| >= 1
    requires text[|text| - 1] !in ns[v].children && depth[v] <= |text| - 1
    ensures Formed(AddLeaf(ns, text, size, v), text, depth + [depth[v] + size - (|text| - 1)], size)
    ensures Grown(ns, AddLeaf(ns, text, size, v))
  {
    var c := text[|text| - 1];
    var r := AddLeaf(ns, text, size, v);
    var dp := depth + [depth[v] + size - (|text| - 1)];
    var l := |ns|;
    assert Hung(ns, depth, size, v);
    forall y | 1 <= y < |r| ensures Hung(r, dp, size, y) {
      if y < l { assert Hung(ns, depth, size, y); }
    }
    forall y | 2 <= y < |r| ensures Keyed(r, text, y) {
      if y < l {
        assert Keyed(ns, text, y);
        if ns[y].parent == v { assert text[ns[y].start] != c; }
      }
    }
    forall y, d | 0 <= y < |r| && d in r[y].children ensures ChildOk(r, text, y, d) {
      if y < l && !(y == v && d == c) { assert ChildOk(ns, text, y, d); }
    }
    forall y | 0 <= y < |r| ensures LinkOk(r, dp, y) {
      if y < l { assert LinkOk(ns, depth, y); }
    }
  }

  /** The parent of a proper node is another node, shallower than it. */
  lemma ParentShallower(ns: seq<Node>, text: seq<char>, depth: seq<int>, size: int, y: int)
    requires Formed(ns, text, depth, size) && 2 <= y < |ns|
    ensures Hung(ns, depth, size, y) && Keyed(ns, text, y)
    ensures 1 <= ns[y].parent < |ns| && ns[y].parent != y && depth[ns[y].parent] < depth[y]
  {
    assert Hung(ns, depth, size, y);
    assert Keyed(ns, text, y);
  }

  /** Splitting an edge at a point inside it keeps the arena formed; the new
      node has the depth of the point. */
  lemma SplitFormed(ns: seq<Node>, text: seq<char>, depth: seq<int>, size: int, p: Position)
    requires Formed(ns, text, depth, size) && Placed(ns, p) && p.dist > 0
    requires ns[p.node].finish - p.dist < |text|
    ensures 2 <= p.node && 0 <= ns[p.node].parent < |ns| && 0 <= ns[p.node].start
    ensures Formed(Split(ns, text, p), text, depth + [PosDepth(depth, p)], size)
    ensures depth[ns[p.node].parent] < PosDepth(depth, p)
    ensures Grown(ns, Split(ns, text, p)) && KeptBelow(ns, Split(ns, text, p), depth, PosDepth(depth, p))
  {
    assert p.node != ParentRoot && p.node != Root;
    ParentShallower(ns, text, depth, size, p.node);
    SplitHung(ns, text, depth, size, p);
    SplitKeyed(ns, text, depth, size, p);
    SplitChildren(ns, text, depth, size, p);
    var r := Split(ns, text, p);
    forall x | 0 <= x < |r| ensures LinkOk(r, depth + [PosDepth(depth, p)], x) {
      if x < |ns| { assert LinkOk(ns, depth, x); }
    }
  }

  lemma SplitHung(ns: seq<Node>, text: seq<char>, depth: seq<int>, size: int, p: Position)
    requires Formed(ns, text, depth, size) && Placed(ns, p) && p.dist > 0 && 2 <= p.node
    requires ns[p.node].finish - p.dist < |text|
    requires Hung(ns, depth, size, p.node) && Keyed(ns, text, p.node)
    requires 1 <= ns[p.node].parent < |ns| && ns[p.node].parent != p.node
    ensures var r := Split(ns, text, p);
            forall x :: 1 <= x < |r| ==> Hung(r, depth + [PosDepth(depth, p)], size, x)
  {
    var r := Split(ns, text, p);
    var dp := depth + [PosDepth(depth, p)];
    var q := ns[p.node].parent;
    assert Hung(ns, depth, size, q);
    forall x | 1 <= x < |r| ensures Hung(r, dp, size, x) {
      if x < |ns| && x != p.node { assert Hung(ns, depth, size, x); }
    }
  }

  lemma SplitKeyed(ns: seq<Node>, text: seq<char>, depth: seq<int>, size: int, p: Position)
    requires Formed(ns, text, depth, size) && Placed(ns, p) && p.dist > 0 && 2 <= p.node
    requires ns[p.node].finish - p.dist < |text|
    requires Hung(ns, depth, size, p.node) && Keyed(ns, text, p.node)
    requires 1 <= ns[p.node].parent < |ns| && ns[p.node].parent != p.node
    ensures var r := Split(ns, text, p);
            forall x :: 2 <= x < |r| ==> Keyed(r, text, x)
  {
    var r := Split(ns, text, p);
    var y := p.node;
    var q := ns[y].parent;
    forall x | 2 <= x < |r| ensures Keyed(r, text, x) {
      if x < |ns| && x != y {
        assert Keyed(ns, text, x);
        if ns[x].parent == q {
          assert text[ns[x].start] != text[ns[y].start];
        }
      }
    }
  }

  lemma SplitChildren(ns: seq<Node>, text: seq<char>, depth: seq<int>, size: int, p: Position)
    requires Formed(ns, text, depth, size) && Placed(ns, p) && p.dist > 0 && 2 <= p.node
    requires ns[p.node].finish - p.dist < |text|
    requires Hung(ns, depth, size, p.node) && Keyed(ns, text, p.node)
    requires 1 <= ns[p.node].parent < |ns| && ns[p.node].parent != p.node
    ensures var r := Split(ns, text, p);
            forall x, d :: 0 <= x < |r| && d in r[x].children ==> ChildOk(r, text, x, d)
  {
    var r := Split(ns, text, p);
    var y := p.node;
    var q := ns[y].parent;
    forall x, d | 0 <= x < |r| && d in r[x].children ensures ChildOk(r, text, x, d) {
      if x < |ns| && !(x == q && d == text[ns[y].start]) {
        assert ChildOk(ns, text, x, d);
      }
    }
  }

  // ---------------------------------------------------------------- frames
  // Each frame quantifies over a predicate of its own, so that its
  // instances are made only where a proof asks for them.

  /** `b` keeps the entries of `a` and may add more. */
  ghost predicate Extends(a: seq<int>, b: seq<int>) {
    |a| <= |b| && forall i :: 0 <= i < |a| ==> Same(a, b, i)
  }

  ghost predicate Same(a: seq<int>, b: seq<int>, i: int)
    requires 0 <= i < |a| <= |b|
  {
    b[i] == a[i]
  }

  /** The count and length slots of new nodes start at zero. */
  ghost predicate Padded(a: seq<int>, b: seq<int>) {
    Extends(a, b) && forall i :: |a| <= i < |b| ==> b[i] == 0
  }

  /** `a` followed by zeros up to length `n`. */
  function Pad(a: seq<int>, n: int): (r: seq<int>)
    requires |a| <= n
    ensures |r| == n
  {
    a + seq(n - |a|, _ => 0)
  }

  /** A padded sequence is its start followed by zeros. */
  lemma PaddedIsPad(a: seq<int>, b: seq<int>)
    requires Padded(a, b)
    ensures b == Pad(a, |b|)
  {
    forall i | 0 <= i < |b| ensures b[i] == Pad(a, |b|)[i] {
      if i < |a| { assert Same(a, b, i); }
    }
  }

  /** From `ns` to `ns2` nodes are only added and no edge end moves. */
  ghost predicate Grown(ns: seq<Node>, ns2: seq<Node>) {
    |ns| <= |ns2| && forall y :: 0 <= y < |ns| ==> EndKept(ns, ns2, y)
  }

  ghost predicate EndKept(ns: seq<Node>, ns2: seq<Node>, y: int)
    requires 0 <= y < |ns| <= |ns2|
  {
    ns2[y].finish == ns[y].finish
  }

  /** Every node whose parent lies at depth `level` or deeper keeps its edge
      and its parent: the splits made lie above `level`. */
  ghost predicate KeptBelow(ns: seq<Node>, ns2: seq<Node>, depth: seq<int>, level: int)
    requires |ns| <= |ns2|
  {
    forall y :: 0 <= y < |ns| ==> EdgeKept(ns, ns2, depth, level, y)
  }

  ghost predicate EdgeKept(ns: seq<Node>, ns2: seq<Node>, depth: seq<int>, level: int, y: int)
    requires 0 <= y < |ns| <= |ns2|
  {
    0 <= ns[y].parent < |depth| && depth[ns[y].parent] >= level ==>
      ns2[y].start == ns[y].start && ns2[y].parent == ns[y].parent
  }

  /** A frame at one level holds at every deeper level; no change keeps every edge. */
  lemma KeptWeaken(ns: seq<Node>, ns2: seq<Node>, depth: seq<int>, l1: int, l2: int)
    requires |ns| <= |ns2| && KeptBelow(ns, ns2, depth, l1) && l1 <= l2
    ensures KeptBelow(ns, ns2, depth, l2)
  {
    forall y | 0 <= y < |ns| ensures EdgeKept(ns, ns2, depth, l2, y) {
      assert EdgeKept(ns, ns2, depth, l1, y);
    }
  }

  lemma KeptSame(ns: seq<Node>, depth: seq<int>, level: int)
    ensures Grown(ns, ns) && KeptBelow(ns, ns, depth, level)
  {
    forall y | 0 <= y < |ns| ensures EdgeKept(ns, ns, depth, level, y) && EndKept(ns, ns, y) {
    }
  }

  /** Setting a link moves no edge. */
  lemma SetLinkKept(ns: seq<Node>, depth: seq<int>, x: int, m: int, level: int)
    requires 0 <= x < |ns|
    ensures KeptBelow(ns, SetLink(ns, x, m), depth, level)
  {
    var r := SetLink(ns, x, m);
    forall y | 0 <= y < |ns| ensures EdgeKept(ns, r, depth, level, y) {
    }
  }

  lemma ExtendsSnoc(a: seq<int>, v: int)
    ensures Extends(a, a + [v]) && (v == 0 ==> Padded(a, a + [v]))
  {
    forall i | 0 <= i < |a| ensures Same(a, a + [v], i) {
    }
  }

  lemma ExtendsTrans(a: seq<int>, b: seq<int>, c: seq<int>)
    requires Extends(a, b) && Extends(b, c)
    ensures Extends(a, c)
  {
    forall i | 0 <= i < |a| ensures Same(a, c, i) {
      assert Same(a, b, i) && Same(b, c, i);
    }
  }

  lemma GrownTrans(ns: seq<Node>, ns2: seq<Node>, ns3: seq<Node>)
    requires Grown(ns, ns2) && Grown(ns2, ns3)
    ensures Grown(ns, ns3)
  {
    forall y | 0 <= y < |ns| ensures EndKept(ns, ns3, y) {
      assert EndKept(ns, ns2, y) && EndKept(ns2, ns3, y);
    }
  }

  lemma PaddedTrans(a: seq<int>, b: seq<int>, c: seq<int>)
    requires Padded(a, b) && Padded(b, c)
    ensures Padded(a, c)
  {
    ExtendsTrans(a, b, c);
    forall i | |a| <= i < |c| ensures c[i] == 0 {
      if i < |b| { assert Same(b, c, i); }
    }
  }

  /** The two frames compose, and a frame at a level holds at every deeper one. */
  lemma FramesCompose(ns: seq<Node>, ns2: seq<Node>, ns3: seq<Node>, depth: seq<int>, depth2: seq<int>, l1: int, l2: int, level: int)
    requires Grown(ns, ns2) && Grown(ns2, ns3) && Extends(depth, depth2) && |depth| == |ns|
    requires KeptBelow(ns, ns2, depth, l1) && KeptBelow(ns2, ns3, depth2, l2)
    requires l1 <= level && l2 <= level
    ensures Grown(ns, ns3) && KeptBelow(ns, ns3, depth, level)
  {
    GrownTrans(ns, ns2, ns3);
    forall y | 0 <= y < |ns| ensures EdgeKept(ns, ns3, depth, level, y) {
      assert EdgeKept(ns, ns2, depth, l1, y);
      if 0 <= ns[y].parent < |depth| && depth[ns[y].parent] >= level {
        assert Same(depth, depth2, ns[y].parent);
        assert EdgeKept(ns2, ns3, depth2, l2, y);
      }
    }
  }
}

/** The read-only helpers of SuffixTree (D3_suf_tree.cpp): points of the tree
    and the steps between them. */
module TreeReads {
  import opened TreeArena

  /** `Node::getLength`. */
  function GetLength(n: Node): int {
    n.finish - n.start
  }

  /** `Node::getStartIndex`: where the text of a node of the given depth begins. */
  function GetStartIndex(n: Node, lengthOfSubstring: int): int {
    n.finish - lengthOfSubstring
  }

  /** `isNode`. */
  predicate IsNode(p: Position) {
    p.dist == 0
  }

  /** At a point inside an edge, `canGo` reads the text at
      `edgeFinish - dist`; the read is defined when that index lies in the
      text read so far. */
  predicate Readable(ns: seq<Node>, text: seq<char>, p: Position)
    requires 0 <= p.node < |ns|
  {
    p.dist == 0 || 0 <= ns[p.node].finish - p.dist < |text|
  }

  /** `canGo`: from `parentRoot_` any symbol leads on; at another node, a
      child under `c`; inside an edge, the next symbol of the edge is `c`. */
  predicate CanGo(ns: seq<Node>, text: seq<char>, p: Position, c: char)
    requires 0 <= p.node < |ns| && Readable(ns, text, p)
  {
    if IsNode(p) then p.node == ParentRoot || c in ns[p.node].children
    else text[ns[p.node].finish - p.dist] == c
  }

  /** `getNextPosition`: one symbol down from a node; from `parentRoot_`
      that is the root, otherwise the first symbol of the child's edge. */
  function GetNextPosition(ns: seq<Node>, x: int, c: char): Position
    requires Root < |ns| && 0 <= x < |ns|
    requires x == ParentRoot || (c in ns[x].children && ns[x].children[c] < |ns|)
  {
    var child := if x == ParentRoot then Root else ns[x].children[c];
    Position(child, GetLength(ns[child]) - 1)
  }

  /** `go`. */
  function Go(ns: seq<Node>, text: seq<char>, p: Position, c: char): Position
    requires Root < |ns| && 0 <= p.node < |ns| && (p.node == ParentRoot || forall d :: d in ns[p.node].children ==> ns[p.node].children[d] < |ns|)
    requires Readable(ns, text, p) && CanGo(ns, text, p, c)
  {
    if IsNode(p) then GetNextPosition(ns, p.node, c) else Position(p.node, p.dist - 1)
  }

  /** `q` is where `go` leads from `p` on `c`: `p` can step on `c` and `q`
      is the point one symbol further. */
  ghost predicate StepsTo(ns: seq<Node>, text: seq<char>, p: Position, c: char, q: Position) {
    && Root < |ns| && 0 <= p.node < |ns|
    && (p.node == ParentRoot || forall d :: d in ns[p.node].children ==> ns[p.node].children[d] < |ns|)
    && Readable(ns, text, p) && CanGo(ns, text, p, c) && q == Go(ns, text, p, c)
  }

  /** The symbol just before a point inside an edge: the last symbol of the
      path from the root to that point. */
  function Before(ns: seq<Node>, text: seq<char>, p: Position): char
    requires 0 <= p.node < |ns| && 0 <= ns[p.node].finish - p.dist - 1 < |text|
  {
    text[ns[p.node].finish - p.dist - 1]
  }

  /** What a point is in a formed arena: `parentRoot_` only as itself, the
      root only at its end, every point at least as deep as `parentRoot_`, and
      a point inside an edge strictly below the edge's parent. */
  lemma PlacedDepth(ns: seq<Node>, text: seq<char>, depth: seq<int>, size: int, p: Position)
    requires Formed(ns, text, depth, size) && Placed(ns, p)
    ensures PosDepth(depth, p) >= -1
    ensures p.node == ParentRoot ==> p.dist == 0 && PosDepth(depth, p) == -1
    ensures p.node != ParentRoot ==> PosDepth(depth, p) >= 0
    ensures p.dist > 0 ==> 2 <= p.node && 0 <= ns[p.node].start < ns[p.node].finish - p.dist
  {
    if p.node != ParentRoot {
      assert Hung(ns, depth, size, p.node);
      if p.node != Root {
        assert Hung(ns, depth, size, ns[p.node].parent);
        assert Keyed(ns, text, p.node);
      }
    }
  }

  /** `go` steps exactly one symbol deeper, lands on a point of the tree
      other than `parentRoot_`, and that point is reached by reading `c`
      (unless it is the root, reached from `parentRoot_`). */
  lemma GoDeeper(ns: seq<Node>, text: seq<char>, depth: seq<int>, size: int, p: Position, c: char)
    requires Formed(ns, text, depth, size) && Placed(ns, p)
    requires Readable(ns, text, p) && CanGo(ns, text, p, c)
    ensures p.node == ParentRoot || forall d :: d in ns[p.node].children ==> ns[p.node].children[d] < |ns|
    ensures var r := Go(ns, text, p, c);
            && Placed(ns, r) && r.node != ParentRoot && PosDepth(depth, r) == PosDepth(depth, p) + 1
            && (r.node != Root ==> 0 <= ns[r.node].finish - r.dist - 1 < |text| && Before(ns, text, r) == c)
  {
    PlacedDepth(ns, text, depth, size, p);
    if p.node != ParentRoot {
      forall d | d in ns[p.node].children ensures ns[p.node].children[d] < |ns| {
        assert ChildOk(ns, text, p.node, d);
      }
    }
    if IsNode(p) && p.node != ParentRoot {
      var y := ns[p.node].children[c];
      assert ChildOk(ns, text, p.node, c);
      assert Hung(ns, depth, size, y);
    }
  }

  /** `getNextPosition` from a node that can step on `c`: one symbol deeper. */
  lemma NextDeeper(ns: seq<Node>, text: seq<char>, depth: seq<int>, size: int, x: int, c: char)
    requires Formed(ns, text, depth, size) && 0 <= x < |ns| && (x == ParentRoot || c in ns[x].children)
    ensures x == ParentRoot || ns[x].children[c] < |ns|
    ensures var r := GetNextPosition(ns, x, c);
            Placed(ns, r) && r.node != ParentRoot && PosDepth(depth, r) == depth[x] + 1
  {
    if x != ParentRoot {
      assert ChildOk(ns, text, x, c);
      assert Hung(ns, depth, size, ns[x].children[c]);
    }
  }
}

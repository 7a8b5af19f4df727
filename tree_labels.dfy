/** What the suffix tree of D3_suf_tree.cpp spells. The path from the root
    to a node spells a window of the text: `text[Ls(y) .. finish)`, where
    `Ls(y)` is the node's `finish` less its depth, and a point `dist`
    symbols up an edge spells that window less its last `dist` symbols.
    The predicates here say when these windows fit together along every
    edge and link, and the lemmas show that a point is then fixed by the
    text it spells, so that walking down the tree along a text reaches the
    one point that spells it. */
module TreeLabels {
  import opened TreeArena
  import opened TreeReads

  /** The index just past the last symbol read to reach `p`. */
  function Idx(ns: seq<Node>, p: Position): int
    requires 0 <= p.node < |ns|
  {
    ns[p.node].finish - p.dist
  }

  /** Where the text of the path to node `y` starts. */
  function Ls(ns: seq<Node>, depth: seq<int>, y: int): int
    requires 0 <= y < |ns| == |depth|
  {
    ns[y].finish - depth[y]
  }

  /** The window a point spells lies inside the text. */
  ghost predicate Framed(ns: seq<Node>, text: seq<char>, depth: seq<int>, p: Position) {
    0 <= p.node < |ns| == |depth| && 0 <= Ls(ns, depth, p.node) <= Idx(ns, p) <= |text|
  }

  /** The text a point spells. */
  ghost function Lab(ns: seq<Node>, text: seq<char>, depth: seq<int>, p: Position): seq<char>
    requires Framed(ns, text, depth, p)
  {
    text[Ls(ns, depth, p.node) .. Idx(ns, p)]
  }

  /** A point below `parentRoot_` whose window ends within `text[..n]`. */
  ghost predicate Real(ns: seq<Node>, depth: seq<int>, p: Position, n: int) {
    Placed(ns, p) && 1 <= p.node && |depth| == |ns| && Idx(ns, p) <= n
  }

  /** The point `p` spells `text[i..j)` and its window ends within `text[..n]`. */
  ghost predicate Spells(ns: seq<Node>, text: seq<char>, depth: seq<int>, p: Position, i: int, j: int, n: int) {
    && Real(ns, depth, p, n) && n <= |text| && 0 <= i <= j <= |text|
    && Framed(ns, text, depth, p) && PosDepth(depth, p) == j - i
    && Lab(ns, text, depth, p) == text[i..j]
  }

  /** The window of the node `y` starts with the window of its parent. */
  ghost predicate Agrees(ns: seq<Node>, text: seq<char>, depth: seq<int>, y: int)
    requires 2 <= y < |ns| == |depth|
  {
    var q := ns[y].parent;
    && 0 <= q < |ns| && Framed(ns, text, depth, Position(q, 0))
    && 0 <= Ls(ns, depth, y) && 0 <= depth[q] && Ls(ns, depth, y) + depth[q] <= |text|
    && text[Ls(ns, depth, y) .. Ls(ns, depth, y) + depth[q]] == Lab(ns, text, depth, Position(q, 0))
  }

  /** A node without children is a leaf, whose edge runs to the end of the
      whole text; a node with children ends within `text[..n]`. */
  ghost predicate Kind(ns: seq<Node>, size: int, n: int, y: int)
    requires 0 <= y < |ns|
  {
    if ns[y].children == map[] then ns[y].finish == size else ns[y].finish <= n
  }

  /** `m` is a fit suffix link for `x`: both end within `text[..n]`, and
      `m` spells what `x` spells less its first symbol. */
  ghost predicate LinkFits(ns: seq<Node>, text: seq<char>, depth: seq<int>, n: int, x: int, m: int) {
    && 2 <= x < |ns| == |depth| && 1 <= m < |ns| && n <= |text|
    && ns[m].finish <= n && ns[x].finish <= n && depth[m] + 1 == depth[x]
    && Framed(ns, text, depth, Position(m, 0)) && 0 <= Ls(ns, depth, x) < ns[x].finish
    && Lab(ns, text, depth, Position(m, 0)) == text[Ls(ns, depth, x) + 1 .. ns[x].finish]
  }

  /** A suffix link that is set fits. */
  ghost predicate LinkAgrees(ns: seq<Node>, text: seq<char>, depth: seq<int>, n: int, x: int)
    requires 2 <= x < |ns|
  {
    ns[x].link != -1 ==> LinkFits(ns, text, depth, n, x, ns[x].link)
  }

  /** Some point with its window in `text[..n]` spells `text[i..j)`. */
  ghost predicate Has(ns: seq<Node>, text: seq<char>, depth: seq<int>, i: int, j: int, n: int) {
    exists p :: Spells(ns, text, depth, p, i, j, n)
  }

  /** `y` is the leaf of the suffix starting at `j`. */
  ghost predicate LeafOf(ns: seq<Node>, depth: seq<int>, size: int, y: int, j: int) {
    2 <= y < |ns| == |depth| && ns[y].finish == size && size - depth[y] == j
  }

  ghost predicate HasLeaf(ns: seq<Node>, depth: seq<int>, size: int, j: int) {
    exists y :: LeafOf(ns, depth, size, y, j)
  }

  /** Every edge agrees with its parent. */
  ghost predicate Agreed(ns: seq<Node>, text: seq<char>, depth: seq<int>) {
    |depth| == |ns| && forall y :: 2 <= y < |ns| ==> Agrees(ns, text, depth, y)
  }

  /** Every proper node is of its kind. */
  ghost predicate Kinded(ns: seq<Node>, size: int, n: int) {
    forall y :: 2 <= y < |ns| ==> Kind(ns, size, n, y)
  }

  /** Every suffix link that is set fits. */
  ghost predicate Linked(ns: seq<Node>, text: seq<char>, depth: seq<int>, n: int) {
    |depth| == |ns| && forall x :: 2 <= x < |ns| ==> LinkAgrees(ns, text, depth, n, x)
  }

  /** Every piece of `text[..n]` is spelled by a point within `text[..n]`. */
  ghost predicate Complete(ns: seq<Node>, text: seq<char>, depth: seq<int>, n: int) {
    forall i, j :: 0 <= i <= j <= n ==> Has(ns, text, depth, i, j, n)
  }

  /** The suffixes starting before `b` have leaves, and no other does. */
  ghost predicate LeavesBefore(ns: seq<Node>, depth: seq<int>, size: int, b: int) {
    && |depth| == |ns|
    && (forall j :: 0 <= j < b ==> HasLeaf(ns, depth, size, j))
    && (forall y :: 2 <= y < |ns| && ns[y].finish == size ==> size - depth[y] < b)
  }

  /** A suffix tree of `text[..n]` in Ukkonen's form: formed, every edge
      and link fits, every piece of `text[..n]` is spelled, and the leaves
      are those of the suffixes starting before `b`. */
  ghost predicate Good(ns: seq<Node>, text: seq<char>, depth: seq<int>, size: int, n: int, b: int) {
    && Formed(ns, text, depth, size) && Agreed(ns, text, depth) && Kinded(ns, size, n)
    && Linked(ns, text, depth, n) && 0 <= n <= |text| && Complete(ns, text, depth, n)
    && LeavesBefore(ns, depth, size, b)
  }

  /** The tree is good for `text[..n]` with the active point `p`: the
      suffixes too short to have leaves start where the suffix that `p`
      spells starts (`parentRoot_` spells the empty suffix after the end). */
  ghost predicate Tracks(ns: seq<Node>, text: seq<char>, depth: seq<int>, size: int, p: Position, n: int) {
    && Placed(ns, p) && |depth| == |ns|
    && Good(ns, text, depth, size, n, n - PosDepth(depth, p))
    && (p.node == ParentRoot || Spells(ns, text, depth, p, n - PosDepth(depth, p), n, n))
  }

  // ---------------------------------------------------------------- one symbol up

  /** A real point of a formed arena spells a window as long as its depth. */
  lemma RealLab(ns: seq<Node>, text: seq<char>, depth: seq<int>, size: int, p: Position, n: int)
    requires Formed(ns, text, depth, size) && Real(ns, depth, p, n) && n <= |text|
    ensures Framed(ns, text, depth, p) && PosDepth(depth, p) >= 0
    ensures Idx(ns, p) == Ls(ns, depth, p.node) + PosDepth(depth, p)
    ensures |Lab(ns, text, depth, p)| == PosDepth(depth, p)
  {
    PlacedDepth(ns, text, depth, size, p);
    assert Hung(ns, depth, size, p.node);
  }

  /** The point one symbol above `p`: up the same edge, or the parent at
      the top of an edge; above the root is `parentRoot_`. */
  ghost function Up(ns: seq<Node>, p: Position): Position
    requires Placed(ns, p) && 1 <= p.node
  {
    if p.node == Root then Position(ParentRoot, 0)
    else if p.dist + 1 < ns[p.node].finish - ns[p.node].start then Position(p.node, p.dist + 1)
    else Position(ns[p.node].parent, 0)
  }

  /** `Up` is a point one symbol shallower; it is `parentRoot_` only above
      the root, and the only point at depth 0 is the root. */
  lemma UpPlaced(ns: seq<Node>, text: seq<char>, depth: seq<int>, size: int, p: Position)
    requires Formed(ns, text, depth, size) && Placed(ns, p) && 1 <= p.node
    ensures Placed(ns, Up(ns, p)) && PosDepth(depth, Up(ns, p)) == PosDepth(depth, p) - 1
    ensures PosDepth(depth, p) >= 0 && (PosDepth(depth, p) == 0 <==> p == Position(Root, 0))
    ensures Up(ns, p).node == ParentRoot <==> p.node == Root
  {
    assert Hung(ns, depth, size, p.node);
    if p.node != Root {
      assert Hung(ns, depth, size, ns[p.node].parent);
    }
  }

  /** Going up from a real point of depth at least 1 gives a real point
      that spells what `p` spells less its last symbol. */
  lemma UpLab(ns: seq<Node>, text: seq<char>, depth: seq<int>, size: int, p: Position)
    requires Formed(ns, text, depth, size) && Agreed(ns, text, depth)
    requires Real(ns, depth, p, |text|) && PosDepth(depth, p) >= 1
    ensures Real(ns, depth, Up(ns, p), |text|) && PosDepth(depth, Up(ns, p)) == PosDepth(depth, p) - 1
    ensures Framed(ns, text, depth, p) && Framed(ns, text, depth, Up(ns, p))
    ensures Lab(ns, text, depth, Up(ns, p)) == Lab(ns, text, depth, p)[..PosDepth(depth, p) - 1]
  {
    UpPlaced(ns, text, depth, size, p);
    RealLab(ns, text, depth, size, p, |text|);
    var y := p.node;
    assert Hung(ns, depth, size, y);
    var lab := Lab(ns, text, depth, p);
    if p.dist + 1 >= ns[y].finish - ns[y].start {
      assert Agrees(ns, text, depth, y);
      var q := ns[y].parent;
      assert Ls(ns, depth, y) + depth[q] == Idx(ns, p) - 1;
      assert lab[..PosDepth(depth, p) - 1] == text[Ls(ns, depth, y) .. Ls(ns, depth, y) + depth[q]];
    } else {
      assert lab[..PosDepth(depth, p) - 1] == text[Ls(ns, depth, y) .. Idx(ns, p) - 1];
    }
  }

  /** A point whose `Up` lies strictly inside an edge is one symbol further
      down the same edge. */
  lemma UpInv(ns: seq<Node>, p: Position, y: int, e: int)
    requires Placed(ns, p) && 1 <= p.node && Up(ns, p) == Position(y, e) && e >= 1
    ensures p == Position(y, e - 1)
  {
  }

  /** A point whose `Up` is a node `x` is the first point of the child of
      `x` under the point's last symbol, the one `getNextPosition` gives. */
  lemma DownOf(ns: seq<Node>, text: seq<char>, depth: seq<int>, size: int, p: Position)
    requires Formed(ns, text, depth, size) && Placed(ns, p) && 1 <= p.node && Up(ns, p).dist == 0
    ensures Up(ns, p).node == ParentRoot ==> p == Position(Root, 0)
    ensures var x := Up(ns, p).node;
            x != ParentRoot ==>
              && 0 <= x < |ns| && 0 <= Idx(ns, p) - 1 < |text|
              && text[Idx(ns, p) - 1] in ns[x].children && ns[x].children[text[Idx(ns, p) - 1]] < |ns|
              && p == GetNextPosition(ns, x, text[Idx(ns, p) - 1])
  {
    if p.node != Root {
      assert Hung(ns, depth, size, p.node);
      assert Keyed(ns, text, p.node);
    } else {
      assert Hung(ns, depth, size, Root);
    }
  }

  /** Two real points at the same depth that spell the same text are the
      same point: the tree branches only on different symbols. */
  lemma {:induction false} Unique(ns: seq<Node>, text: seq<char>, depth: seq<int>, size: int, p1: Position, p2: Position)
    requires Formed(ns, text, depth, size) && Agreed(ns, text, depth)
    requires Real(ns, depth, p1, |text|) && Real(ns, depth, p2, |text|) && PosDepth(depth, p1) == PosDepth(depth, p2)
    requires Framed(ns, text, depth, p1) && Framed(ns, text, depth, p2)
    requires Lab(ns, text, depth, p1) == Lab(ns, text, depth, p2)
    ensures p1 == p2
    decreases PosDepth(depth, p1)
  {
    UpPlaced(ns, text, depth, size, p1);
    UpPlaced(ns, text, depth, size, p2);
    var d := PosDepth(depth, p1);
    if d > 0 {
      UpLab(ns, text, depth, size, p1);
      UpLab(ns, text, depth, size, p2);
      var u := Up(ns, p1);
      Unique(ns, text, depth, size, u, Up(ns, p2));
      if u.dist >= 1 {
        UpInv(ns, p1, u.node, u.dist);
        UpInv(ns, p2, u.node, u.dist);
      } else {
        DownOf(ns, text, depth, size, p1);
        DownOf(ns, text, depth, size, p2);
        RealLab(ns, text, depth, size, p1, |text|);
        RealLab(ns, text, depth, size, p2, |text|);
        assert text[Idx(ns, p1) - 1] == Lab(ns, text, depth, p1)[d - 1] == Lab(ns, text, depth, p2)[d - 1] == text[Idx(ns, p2) - 1];
      }
    }
  }

  /** `m` steps up from `p`. */
  ghost function Ups(ns: seq<Node>, p: Position, m: nat): Position
    decreases m
  {
    if m == 0 || !Placed(ns, p) || p.node < 1 then p else Ups(ns, Up(ns, p), m - 1)
  }

  /** Going `m` steps up from a real point of depth `d` gives a real point
      of depth `d - m` that spells the first `d - m` symbols of what `p` spells. */
  lemma {:induction false} UpsLab(ns: seq<Node>, text: seq<char>, depth: seq<int>, size: int, p: Position, m: nat)
    requires Formed(ns, text, depth, size) && Agreed(ns, text, depth)
    requires Real(ns, depth, p, |text|) && m <= PosDepth(depth, p)
    ensures Real(ns, depth, Ups(ns, p, m), |text|) && PosDepth(depth, Ups(ns, p, m)) == PosDepth(depth, p) - m
    ensures Framed(ns, text, depth, p) && Framed(ns, text, depth, Ups(ns, p, m))
    ensures Lab(ns, text, depth, Ups(ns, p, m)) == Lab(ns, text, depth, p)[..PosDepth(depth, p) - m]
    decreases m
  {
    RealLab(ns, text, depth, size, p, |text|);
    if m > 0 {
      UpLab(ns, text, depth, size, p);
      UpsLab(ns, text, depth, size, Up(ns, p), m - 1);
    }
  }

  /** One step more than the depth of a point leads to `parentRoot_`. */
  lemma {:induction false} UpsTop(ns: seq<Node>, text: seq<char>, depth: seq<int>, size: int, p: Position)
    requires Formed(ns, text, depth, size) && Placed(ns, p) && 1 <= p.node
    ensures PosDepth(depth, p) >= 0 && Ups(ns, p, PosDepth(depth, p) + 1) == Position(ParentRoot, 0)
    decreases PosDepth(depth, p)
  {
    UpPlaced(ns, text, depth, size, p);
    if PosDepth(depth, p) > 0 {
      UpsTop(ns, text, depth, size, Up(ns, p));
    }
  }

  /** Stepping `k + 1` times up is stepping `k` times, then once more. */
  lemma {:induction false} UpsSucc(ns: seq<Node>, text: seq<char>, depth: seq<int>, size: int, p: Position, k: nat)
    requires Formed(ns, text, depth, size) && Placed(ns, p) && 1 <= p.node && k <= PosDepth(depth, p)
    ensures Placed(ns, Ups(ns, p, k)) && 1 <= Ups(ns, p, k).node
    ensures PosDepth(depth, Ups(ns, p, k)) == PosDepth(depth, p) - k
    ensures Ups(ns, p, k + 1) == Up(ns, Ups(ns, p, k))
    decreases k
  {
    UpPlaced(ns, text, depth, size, p);
    if k > 0 {
      UpsSucc(ns, text, depth, size, Up(ns, p), k - 1);
    }
  }

  /** Within one edge, `j` steps fewer up is `j` symbols further down the edge. */
  lemma {:induction false} UpsEdge(ns: seq<Node>, text: seq<char>, depth: seq<int>, size: int, p: Position, m: nat, j: nat, y: int, e: int)
    requires Formed(ns, text, depth, size) && Placed(ns, p) && 1 <= p.node
    requires j <= m <= PosDepth(depth, p) + 1 && Ups(ns, p, m) == Position(y, e) && j <= e
    ensures Ups(ns, p, m - j) == Position(y, e - j)
    decreases j
  {
    if j > 0 {
      UpsSucc(ns, text, depth, size, p, m - 1);
      UpInv(ns, Ups(ns, p, m - 1), y, e);
      UpsEdge(ns, text, depth, size, p, m - 1, j - 1, y, e - 1);
    }
  }

  /** The step of the walk of `buildLink` at a node: when the node lies
      `m` steps above a real point `t`, reading the next symbol of what `t`
      spells leads to the point `m - 1` steps above `t`. */
  lemma StepDown(ns: seq<Node>, text: seq<char>, depth: seq<int>, size: int, t: Position, m: nat, ch: char)
    requires Formed(ns, text, depth, size) && Agreed(ns, text, depth) && Real(ns, depth, t, |text|)
    requires 1 <= m <= PosDepth(depth, t) + 1 && Ups(ns, t, m).dist == 0
    requires Framed(ns, text, depth, t) && (m <= PosDepth(depth, t) ==> Lab(ns, text, depth, t)[PosDepth(depth, t) - m] == ch)
    ensures var x := Ups(ns, t, m).node;
            && 0 <= x < |ns| && Root < |ns|
            && (x == ParentRoot || (ch in ns[x].children && ns[x].children[ch] < |ns|))
            && GetNextPosition(ns, x, ch) == Ups(ns, t, m - 1)
    ensures Placed(ns, Ups(ns, t, m - 1)) && PosDepth(depth, Ups(ns, t, m - 1)) == PosDepth(depth, t) - (m - 1)
  {
    UpsSucc(ns, text, depth, size, t, m - 1);
    var s := Ups(ns, t, m - 1);
    UpsLab(ns, text, depth, size, t, m - 1);
    DownOf(ns, text, depth, size, s);
    if Up(ns, s).node != ParentRoot {
      RealLab(ns, text, depth, size, s, |text|);
      UpPlaced(ns, text, depth, size, s);
      var d := PosDepth(depth, s);
      assert text[Idx(ns, s) - 1] == Lab(ns, text, depth, s)[d - 1] == Lab(ns, text, depth, t)[d - 1];
    }
  }
}

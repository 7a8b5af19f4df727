/** Ukkonen's online suffix tree of D3_suf_tree.cpp (class SuffixTree). */
module Tree {
  import opened Edges
  import opened TreeArena
  import opened TreeReads
  import opened TreeCounts
  import opened TreeLabels
  import opened TreeSteps

  /** `findCounts` over the node arena `ns`, with the counts `c` and the
      lengths `l` it updates: a leaf counts 1; an inner node passes its
      length on to each child, in the order of the child table, counts the
      child's subtree and adds the child's count to its own. */
  method FindCountsOn(ns: seq<Node>, text: seq<char>, ghost depth: seq<int>, size: int, c: seq<int>, l: seq<int>, x: int)
      returns (c': seq<int>, l': seq<int>)
    requires Formed(ns, text, depth, size) && 1 <= x < |ns| && |c| == |ns| && |l| == |ns|
    ensures |c'| == |ns| && |l'| == |ns|
    ensures CountedAll(ns, text, depth, size, c, l, c', l', x)
    decreases size - depth[x], 1
  {
    if |ns[x].children| == 0 {
      CountedLeaf(ns, text, depth, size, c, l, c[x := 1], x);
      return c[x := 1], l;
    }
    assert Hung(ns, depth, size, x);
    var keys := AscendingKeys(ns[x].children);
    CountingStart(ns, text, depth, size, c, l, x);
    c', l' := c, l;
    var i := 0;
    while i < |keys|
      invariant 0 <= i <= |keys| && |c'| == |ns| && |l'| == |ns|
      invariant CountingAll(ns, text, depth, size, c, l, c', l', x, keys[..i])
    {
      c', l' := CountChild(ns, text, depth, size, c, l, c', l', x, keys, i);
      i := i + 1;
    }
    assert keys[..i] == keys;
    CountingDone(ns, text, depth, size, c, l, c', l', x);
  }

  /** One turn of the loop of `findCounts(x)`: the child under `keys[i]`
      gets the length of `x` plus its edge's, its subtree is counted, and
      its count is added to that of `x`. */
  method CountChild(ns: seq<Node>, text: seq<char>, ghost depth: seq<int>, size: int, ghost c0: seq<int>, ghost l0: seq<int>,
                    c: seq<int>, l: seq<int>, x: int, keys: seq<char>, i: int)
      returns (c': seq<int>, l': seq<int>)
    requires Formed(ns, text, depth, size) && 1 <= x < |ns| && keys == Ascending(ns[x].children.Keys) && 0 <= i < |keys|
    requires |c0| == |ns| && |l0| == |ns| && |c| == |ns| && |l| == |ns|
    requires CountingAll(ns, text, depth, size, c0, l0, c, l, x, keys[..i])
    ensures |c'| == |ns| && |l'| == |ns|
    ensures CountingAll(ns, text, depth, size, c0, l0, c', l', x, keys[..i + 1])
    decreases size - depth[x], 0
  {
    AscendingSorted(ns[x].children.Keys);
    var y := ns[x].children[keys[i]];
    ChildDeeper(ns, text, depth, size, x, keys[i]);
    var c2, l2 := FindCountsOn(ns, text, depth, size, c, l[y := l[x] + ns[y].finish - ns[y].start], y);
    CountingStep(ns, text, depth, size, c0, l0, c, l, c2, l2, x, keys, i, y, keys[..i], keys[..i + 1]);
    c', l' := c2[x := c2[x] + c2[y]], l2;
  }

  class SuffixTree {
    /** `string_`: the text read so far. */
    var text: seq<char>
    /** The node arena; 0 is `parentRoot_`, 1 is `root_`. */
    var nodes: seq<Node>
    /** `Node::lengthOfSubstring` and `Node::count`, one entry per node. */
    var lengthOfSubstring: seq<int>
    var count: seq<int>
    /** `lastNotLeaf_`: the active point. */
    var lastNotLeaf: Position
    /** `sizeOfText_`: the length of the whole text; every leaf ends there. */
    const sizeOfText: int
    /** Proof-only depth of every node. */
    ghost var depth: seq<int>

    /** The arena is formed and the counting fields have one slot per node. */
    ghost predicate Shaped()
      reads this
    {
      Formed(nodes, text, depth, sizeOfText) && |lengthOfSubstring| == |nodes| && |count| == |nodes|
    }

    /** Between two calls of `add`: the tree is a suffix tree of the text
        read (every piece of it is spelled by a point, every suffix link
        fits), the active point spells a suffix of it, and exactly the
        suffixes longer than that one have leaves. */
    ghost predicate Valid()
      reads this
    {
      Shaped() && lastNotLeaf.node >= Root && Tracks(nodes, text, depth, sizeOfText, lastNotLeaf, |text|)
    }

    /** Inside `add`: a suffix tree of `text[..n]` with leaves for the
        suffixes starting before `b`. */
    ghost predicate Sound(n: int, b: int)
      reads this
    {
      Shaped() && Good(nodes, text, depth, sizeOfText, n, b)
    }

    /** After `addString` on a new tree: `findCounts` ran from the root over
        counts and lengths that all started at zero. */
    ghost predicate CountedFromZero()
      reads this
      requires Shaped()
    {
      CountedAll(nodes, text, depth, sizeOfText, Pad([], |nodes|), Pad([], |nodes|), count, lengthOfSubstring, Root)
    }

    /** The constructor: `parentRoot_` and `root_` joined by the root's
        link, the active point at the root, then `addString(s)`. Every count
        and length starts at zero, so afterwards each node below the root
        holds its tally and its depth. */
    constructor (s: seq<char>)
      ensures sizeOfText == |s| && Valid() && text == s && CountedFromZero()
    {
      sizeOfText := |s|;
      text := [];
      nodes := [Node(-1, -1, -1, -1, map[]), Node(-1, 0, ParentRoot, ParentRoot, map[])];
      lengthOfSubstring, count := [0, 0], [0, 0];
      depth := [-1, 0];
      lastNotLeaf := Position(Root, 0);
      new;
      InitTracks(|s|);
      AddString(s);
      assert Pad([0, 0], |nodes|) == Pad([], |nodes|);
    }

    /** `makeNode`: at a node, that node; inside an edge, a new node that
        splits the edge at the point. The tree stays a suffix tree of the
        same text, only edges above the point's depth change, and the
        result spells what the point spelled. */
    method MakeNode(p: Position, ghost n: int, ghost b: int) returns (v: int)
      requires Sound(n, b) && n < |text| && Real(nodes, depth, p, n)
      modifies this`nodes, this`depth, this`count, this`lengthOfSubstring
      ensures Sound(n, b) && Grown(old(nodes), nodes) && Extends(old(depth), depth)
      ensures KeptBelow(old(nodes), nodes, old(depth), PosDepth(old(depth), p))
      ensures Padded(old(count), count) && Padded(old(lengthOfSubstring), lengthOfSubstring)
      ensures Root <= v < |nodes| && depth[v] == PosDepth(old(depth), p)
      ensures nodes[v].finish == Idx(old(nodes), p) && Ls(nodes, depth, v) == Ls(old(nodes), old(depth), p.node)
      ensures p.dist == 0 ==> v == p.node && nodes == old(nodes) && depth == old(depth)
      ensures p.dist > 0 ==> 2 <= p.node && 0 <= old(nodes)[p.node].parent < |old(nodes)| && 0 <= old(nodes)[p.node].start
      ensures p.dist > 0 ==> v == |old(nodes)| && nodes == Split(old(nodes), text, p)
      ensures p.dist > 0 ==> nodes[v].children == map[text[old(nodes)[p.node].finish - p.dist] := p.node]
    {
      if IsNode(p) {
        return p.node;
      }
      SplitFormed(nodes, text, depth, sizeOfText, p);
      SplitGood(nodes, text, depth, sizeOfText, n, b, p);
      ghost var ns0 := nodes;
      var child := p.node;
      var parent := nodes[child].parent;
      var start := nodes[child].start;
      var e := nodes[child].finish - p.dist;
      v := |nodes|;
      nodes := nodes + [Node(start, e, -1, parent, map[])];
      nodes := nodes[child := nodes[child].(start := e, parent := v)];
      nodes := nodes[parent := nodes[parent].(children := nodes[parent].children[text[start] := v])];
      nodes := nodes[v := nodes[v].(children := nodes[v].children[text[e] := child])];
      assert nodes == Split(ns0, text, p);
      ExtendsSnoc(depth, PosDepth(depth, p));
      ExtendsSnoc(count, 0);
      ExtendsSnoc(lengthOfSubstring, 0);
      depth := depth + [PosDepth(depth, p)];
      lengthOfSubstring, count := lengthOfSubstring + [0], count + [0];
    }

    /** `getLink`: the cached suffix link, or the one `buildLink` finds,
        which is then cached. The root's link is `parentRoot_`; the link of
        another node spells what the node spells less its first symbol. */
    method GetLink(x: int, ghost n: int, ghost b: int) returns (link: int)
      requires Sound(n, b) && n < |text| && Root <= x < |nodes| && (x != Root ==> nodes[x].finish <= n)
      modifies this`nodes, this`depth, this`count, this`lengthOfSubstring
      ensures Sound(n, b) && Grown(old(nodes), nodes) && Extends(old(depth), depth)
      ensures KeptBelow(old(nodes), nodes, old(depth), old(depth)[x] - 1)
      ensures Padded(old(count), count) && Padded(old(lengthOfSubstring), lengthOfSubstring)
      ensures old(nodes)[x].link != -1 ==> link == old(nodes)[x].link && nodes == old(nodes) && depth == old(depth)
      ensures 0 <= link < |nodes| && nodes[x].link == link && depth[link] == depth[x] - 1
      ensures x == Root ==> link == ParentRoot
      ensures x != Root ==> LinkFits(nodes, text, depth, n, x, link)
      decreases depth[x], 2
    {
      assert LinkOk(nodes, depth, x);
      if nodes[x].link != -1 {
        if x != Root {
          assert LinkAgrees(nodes, text, depth, n, x);
        }
        KeptSame(nodes, depth, depth[x] - 1);
        return nodes[x].link;
      }
      link := BuildLink(x, n, b);
      SetLinkFormed(nodes, text, depth, sizeOfText, x, link);
      SetLinkKept(nodes, depth, x, link, old(depth)[x] - 1);
      SetLinkGood(nodes, text, depth, sizeOfText, n, b, x, link);
      ghost var ns1 := nodes;
      nodes := SetLink(nodes, x, link);
      FramesCompose(old(nodes), ns1, nodes, old(depth), depth, old(depth)[x] - 1, old(depth)[x] - 1, old(depth)[x] - 1);
      assert LinkAgrees(nodes, text, depth, n, x);
    }

    /** `buildLink`: from the link of the parent, walk down the symbols of
        the edge into `x`, then make a node there. The node made spells what
        `x` spells less its first symbol, which is what a suffix link of `x`
        must spell. */
    method BuildLink(x: int, ghost n: int, ghost b: int) returns (m: int)
      requires Sound(n, b) && n < |text| && 2 <= x < |nodes| && nodes[x].finish <= n
      modifies this`nodes, this`depth, this`count, this`lengthOfSubstring
      ensures Sound(n, b) && Grown(old(nodes), nodes) && Extends(old(depth), depth)
      ensures KeptBelow(old(nodes), nodes, old(depth), old(depth)[x] - 1)
      ensures Padded(old(count), count) && Padded(old(lengthOfSubstring), lengthOfSubstring)
      ensures LinkFits(nodes, text, depth, n, x, m)
      decreases depth[x], 1
    {
      var lk := ParentLink(x, n, b);
      ghost var ns1, d1, c1, l1 := nodes, depth, count, lengthOfSubstring;
      m := WalkAndMake(x, lk, n, b);
      FramesCompose(old(nodes), ns1, nodes, old(depth), d1, old(depth)[x] - 1, d1[x] - 1, old(depth)[x] - 1);
      ExtendsTrans(old(depth), d1, depth);
      PaddedTrans(old(count), c1, count);
      PaddedTrans(old(lengthOfSubstring), l1, lengthOfSubstring);
    }

    /** The first half of `buildLink`: the link of the parent of `x`, which
        spells what the parent spells less its first symbol (`parentRoot_`
        when the parent is the root). The edge into `x` stays as it was. */
    method ParentLink(x: int, ghost n: int, ghost b: int) returns (lk: int)
      requires Sound(n, b) && n < |text| && 2 <= x < |nodes| && nodes[x].finish <= n
      modifies this`nodes, this`depth, this`count, this`lengthOfSubstring
      ensures Sound(n, b) && Grown(old(nodes), nodes) && Extends(old(depth), depth)
      ensures KeptBelow(old(nodes), nodes, old(depth), old(depth)[x] - 1)
      ensures Padded(old(count), count) && Padded(old(lengthOfSubstring), lengthOfSubstring)
      ensures nodes[x].start == old(nodes)[x].start && nodes[x].finish == old(nodes)[x].finish
      ensures nodes[x].parent == old(nodes)[x].parent && depth[x] == old(depth)[x]
      ensures var q := nodes[x].parent;
              (q == Root && lk == ParentRoot) || (q != Root && LinkFits(nodes, text, depth, n, q, lk))
      decreases depth[x], 0
    {
      ParentShallower(nodes, text, depth, sizeOfText, x);
      var parent := nodes[x].parent;
      if parent != Root {
        assert Kind(nodes, sizeOfText, n, parent);
      }
      lk := GetLink(parent, n, b);
      assert EdgeKept(old(nodes), nodes, old(depth), old(depth)[parent] - 1, x);
      assert EndKept(old(nodes), nodes, x) && Same(old(depth), depth, x);
      KeptWeaken(old(nodes), nodes, old(depth), old(depth)[parent] - 1, old(depth)[x] - 1);
    }

    /** The second half of `buildLink`: walk down from `lk` along the edge
        into `x` and make a node at the point reached; that node spells what
        `x` spells less its first symbol. */
    method WalkAndMake(x: int, lk: int, ghost n: int, ghost b: int) returns (m: int)
      requires Sound(n, b) && n < |text| && 2 <= x < |nodes| && nodes[x].finish <= n
      requires var q := nodes[x].parent;
               (q == Root && lk == ParentRoot) || (q != Root && LinkFits(nodes, text, depth, n, q, lk))
      modifies this`nodes, this`depth, this`count, this`lengthOfSubstring
      ensures Sound(n, b) && Grown(old(nodes), nodes) && Extends(old(depth), depth)
      ensures KeptBelow(old(nodes), nodes, old(depth), old(depth)[x] - 1)
      ensures Padded(old(count), count) && Padded(old(lengthOfSubstring), lengthOfSubstring)
      ensures LinkFits(nodes, text, depth, n, x, m)
    {
      var pos := WalkTo(x, lk, n, b);
      ghost var lab := Lab(nodes, text, depth, pos);
      m := MakeNode(pos, n, b);
      assert Same(old(depth), depth, x) && EndKept(old(nodes), nodes, x);
      assert EdgeKept(old(nodes), nodes, old(depth), old(depth)[x] - 1, x);
      assert Lab(nodes, text, depth, Position(m, 0)) == lab;
    }

    /** The walk of `buildLink`: from `lk`, the link of the parent of `x`,
        down the symbols of the edge into `x`. The point reached spells what
        `x` spells less its first symbol. */
    method WalkTo(x: int, lk: int, ghost n: int, ghost b: int) returns (pos: Position)
      requires Sound(n, b) && n < |text| && 2 <= x < |nodes| && nodes[x].finish <= n
      requires var q := nodes[x].parent;
               (q == Root && lk == ParentRoot) || (q != Root && LinkFits(nodes, text, depth, n, q, lk))
      ensures Real(nodes, depth, pos, n) && Framed(nodes, text, depth, pos)
      ensures PosDepth(depth, pos) == depth[x] - 1 && 0 <= Ls(nodes, depth, x) < nodes[x].finish
      ensures Lab(nodes, text, depth, pos) == text[Ls(nodes, depth, x) + 1 .. nodes[x].finish]
    {
      assert Hung(nodes, depth, sizeOfText, x) && Keyed(nodes, text, x);
      assert depth[lk] + 1 == depth[nodes[x].parent];
      ghost var t := LinkTarget(nodes, text, depth, sizeOfText, n, b, x, lk);
      pos := Descend(Position(lk, 0), nodes[x].start, nodes[x].finish, t);
    }

    /** The loop of `buildLink`: from `pos0`, walk down along
        `text[l0..r)`, stepping into a child at a node (from `parentRoot_`
        into the root, whatever the symbol) and skipping as much of an edge
        as is left. When `pos0` lies `r - l0` steps above a point `t` that
        spells `text[l0 - depth(pos0) .. r)`, the walk ends at `t`. */
    method Descend(pos0: Position, l0: int, r: int, ghost t: Position) returns (pos: Position)
      requires Formed(nodes, text, depth, sizeOfText) && Agreed(nodes, text, depth)
      requires Placed(nodes, pos0) && Real(nodes, depth, t, |text|) && Framed(nodes, text, depth, t)
      requires 0 <= l0 <= r && 0 <= l0 - PosDepth(depth, pos0) <= r <= |text|
      requires PosDepth(depth, t) == PosDepth(depth, pos0) + (r - l0)
      requires Lab(nodes, text, depth, t) == text[l0 - PosDepth(depth, pos0) .. r]
      requires Ups(nodes, t, r - l0) == pos0
      ensures pos == t
    {
      PlacedDepth(nodes, text, depth, sizeOfText, pos0);
      pos := pos0;
      var l := l0;
      while l < r
        invariant l0 <= l <= r && Placed(nodes, pos)
        invariant PosDepth(depth, pos) == PosDepth(depth, pos0) + (l - l0)
        invariant Ups(nodes, t, r - l) == pos
        decreases r - l
      {
        if IsNode(pos) {
          assert PosDepth(depth, pos) >= 0 ==> Lab(nodes, text, depth, t)[PosDepth(depth, pos)] == text[l];
          StepDown(nodes, text, depth, sizeOfText, t, r - l, text[l]);
          pos := GetNextPosition(nodes, pos.node, text[l]);
          l := l + 1;
        }
        var len := if r - l < pos.dist then r - l else pos.dist;
        UpsEdge(nodes, text, depth, sizeOfText, t, r - l, len, pos.node, pos.dist);
        pos := pos.(dist := pos.dist - len);
        l := l + len;
      }
    }

    /** `add`: read one more symbol. While the active point cannot step on
        `c`, `Hang` a new leaf; then step on `c`. The tree becomes a suffix
        tree of the longer text; every suffix that had a leaf keeps it, and
        the suffix the active point spells now occurs earlier in the text. */
    method Add(c: char) returns (ghost exit: Position)
      requires Valid() && |text| < sizeOfText
      modifies this`text, this`nodes, this`depth, this`count, this`lengthOfSubstring, this`lastNotLeaf
      ensures Valid() && text == old(text) + [c] && Grown(old(nodes), nodes) && Extends(old(depth), depth)
      ensures Padded(old(count), count) && Padded(old(lengthOfSubstring), lengthOfSubstring)
      ensures StepsTo(nodes, text, exit, c, lastNotLeaf) && Placed(nodes, exit)
      ensures PosDepth(depth, exit) <= PosDepth(old(depth), old(lastNotLeaf))
      ensures PosDepth(depth, lastNotLeaf) == PosDepth(depth, exit) + 1
      ensures Idx(nodes, lastNotLeaf) < |text|
    {
      PushTracks(nodes, text, depth, sizeOfText, lastNotLeaf, |text|, c);
      PushFormed(nodes, text, depth, sizeOfText, c);
      text := text + [c];
      ghost var ns1, d1, c1, l1 := nodes, depth, count, lengthOfSubstring;
      HangAll(c);
      GrownTrans(old(nodes), ns1, nodes);
      ExtendsTrans(old(depth), d1, depth);
      PaddedTrans(old(count), c1, count);
      PaddedTrans(old(lengthOfSubstring), l1, lengthOfSubstring);
      AdvanceTracks(nodes, text, depth, sizeOfText, lastNotLeaf, c);
      GoDeeper(nodes, text, depth, sizeOfText, lastNotLeaf, c);
      exit := lastNotLeaf;
      lastNotLeaf := Go(nodes, text, lastNotLeaf, c);
    }

    /** The loop of `add`: while the active point cannot step on `c`, the
        symbol just read, `Hang` a leaf. Each turn the active point moves one
        symbol shallower; the loop stops at the first point that can step
        on `c` (`parentRoot_` can step on any symbol). */
    method HangAll(c: char)
      requires Shaped() && |text| >= 1 && text[|text| - 1] == c
      requires Tracks(nodes, text, depth, sizeOfText, lastNotLeaf, |text| - 1)
      modifies this`nodes, this`depth, this`count, this`lengthOfSubstring, this`lastNotLeaf
      ensures Shaped() && Grown(old(nodes), nodes) && Extends(old(depth), depth)
      ensures Padded(old(count), count) && Padded(old(lengthOfSubstring), lengthOfSubstring)
      ensures Tracks(nodes, text, depth, sizeOfText, lastNotLeaf, |text| - 1)
      ensures PosDepth(depth, lastNotLeaf) <= PosDepth(old(depth), old(lastNotLeaf))
      ensures Readable(nodes, text, lastNotLeaf) && CanGo(nodes, text, lastNotLeaf, c)
    {
      while !CanGo(nodes, text, lastNotLeaf, c)
        invariant Shaped() && Grown(old(nodes), nodes) && Extends(old(depth), depth)
        invariant Padded(old(count), count) && Padded(old(lengthOfSubstring), lengthOfSubstring)
        invariant Tracks(nodes, text, depth, sizeOfText, lastNotLeaf, |text| - 1)
        invariant -1 <= PosDepth(depth, lastNotLeaf) <= PosDepth(old(depth), old(lastNotLeaf))
        decreases PosDepth(depth, lastNotLeaf) + 1
      {
        ghost var ns0, d0, c0, l0 := nodes, depth, count, lengthOfSubstring;
        var node := Hang(c, |text| - 1);
        GrownTrans(old(nodes), ns0, nodes);
        ExtendsTrans(old(depth), d0, depth);
        PaddedTrans(old(count), c0, count);
        PaddedTrans(old(lengthOfSubstring), l0, lengthOfSubstring);
      }
    }

    /** One turn of the loop of `add`: make a node at the active point, hang
        under it the leaf `[|text| - 1, sizeOfText)` for the symbol just
        read, which is the leaf of the suffix the active point spelled, and
        move the active point to the node's suffix link, one symbol
        shallower. */
    method Hang(c: char, ghost n: int) returns (node: int)
      requires Shaped() && n == |text| - 1 >= 0 && text[n] == c
      requires Tracks(nodes, text, depth, sizeOfText, lastNotLeaf, n) && !CanGo(nodes, text, lastNotLeaf, c)
      modifies this`nodes, this`depth, this`count, this`lengthOfSubstring, this`lastNotLeaf
      ensures Shaped() && Grown(old(nodes), nodes) && Extends(old(depth), depth)
      ensures Padded(old(count), count) && Padded(old(lengthOfSubstring), lengthOfSubstring)
      ensures Tracks(nodes, text, depth, sizeOfText, lastNotLeaf, n)
      ensures PosDepth(depth, lastNotLeaf) == PosDepth(old(depth), old(lastNotLeaf)) - 1
      ensures node == if old(lastNotLeaf).dist == 0 then old(lastNotLeaf).node else |old(nodes)|
      ensures 0 <= node < |nodes| && lastNotLeaf == Position(nodes[node].link, 0)
      ensures var leaf := if old(lastNotLeaf).dist == 0 then |old(nodes)| else |old(nodes)| + 1;
              && leaf < |nodes| && nodes[leaf].start == n && nodes[leaf].finish == sizeOfText
              && nodes[leaf].parent == node && c in nodes[node].children && nodes[node].children[c] == leaf
              && LeafOf(nodes, depth, sizeOfText, leaf, n - PosDepth(old(depth), old(lastNotLeaf)))
    {
      ghost var b := n - PosDepth(depth, lastNotLeaf);
      node := MakeAndLeaf(c, n);
      ghost var ns2, d2, c2, l2 := nodes, depth, count, lengthOfSubstring;
      ghost var leaf := if old(lastNotLeaf).dist == 0 then |old(nodes)| else |old(nodes)| + 1;
      FollowLink(node, leaf, n, b);
      GrownTrans(old(nodes), ns2, nodes);
      ExtendsTrans(old(depth), d2, depth);
      PaddedTrans(old(count), c2, count);
      PaddedTrans(old(lengthOfSubstring), l2, lengthOfSubstring);
    }

    /** The second half of one turn of `add`: the active point moves to the
        suffix link of the node just given a leaf (`getLink`), which spells
        the suffix one shorter. The leaf's edge stays as it was. */
    method FollowLink(node: int, ghost leaf: int, ghost n: int, ghost b: int)
      requires Sound(n, b + 1) && n == |text| - 1 && 0 <= b <= n
      requires 1 <= node < |nodes| && nodes[node].finish <= n && depth[node] == n - b
      requires Framed(nodes, text, depth, Position(node, 0)) && Lab(nodes, text, depth, Position(node, 0)) == text[b..n]
      requires 2 <= leaf < |nodes| && nodes[leaf].parent == node
      modifies this`nodes, this`depth, this`count, this`lengthOfSubstring, this`lastNotLeaf
      ensures Shaped() && Grown(old(nodes), nodes) && Extends(old(depth), depth)
      ensures Padded(old(count), count) && Padded(old(lengthOfSubstring), lengthOfSubstring)
      ensures Tracks(nodes, text, depth, sizeOfText, lastNotLeaf, n)
      ensures lastNotLeaf == Position(nodes[node].link, 0) && PosDepth(depth, lastNotLeaf) == n - b - 1
      ensures nodes[leaf].start == old(nodes)[leaf].start && nodes[leaf].finish == old(nodes)[leaf].finish
      ensures nodes[leaf].parent == node && depth[leaf] == old(depth)[leaf] && Keyed(nodes, text, leaf)
    {
      ghost var ns2, d2 := nodes, depth;
      var link := GetLink(node, n, b + 1);
      assert Same(d2, depth, node) && Same(d2, depth, leaf);
      assert EdgeKept(ns2, nodes, d2, d2[node] - 1, leaf) && EndKept(ns2, nodes, leaf) && EndKept(ns2, nodes, node);
      assert Keyed(nodes, text, leaf);
      if link != ParentRoot {
        MadeSpells(ns2, d2, nodes, depth, text, Position(node, 0), node, b, n);
        LinkSpells(nodes, text, depth, n, node, link, b);
      }
      lastNotLeaf := Position(link, 0);
    }

    /** The first half of one turn of `add`: the node at the active point
        (made by `makeNode`) with the new leaf hung under it. The node spells
        the suffix `text[b..n)` the active point spelled, and the new leaf is
        that suffix's leaf. */
    method MakeAndLeaf(c: char, ghost n: int) returns (node: int)
      requires Shaped() && n == |text| - 1 >= 0 && text[n] == c
      requires Tracks(nodes, text, depth, sizeOfText, lastNotLeaf, n) && !CanGo(nodes, text, lastNotLeaf, c)
      modifies this`nodes, this`depth, this`count, this`lengthOfSubstring
      ensures var b := n - PosDepth(old(depth), lastNotLeaf);
              && Sound(n, b + 1) && 0 <= b <= n
              && 1 <= node < |nodes| && nodes[node].finish <= n && depth[node] == n - b
              && Framed(nodes, text, depth, Position(node, 0)) && Lab(nodes, text, depth, Position(node, 0)) == text[b..n]
      ensures Grown(old(nodes), nodes) && Extends(old(depth), depth)
      ensures Padded(old(count), count) && Padded(old(lengthOfSubstring), lengthOfSubstring)
      ensures node == if lastNotLeaf.dist == 0 then lastNotLeaf.node else |old(nodes)|
      ensures var leaf := if lastNotLeaf.dist == 0 then |old(nodes)| else |old(nodes)| + 1;
              && leaf < |nodes| && nodes[leaf].start == n && nodes[leaf].finish == sizeOfText
              && nodes[leaf].parent == node && c in nodes[node].children && nodes[node].children[c] == leaf
              && LeafOf(nodes, depth, sizeOfText, leaf, n - PosDepth(old(depth), lastNotLeaf))
    {
      ghost var b := n - PosDepth(depth, lastNotLeaf);
      RealLab(nodes, text, depth, sizeOfText, lastNotLeaf, n);
      ghost var ns0, d0 := nodes, depth;
      node := MakeNode(lastNotLeaf, n, b);
      MadeSpells(ns0, d0, nodes, depth, text, lastNotLeaf, node, b, n);
      assert c !in nodes[node].children;
      ghost var ns1, d1, c1, l1 := nodes, depth, count, lengthOfSubstring;
      NewLeaf(node, n, b);
      GrownTrans(old(nodes), ns1, nodes);
      ExtendsTrans(old(depth), d1, depth);
      PaddedTrans(old(count), c1, count);
      PaddedTrans(old(lengthOfSubstring), l1, lengthOfSubstring);
    }

    /** The leaf `add` hangs under `v` for the symbol just read; it ends
        where every leaf ends, at `sizeOfText`. When `v` spells `text[b..n)`
        the new leaf is the leaf of the suffix starting at `b`. */
    method NewLeaf(v: int, ghost n: int, ghost b: int)
      requires Sound(n, b) && n == |text| - 1 && 0 <= b <= n
      requires 1 <= v < |nodes| && nodes[v].finish <= n && depth[v] == n - b
      requires Framed(nodes, text, depth, Position(v, 0)) && Lab(nodes, text, depth, Position(v, 0)) == text[b..n]
      requires text[n] !in nodes[v].children
      modifies this`nodes, this`depth, this`count, this`lengthOfSubstring
      ensures Sound(n, b + 1) && Grown(old(nodes), nodes)
      ensures Padded(old(count), count) && Padded(old(lengthOfSubstring), lengthOfSubstring)
      ensures nodes == AddLeaf(old(nodes), text, sizeOfText, v)
      ensures depth == old(depth) + [old(depth)[v] + sizeOfText - n] && Extends(old(depth), depth)
      ensures LeafOf(nodes, depth, sizeOfText, |old(nodes)|, b)
    {
      AddLeafFormed(nodes, text, depth, sizeOfText, v);
      AddLeafGood(nodes, text, depth, sizeOfText, n, b, v);
      ExtendsSnoc(depth, depth[v] + sizeOfText - n);
      ExtendsSnoc(count, 0);
      ExtendsSnoc(lengthOfSubstring, 0);
      nodes := AddLeaf(nodes, text, sizeOfText, v);
      depth := depth + [depth[v] + sizeOfText - n];
      lengthOfSubstring, count := lengthOfSubstring + [0], count + [0];
    }

    /** `findCounts(x)`: the counts and lengths of `x` and the nodes below
        it are those `FindCountsOn` computes; nothing else changes. */
    method FindCounts(x: int)
      requires Shaped() && 1 <= x < |nodes|
      modifies this`count, this`lengthOfSubstring
      ensures Shaped()
      ensures CountedAll(nodes, text, depth, sizeOfText, old(count), old(lengthOfSubstring), count, lengthOfSubstring, x)
    {
      count, lengthOfSubstring := FindCountsOn(nodes, text, depth, sizeOfText, count, lengthOfSubstring, x);
    }

    /** `addString`: read the symbols of `s` one by one, then count from the
        root. Counts and lengths start from those before the call, zero for
        the nodes made by it. */
    method AddString(s: seq<char>)
      requires Valid() && |text| + |s| <= sizeOfText
      modifies this`text, this`nodes, this`depth, this`count, this`lengthOfSubstring, this`lastNotLeaf
      ensures Valid() && text == old(text) + s && Grown(old(nodes), nodes) && Extends(old(depth), depth)
      ensures CountedAll(nodes, text, depth, sizeOfText, Pad(old(count), |nodes|), Pad(old(lengthOfSubstring), |nodes|),
                         count, lengthOfSubstring, Root)
    {
      var i := 0;
      while i < |s|
        invariant 0 <= i <= |s| && Valid() && text == old(text) + s[..i]
        invariant Grown(old(nodes), nodes) && Extends(old(depth), depth)
        invariant Padded(old(count), count) && Padded(old(lengthOfSubstring), lengthOfSubstring)
      {
        ghost var ns0, d0, c0, l0 := nodes, depth, count, lengthOfSubstring;
        ghost var exit := Add(s[i]);
        GrownTrans(old(nodes), ns0, nodes);
        ExtendsTrans(old(depth), d0, depth);
        PaddedTrans(old(count), c0, count);
        PaddedTrans(old(lengthOfSubstring), l0, lengthOfSubstring);
        assert s[..i + 1] == s[..i] + [s[i]];
        i := i + 1;
      }
      assert s[..i] == s;
      PaddedIsPad(old(count), count);
      PaddedIsPad(old(lengthOfSubstring), lengthOfSubstring);
      FindCounts(Root);
    }
  }
}

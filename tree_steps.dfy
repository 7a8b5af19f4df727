/** The steps of D3_suf_tree.cpp keep the tree good: reading a symbol,
    making a node in the middle of an edge, hanging a leaf, setting a
    suffix link and stepping the active point down. */
module TreeSteps {
  import opened TreeArena
  import opened TreeReads
  import opened TreeLabels

  // ---------------------------------------------------------------- push

  /** A window inside the text spells the same once a symbol is appended. */
  lemma SpellsPush(ns: seq<Node>, text: seq<char>, depth: seq<int>, p: Position, i: int, j: int, n: int, c: char)
    requires Spells(ns, text, depth, p, i, j, n)
    ensures Spells(ns, text + [c], depth, p, i, j, n)
  {
    LabPush(ns, text, depth, p, c);
    assert (text + [c])[i..j] == text[i..j];
  }

  lemma LabPush(ns: seq<Node>, text: seq<char>, depth: seq<int>, p: Position, c: char)
    requires Framed(ns, text, depth, p)
    ensures Framed(ns, text + [c], depth, p) && Lab(ns, text + [c], depth, p) == Lab(ns, text, depth, p)
  {
    assert (text + [c])[Ls(ns, depth, p.node) .. Idx(ns, p)] == text[Ls(ns, depth, p.node) .. Idx(ns, p)];
  }

  /** `string_.push_back(c)` keeps the tree good for the text read before. */
  lemma PushTracks(ns: seq<Node>, text: seq<char>, depth: seq<int>, size: int, p: Position, n: int, c: char)
    requires Tracks(ns, text, depth, size, p, n) && |text| < size
    ensures Tracks(ns, text + [c], depth, size, p, n)
  {
    var t := text + [c];
    PushFormed(ns, text, depth, size, c);
    forall y | 2 <= y < |ns| ensures Agrees(ns, t, depth, y) {
      assert Agrees(ns, text, depth, y);
      LabPush(ns, text, depth, Position(ns[y].parent, 0), c);
      assert t[Ls(ns, depth, y) .. Ls(ns, depth, y) + depth[ns[y].parent]] == text[Ls(ns, depth, y) .. Ls(ns, depth, y) + depth[ns[y].parent]];
    }
    forall x | 2 <= x < |ns| ensures LinkAgrees(ns, t, depth, n, x) {
      assert LinkAgrees(ns, text, depth, n, x);
      if ns[x].link != -1 {
        LabPush(ns, text, depth, Position(ns[x].link, 0), c);
        assert t[Ls(ns, depth, x) + 1 .. ns[x].finish] == text[Ls(ns, depth, x) + 1 .. ns[x].finish];
      }
    }
    forall i, j | 0 <= i <= j <= n ensures Has(ns, t, depth, i, j, n) {
      assert Has(ns, text, depth, i, j, n);
      var w :| Spells(ns, text, depth, w, i, j, n);
      SpellsPush(ns, text, depth, w, i, j, n, c);
    }
    if p.node != ParentRoot {
      SpellsPush(ns, text, depth, p, n - PosDepth(depth, p), n, n, c);
    }
  }

  // ---------------------------------------------------------------- start

  /** The tree the constructor makes, before any symbol: good for the empty
      text, with the active point at the root and no leaves. */
  lemma InitTracks(size: int)
    requires size >= 0
    ensures var ns := [Node(-1, -1, -1, -1, map[]), Node(-1, 0, ParentRoot, ParentRoot, map[])];
            Formed(ns, [], [-1, 0], size) && Tracks(ns, [], [-1, 0], size, Position(Root, 0), 0)
  {
    var ns := [Node(-1, -1, -1, -1, map[]), Node(-1, 0, ParentRoot, ParentRoot, map[])];
    var depth := [-1, 0];
    InitFormed(size);
    var p := Position(Root, 0);
    assert Lab(ns, [], depth, p) == [];
    assert Spells(ns, [], depth, p, 0, 0, 0);
    forall i, j | 0 <= i <= j <= 0 ensures Has(ns, [], depth, i, j, 0) {
      assert Spells(ns, [], depth, p, i, j, 0);
    }
    assert Complete(ns, [], depth, 0);
    assert LeavesBefore(ns, depth, size, 0);
  }

  /** The two nodes the constructor makes form an arena. */
  lemma InitFormed(size: int)
    requires size >= 0
    ensures var ns := [Node(-1, -1, -1, -1, map[]), Node(-1, 0, ParentRoot, ParentRoot, map[])];
            Formed(ns, [], [-1, 0], size)
  {
    var ns := [Node(-1, -1, -1, -1, map[]), Node(-1, 0, ParentRoot, ParentRoot, map[])];
    var depth := [-1, 0];
    assert Hung(ns, depth, size, Root);
    assert LinkOk(ns, depth, ParentRoot) && LinkOk(ns, depth, Root);
  }

  // ---------------------------------------------------------------- links

  /** Setting a link that fits keeps the tree good. */
  lemma SetLinkGood(ns: seq<Node>, text: seq<char>, depth: seq<int>, size: int, n: int, b: int, x: int, m: int)
    requires Good(ns, text, depth, size, n, b) && LinkFits(ns, text, depth, n, x, m)
    ensures Good(SetLink(ns, x, m), text, depth, size, n, b)
  {
    var r := SetLink(ns, x, m);
    SetLinkFormed(ns, text, depth, size, x, m);
    forall y | 2 <= y < |r| ensures Agrees(r, text, depth, y) && Kind(r, size, n, y) && LinkAgrees(r, text, depth, n, y) {
      assert Agrees(ns, text, depth, y) && Kind(ns, size, n, y) && LinkAgrees(ns, text, depth, n, y);
      SetLinkEdge(ns, text, depth, size, n, x, m, y);
    }
    SetLinkSpells(ns, text, depth, size, n, b, x, m);
  }

  /** Setting a link that fits leaves every node agreeing with its parent,
      of its kind, and with a fitting link. */
  lemma SetLinkEdge(ns: seq<Node>, text: seq<char>, depth: seq<int>, size: int, n: int, x: int, m: int, y: int)
    requires LinkFits(ns, text, depth, n, x, m) && 2 <= y < |ns|
    requires Agrees(ns, text, depth, y) && Kind(ns, size, n, y) && LinkAgrees(ns, text, depth, n, y)
    ensures Agrees(SetLink(ns, x, m), text, depth, y) && Kind(SetLink(ns, x, m), size, n, y)
    ensures LinkAgrees(SetLink(ns, x, m), text, depth, n, y)
  {
  }

  /** Setting a link moves no point and no leaf. */
  lemma SetLinkSpells(ns: seq<Node>, text: seq<char>, depth: seq<int>, size: int, n: int, b: int, x: int, m: int)
    requires Good(ns, text, depth, size, n, b) && 0 <= x < |ns|
    ensures Complete(SetLink(ns, x, m), text, depth, n) && LeavesBefore(SetLink(ns, x, m), depth, size, b)
  {
    var r := SetLink(ns, x, m);
    forall i, j | 0 <= i <= j <= n ensures Has(r, text, depth, i, j, n) {
      assert Has(ns, text, depth, i, j, n);
      var w :| Spells(ns, text, depth, w, i, j, n);
      assert Spells(r, text, depth, w, i, j, n);
    }
    forall j | 0 <= j < b ensures HasLeaf(r, depth, size, j) {
      assert HasLeaf(ns, depth, size, j);
      var y :| LeafOf(ns, depth, size, y, j);
      assert LeafOf(r, depth, size, y, j);
    }
  }

  // ---------------------------------------------------------------- leaves

  /** Hanging the leaf of the suffix starting at `b` under the node `v`
      that spells `text[b..n)`, by the symbol `text[n]` it has no child
      under, keeps the tree good and gives the suffix at `b` its leaf. */
  lemma AddLeafGood(ns: seq<Node>, text: seq<char>, depth: seq<int>, size: int, n: int, b: int, v: int)
    requires Good(ns, text, depth, size, n, b) && n == |text| - 1 && 0 <= b <= n
    requires 1 <= v < |ns| && ns[v].finish <= n && depth[v] == n - b
    requires Framed(ns, text, depth, Position(v, 0)) && Lab(ns, text, depth, Position(v, 0)) == text[b..n]
    requires text[n] !in ns[v].children
    ensures Good(AddLeaf(ns, text, size, v), text, depth + [depth[v] + size - n], size, n, b + 1)
    ensures LeafOf(AddLeaf(ns, text, size, v), depth + [depth[v] + size - n], size, |ns|, b)
  {
    var r := AddLeaf(ns, text, size, v);
    var dp := depth + [depth[v] + size - n];
    AddLeafFormed(ns, text, depth, size, v);
    forall y | 2 <= y < |r| ensures Agrees(r, text, dp, y) && Kind(r, size, n, y) && LinkAgrees(r, text, dp, n, y) {
      if y < |ns| {
        assert Agrees(ns, text, depth, y) && Kind(ns, size, n, y) && LinkAgrees(ns, text, depth, n, y);
        AddLeafEdge(ns, text, depth, size, n, v, y);
      } else {
        assert Lab(r, text, dp, Position(v, 0)) == Lab(ns, text, depth, Position(v, 0));
      }
    }
    AddLeafSpells(ns, text, depth, size, n, b, v);
  }

  /** Hanging a leaf leaves every old node agreeing with its parent, of its
      kind, and with a fitting link. */
  lemma AddLeafEdge(ns: seq<Node>, text: seq<char>, depth: seq<int>, size: int, n: int, v: int, y: int)
    requires Formed(ns, text, depth, size) && 0 <= n == |text| - 1 && 1 <= v < |ns| && ns[v].finish <= n && 2 <= y < |ns|
    requires Agrees(ns, text, depth, y) && Kind(ns, size, n, y) && LinkAgrees(ns, text, depth, n, y)
    ensures var r := AddLeaf(ns, text, size, v);
            var dp := depth + [depth[v] + size - n];
            Agrees(r, text, dp, y) && Kind(r, size, n, y) && LinkAgrees(r, text, dp, n, y)
  {
    var r := AddLeaf(ns, text, size, v);
    var dp := depth + [depth[v] + size - n];
    var q := ns[y].parent;
    assert r[q].finish == ns[q].finish && dp[q] == depth[q];
    if ns[y].link != -1 {
      var m := ns[y].link;
      assert r[m].finish == ns[m].finish && dp[m] == depth[m];
    }
  }

  /** Hanging a leaf moves no point, and the suffixes that had leaves keep
      them; the new leaf is that of the suffix at `b`. */
  lemma AddLeafSpells(ns: seq<Node>, text: seq<char>, depth: seq<int>, size: int, n: int, b: int, v: int)
    requires Good(ns, text, depth, size, n, b) && n == |text| - 1 && 0 <= b <= n
    requires 1 <= v < |ns| && depth[v] == n - b
    ensures var r := AddLeaf(ns, text, size, v);
            var dp := depth + [depth[v] + size - n];
            Complete(r, text, dp, n) && (forall j :: 0 <= j < b + 1 ==> HasLeaf(r, dp, size, j))
  {
    var r := AddLeaf(ns, text, size, v);
    var dp := depth + [depth[v] + size - n];
    forall i, j | 0 <= i <= j <= n ensures Has(r, text, dp, i, j, n) {
      assert Has(ns, text, depth, i, j, n);
      var w :| Spells(ns, text, depth, w, i, j, n);
      assert Lab(r, text, dp, w) == Lab(ns, text, depth, w);
      assert Spells(r, text, dp, w, i, j, n);
    }
    forall j | 0 <= j < b + 1 ensures HasLeaf(r, dp, size, j) {
      if j < b {
        assert HasLeaf(ns, depth, size, j);
        var y :| LeafOf(ns, depth, size, y, j);
        assert LeafOf(r, dp, size, y, j);
      } else {
        assert LeafOf(r, dp, size, |ns|, b);
      }
    }
  }

  /** A node made at a point (by `makeNode`) spells what the point spelled:
      its window ends where the point's did and starts where it did. */
  lemma MadeSpells(ns0: seq<Node>, d0: seq<int>, ns: seq<Node>, d: seq<int>, text: seq<char>, p: Position, v: int, i: int, j: int)
    requires Framed(ns0, text, d0, p) && 0 <= i <= j <= |text| && Lab(ns0, text, d0, p) == text[i..j]
    requires 0 <= v < |ns| == |d| && ns[v].finish == Idx(ns0, p) && Ls(ns, d, v) == Ls(ns0, d0, p.node)
    ensures Framed(ns, text, d, Position(v, 0)) && Lab(ns, text, d, Position(v, 0)) == text[i..j]
  {
  }

  /** The link of a node that spells `text[b..n)` spells `text[b + 1..n)`. */
  lemma LinkSpells(ns: seq<Node>, text: seq<char>, depth: seq<int>, n: int, x: int, m: int, b: int)
    requires LinkFits(ns, text, depth, n, x, m) && 0 <= b <= n <= |text|
    requires Framed(ns, text, depth, Position(x, 0)) && Lab(ns, text, depth, Position(x, 0)) == text[b..n]
    ensures b < n && Spells(ns, text, depth, Position(m, 0), b + 1, n, n)
  {
    var s := Ls(ns, depth, x);
    var f := ns[x].finish;
    assert text[s + 1 .. f] == text[s .. f][1..] == text[b .. n][1..] == text[b + 1 .. n];
  }

  // ---------------------------------------------------------------- splits

  /** Where a point `w` lies once the edge of `p` is split at `p`: points
      at or above `p` move onto the new node's edge. */
  function Lift(ns: seq<Node>, p: Position, w: Position): Position {
    if w.node == p.node && w.dist >= p.dist then Position(|ns|, w.dist - p.dist) else w
  }

  /** A split moves no point: each lies where it did, at the same depth
      and spelling the same window. */
  lemma SplitPoint(ns: seq<Node>, text: seq<char>, depth: seq<int>, size: int, p: Position, w: Position, n: int)
    requires Formed(ns, text, depth, size) && Placed(ns, p) && p.dist > 0 && Idx(ns, p) < |text|
    requires Real(ns, depth, w, n)
    ensures 2 <= p.node && 0 <= ns[p.node].parent < |ns| && 0 <= ns[p.node].start
    ensures var r := Split(ns, text, p);
            var dp := depth + [PosDepth(depth, p)];
            var u := Lift(ns, p, w);
            && Real(r, dp, u, n) && Idx(r, u) == Idx(ns, w) && PosDepth(dp, u) == PosDepth(depth, w)
            && Ls(r, dp, u.node) == Ls(ns, depth, w.node)
  {
    PlacedDepth(ns, text, depth, size, p);
    ParentShallower(ns, text, depth, size, p.node);
  }

  lemma SpellsSplit(ns: seq<Node>, text: seq<char>, depth: seq<int>, size: int, p: Position, w: Position, i: int, j: int, n: int)
    requires Formed(ns, text, depth, size) && Placed(ns, p) && p.dist > 0 && Idx(ns, p) < |text|
    requires Spells(ns, text, depth, w, i, j, n)
    ensures 2 <= p.node && 0 <= ns[p.node].parent < |ns| && 0 <= ns[p.node].start
    ensures Spells(Split(ns, text, p), text, depth + [PosDepth(depth, p)], Lift(ns, p, w), i, j, n)
  {
    SplitPoint(ns, text, depth, size, p, w, n);
  }

  /** Making a node at a point inside an edge, within `text[..n]`, keeps
      the tree good; the new node spells what the point spelled. */
  lemma SplitGood(ns: seq<Node>, text: seq<char>, depth: seq<int>, size: int, n: int, b: int, p: Position)
    requires Good(ns, text, depth, size, n, b) && n < |text| && Real(ns, depth, p, n) && p.dist > 0
    ensures 2 <= p.node && 0 <= ns[p.node].parent < |ns| && 0 <= ns[p.node].start
    ensures Good(Split(ns, text, p), text, depth + [PosDepth(depth, p)], size, n, b)
    ensures Ls(Split(ns, text, p), depth + [PosDepth(depth, p)], |ns|) == Ls(ns, depth, p.node)
  {
    SplitFormed(ns, text, depth, size, p);
    var r := Split(ns, text, p);
    var dp := depth + [PosDepth(depth, p)];
    var y0 := p.node;
    var v := |ns|;
    RealLab(ns, text, depth, size, p, n);
    forall y | 2 <= y < |r| ensures Agrees(r, text, dp, y) {
      SplitAgrees(ns, text, depth, size, n, b, p, y);
    }
    assert Keyed(ns, text, y0);
    forall y | 2 <= y < |r| ensures Kind(r, size, n, y) {
      if y < |ns| {
        assert Kind(ns, size, n, y);
      } else {
        assert text[Idx(ns, p)] in r[y].children;
      }
    }
    forall x | 2 <= x < |r| ensures LinkAgrees(r, text, dp, n, x) {
      if x < |ns| {
        assert LinkAgrees(ns, text, depth, n, x);
        if ns[x].link != -1 {
          assert Lab(r, text, dp, Position(ns[x].link, 0)) == Lab(ns, text, depth, Position(ns[x].link, 0));
        }
      }
    }
    forall i, j | 0 <= i <= j <= n ensures Has(r, text, dp, i, j, n) {
      assert Has(ns, text, depth, i, j, n);
      var w :| Spells(ns, text, depth, w, i, j, n);
      SpellsSplit(ns, text, depth, size, p, w, i, j, n);
    }
    forall j | 0 <= j < b ensures HasLeaf(r, dp, size, j) {
      assert HasLeaf(ns, depth, size, j);
      var y :| LeafOf(ns, depth, size, y, j);
      assert LeafOf(r, dp, size, y, j);
    }
  }

  lemma SplitAgrees(ns: seq<Node>, text: seq<char>, depth: seq<int>, size: int, n: int, b: int, p: Position, y: int)
    requires Good(ns, text, depth, size, n, b) && n < |text| && Real(ns, depth, p, n) && p.dist > 0
    requires Framed(ns, text, depth, p) && Idx(ns, p) == Ls(ns, depth, p.node) + PosDepth(depth, p)
    requires 2 <= p.node && 0 <= ns[p.node].parent < |ns| && 0 <= ns[p.node].start
    requires Formed(Split(ns, text, p), text, depth + [PosDepth(depth, p)], size)
    requires 2 <= y < |ns| + 1
    ensures Agrees(Split(ns, text, p), text, depth + [PosDepth(depth, p)], y)
  {
    if y == |ns| {
      assert Agrees(ns, text, depth, p.node);
      SplitAgreesKept(ns, text, depth, size, p, y);
    } else if y != p.node {
      assert Agrees(ns, text, depth, y);
      SplitAgreesKept(ns, text, depth, size, p, y);
    } else {
      SplitAgreesCut(ns, text, depth, size, p);
    }
  }

  /** After a split, a node other than the one split agrees with its parent
      as it did before (the new node with the old parent of the one split). */
  lemma SplitAgreesKept(ns: seq<Node>, text: seq<char>, depth: seq<int>, size: int, p: Position, y: int)
    requires 2 <= p.node < |ns| == |depth| && 0 < p.dist < ns[p.node].finish - ns[p.node].start
    requires 0 <= ns[p.node].parent < |ns| && 0 <= ns[p.node].start && Idx(ns, p) < |text|
    requires Formed(Split(ns, text, p), text, depth + [PosDepth(depth, p)], size)
    requires 2 <= y <= |ns| && y != p.node
    requires Agrees(ns, text, depth, if y == |ns| then p.node else y)
    ensures Agrees(Split(ns, text, p), text, depth + [PosDepth(depth, p)], y)
  {
    var r := Split(ns, text, p);
    var dp := depth + [PosDepth(depth, p)];
    var q := if y == |ns| then ns[p.node].parent else ns[y].parent;
    assert r[y].parent == q && r[q].finish == ns[q].finish && dp[q] == depth[q];
  }

  /** After a split, the node split agrees with the new node above it: the
      new node spells what the point spelled. */
  lemma SplitAgreesCut(ns: seq<Node>, text: seq<char>, depth: seq<int>, size: int, p: Position)
    requires 2 <= p.node < |ns| == |depth| && 0 < p.dist < ns[p.node].finish - ns[p.node].start
    requires 0 <= ns[p.node].parent < |ns| && 0 <= ns[p.node].start && Idx(ns, p) < |text|
    requires Formed(Split(ns, text, p), text, depth + [PosDepth(depth, p)], size)
    requires Framed(ns, text, depth, p) && Idx(ns, p) == Ls(ns, depth, p.node) + PosDepth(depth, p)
    ensures Agrees(Split(ns, text, p), text, depth + [PosDepth(depth, p)], p.node)
  {
    var r := Split(ns, text, p);
    var dp := depth + [PosDepth(depth, p)];
    assert r[p.node].parent == |ns| && r[|ns|].finish == Idx(ns, p);
    assert Ls(r, dp, p.node) == Ls(ns, depth, p.node) == Ls(r, dp, |ns|);
  }

  // ---------------------------------------------------------------- the final step of add

  /** `go` from a point that spells `text[b..n)` on the symbol `text[n]`
      reaches a point that spells `text[b..n]`. */
  lemma GoLab(ns: seq<Node>, text: seq<char>, depth: seq<int>, size: int, p: Position, n: int, c: char)
    requires Tracks(ns, text, depth, size, p, n) && n == |text| - 1 && text[n] == c
    requires Readable(ns, text, p) && CanGo(ns, text, p, c)
    ensures Root < |ns| && (p.node == ParentRoot || forall d :: d in ns[p.node].children ==> ns[p.node].children[d] < |ns|)
    ensures PosDepth(depth, Go(ns, text, p, c)) == PosDepth(depth, p) + 1
    ensures Spells(ns, text, depth, Go(ns, text, p, c), n - PosDepth(depth, p), n + 1, n + 1)
  {
    GoDeeper(ns, text, depth, size, p, c);
    var g := Go(ns, text, p, c);
    var b := n - PosDepth(depth, p);
    if p.node == ParentRoot {
      assert g == Position(Root, 0);
    } else {
      RealLab(ns, text, depth, size, p, n);
      var lab := Lab(ns, text, depth, p);
      if p.dist == 0 {
        GoLabNode(ns, text, depth, size, p.node, c);
      } else {
        assert text[Ls(ns, depth, p.node) .. Idx(ns, g)] == lab + [c];
      }
      assert text[b .. n + 1] == text[b .. n] + [c];
    }
  }

  /** From a node with a child under `c`, the first point of the child's
      edge spells what the node spells followed by `c`. */
  lemma GoLabNode(ns: seq<Node>, text: seq<char>, depth: seq<int>, size: int, x: int, c: char)
    requires Formed(ns, text, depth, size) && Agreed(ns, text, depth) && 1 <= x < |ns| && c in ns[x].children
    requires Framed(ns, text, depth, Position(x, 0))
    ensures ns[x].children[c] < |ns|
    ensures var g := GetNextPosition(ns, x, c);
            && Framed(ns, text, depth, g) && Idx(ns, g) >= 1
            && Lab(ns, text, depth, g) == Lab(ns, text, depth, Position(x, 0)) + [c]
  {
    var y := ns[x].children[c];
    assert ChildOk(ns, text, x, c);
    var g := GetNextPosition(ns, x, c);
    assert Hung(ns, depth, size, y) && Agrees(ns, text, depth, y);
    assert text[Ls(ns, depth, y) .. Idx(ns, g)] == text[Ls(ns, depth, y) .. Idx(ns, g) - 1] + [c];
  }

  /** After `go`, the point `add` stepped to spells a window within the
      text read before the symbol: the suffix it spells occurs earlier. */
  lemma GoEarlier(ns: seq<Node>, text: seq<char>, depth: seq<int>, size: int, g: Position, b: int, n: int)
    requires Good(ns, text, depth, size, n, b) && n == |text| - 1 && n < size
    requires Spells(ns, text, depth, g, b, n + 1, n + 1)
    ensures Idx(ns, g) <= n
  {
    RealLab(ns, text, depth, size, g, n + 1);
    if g.node >= 2 {
      assert Kind(ns, size, n, g.node);
      assert Hung(ns, depth, size, g.node);
    }
  }

  /** The piece `text[i..n]` with the last symbol: the leaf of `i` spells
      it when `i < b`; otherwise it is a piece of what the point `g`
      spells, which occurs within `text[..n)`. */
  lemma NewSuffix(ns: seq<Node>, text: seq<char>, depth: seq<int>, size: int, g: Position, b: int, n: int, i: int)
    requires Good(ns, text, depth, size, n, b) && n == |text| - 1 && n < size
    requires Spells(ns, text, depth, g, b, n + 1, n + 1) && Idx(ns, g) <= n && 0 <= i <= n + 1
    ensures Has(ns, text, depth, i, n + 1, n + 1)
  {
    if i < b {
      assert HasLeaf(ns, depth, size, i);
      var y :| LeafOf(ns, depth, size, y, i);
      assert Hung(ns, depth, size, y) && Keyed(ns, text, y);
      var w := Position(y, size - (n + 1));
      assert Spells(ns, text, depth, w, i, n + 1, n + 1);
    } else {
      var s := Ls(ns, depth, g.node);
      var e := Idx(ns, g);
      var k := i - b;
      assert text[s + k .. e] == text[s .. e][k..] == text[b .. n + 1][k..] == text[i .. n + 1];
      assert Has(ns, text, depth, s + k, e, n);
      var w :| Spells(ns, text, depth, w, s + k, e, n);
      assert Spells(ns, text, depth, w, i, n + 1, n + 1);
    }
  }

  /** The last step of `add`: once the active point can step on the symbol
      just read, stepping on it gives a tree good for the whole text, and
      the new active point spells a suffix that occurs within the text read
      before. */
  lemma AdvanceTracks(ns: seq<Node>, text: seq<char>, depth: seq<int>, size: int, p: Position, c: char)
    requires Tracks(ns, text, depth, size, p, |text| - 1) && |text| >= 1 && text[|text| - 1] == c
    requires Readable(ns, text, p) && CanGo(ns, text, p, c)
    ensures Root < |ns| && (p.node == ParentRoot || forall d :: d in ns[p.node].children ==> ns[p.node].children[d] < |ns|)
    ensures Tracks(ns, text, depth, size, Go(ns, text, p, c), |text|)
    ensures Go(ns, text, p, c).node >= 1 && Idx(ns, Go(ns, text, p, c)) < |text|
  {
    var n := |text| - 1;
    var b := n - PosDepth(depth, p);
    GoLab(ns, text, depth, size, p, n, c);
    var g := Go(ns, text, p, c);
    GoEarlier(ns, text, depth, size, g, b, n);
    var t := |text|;
    forall y | 2 <= y < |ns| ensures Kind(ns, size, t, y) {
      assert Kind(ns, size, n, y);
    }
    forall x | 2 <= x < |ns| ensures LinkAgrees(ns, text, depth, t, x) {
      assert LinkAgrees(ns, text, depth, n, x);
    }
    forall i, j | 0 <= i <= j <= t ensures Has(ns, text, depth, i, j, t) {
      if j <= n {
        assert Has(ns, text, depth, i, j, n);
        var w :| Spells(ns, text, depth, w, i, j, n);
        assert Spells(ns, text, depth, w, i, j, t);
      } else {
        NewSuffix(ns, text, depth, size, g, b, n, i);
      }
    }
  }

  // ---------------------------------------------------------------- buildLink

  /** Where the walk of `buildLink(x)` ends: the point `t` that spells what
      `x` spells less its first symbol. Its window ends within `text[..n]`,
      and it lies, as many steps down as the edge into `x` is long, below
      the link `lk` of the parent of `x` (`parentRoot_` when the parent is
      the root): the walk starts at `lk` and reads `text[l..r)` of the edge,
      after skipping its first symbol when it starts from `parentRoot_`. */
  lemma LinkTarget(ns: seq<Node>, text: seq<char>, depth: seq<int>, size: int, n: int, b: int, x: int, lk: int)
      returns (t: Position)
    requires Good(ns, text, depth, size, n, b) && 2 <= x < |ns| && ns[x].finish <= n
    requires var q := ns[x].parent;
             (q == Root && lk == ParentRoot) || (q != Root && LinkFits(ns, text, depth, n, q, lk))
    ensures 0 <= lk < |ns| && Placed(ns, Position(lk, 0))
    ensures Real(ns, depth, t, n) && Framed(ns, text, depth, t)
    ensures ns[x].start < ns[x].finish && 0 <= ns[x].start - depth[lk] <= ns[x].finish
    ensures PosDepth(depth, t) == depth[lk] + (ns[x].finish - ns[x].start)
    ensures Lab(ns, text, depth, t) == text[ns[x].start - depth[lk] .. ns[x].finish]
    ensures Ups(ns, t, ns[x].finish - ns[x].start) == Position(lk, 0)
  {
    var q := ns[x].parent;
    ParentShallower(ns, text, depth, size, x);
    assert Hung(ns, depth, size, q);
    var i := Ls(ns, depth, x) + 1;
    assert Has(ns, text, depth, i, ns[x].finish, n);
    t :| Spells(ns, text, depth, t, i, ns[x].finish, n);
    var m := ns[x].finish - ns[x].start;
    if q == Root {
      UpsTop(ns, text, depth, size, t);
    } else {
      LinkTargetUps(ns, text, depth, size, n, b, x, lk, t);
    }
  }

  /** Below a parent other than the root: the point the edge's length up
      from `t` spells what the parent's link spells, so it is that link. */
  lemma LinkTargetUps(ns: seq<Node>, text: seq<char>, depth: seq<int>, size: int, n: int, b: int, x: int, lk: int, t: Position)
    requires Good(ns, text, depth, size, n, b) && 2 <= x < |ns| && ns[x].finish <= n
    requires var q := ns[x].parent; q != Root && LinkFits(ns, text, depth, n, q, lk)
    requires Hung(ns, depth, size, x) && Hung(ns, depth, size, ns[x].parent)
    requires Spells(ns, text, depth, t, Ls(ns, depth, x) + 1, ns[x].finish, n)
    ensures Ups(ns, t, ns[x].finish - ns[x].start) == Position(lk, 0)
  {
    var i := Ls(ns, depth, x) + 1;
    var m := ns[x].finish - ns[x].start;
    UpsLab(ns, text, depth, size, t, m);
    var a := Ups(ns, t, m);
    assert Agrees(ns, text, depth, x);
    assert Lab(ns, text, depth, a) == text[i .. ns[x].start] == text[Ls(ns, depth, x) .. ns[x].start][1..];
    Unique(ns, text, depth, size, a, Position(lk, 0));
  }
}

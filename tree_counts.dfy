/** What `findCounts` and `findRefren` of D3_suf_tree.cpp compute, as
    functions of a formed arena: the subtree of a node, the `count` that
    `findCounts` leaves in it, and the order in which `findRefren` visits
    the nodes below it. */
module TreeCounts {
  import opened Edges
  import opened TreeArena

  // ---------------------------------------------------------------- subtrees

  /** The child of `x` on the way up from `z`, or -1 when `z` does not lie
      strictly below `x`. */
  ghost function Up(ns: seq<Node>, text: seq<char>, depth: seq<int>, size: int, z: int, x: int): (y: int)
    requires Formed(ns, text, depth, size) && 0 <= z < |ns|
    ensures y == -1 || (2 <= y < |ns| && ns[y].parent == x)
    decreases depth[z] + 1
  {
    if z < 2 then -1
    else
      ParentShallower(ns, text, depth, size, z);
      if ns[z].parent == x then z else Up(ns, text, depth, size, ns[z].parent, x)
  }

  /** `z` lies in the subtree of `x`. */
  ghost predicate Below(ns: seq<Node>, text: seq<char>, depth: seq<int>, size: int, z: int, x: int)
    requires Formed(ns, text, depth, size) && 0 <= z < |ns|
  {
    z == x || Up(ns, text, depth, size, z, x) != -1
  }

  /** A node strictly below `x` has a parent in the subtree of `x`. */
  lemma BelowParent(ns: seq<Node>, text: seq<char>, depth: seq<int>, size: int, z: int, x: int)
    requires Formed(ns, text, depth, size) && 0 <= z < |ns| && Below(ns, text, depth, size, z, x) && z != x
    ensures 2 <= z && 1 <= ns[z].parent < |ns| && 0 <= depth[ns[z].parent] < depth[z]
    ensures Below(ns, text, depth, size, ns[z].parent, x)
  {
    ParentShallower(ns, text, depth, size, z);
    assert Hung(ns, depth, size, ns[z].parent);
  }

  /** The child that `Up` finds lies above `z`, below `x`, and holds `z` in
      its subtree. */
  lemma {:induction false} UpSpec(ns: seq<Node>, text: seq<char>, depth: seq<int>, size: int, z: int, x: int)
    requires Formed(ns, text, depth, size) && 0 <= z < |ns| && 0 <= x < |ns|
    requires Up(ns, text, depth, size, z, x) != -1
    ensures var y := Up(ns, text, depth, size, z, x);
            && Below(ns, text, depth, size, z, y) && depth[x] < depth[y] <= depth[z]
    decreases depth[z] + 1
  {
    ParentShallower(ns, text, depth, size, z);
    var p := ns[z].parent;
    if p == x {
      assert Up(ns, text, depth, size, z, x) == z;
    } else {
      var y := Up(ns, text, depth, size, p, x);
      UpSpec(ns, text, depth, size, p, x);
      ParentShallower(ns, text, depth, size, y);
      if p != y {
        assert Up(ns, text, depth, size, z, y) == Up(ns, text, depth, size, p, y);
      }
    }
  }

  /** The subtree of a node lies no higher than the node. */
  lemma BelowDeeper(ns: seq<Node>, text: seq<char>, depth: seq<int>, size: int, z: int, x: int)
    requires Formed(ns, text, depth, size) && 0 <= z < |ns| && 0 <= x < |ns| && Below(ns, text, depth, size, z, x)
    ensures depth[x] <= depth[z]
    ensures z != x ==> depth[x] < depth[z]
  {
    if z != x {
      UpSpec(ns, text, depth, size, z, x);
    }
  }

  /** Every node of the subtree of a child `y` of `x` is reached from `x`
      through `y`. */
  lemma {:induction false} UpOfChild(ns: seq<Node>, text: seq<char>, depth: seq<int>, size: int, z: int, y: int, x: int)
    requires Formed(ns, text, depth, size) && 0 <= z < |ns| && 2 <= y < |ns| && ns[y].parent == x
    requires Below(ns, text, depth, size, z, y)
    ensures Up(ns, text, depth, size, z, x) == y
    decreases depth[z] + 1
  {
    if z != y {
      BelowParent(ns, text, depth, size, z, y);
      var p := ns[z].parent;
      ParentShallower(ns, text, depth, size, y);
      BelowDeeper(ns, text, depth, size, p, y);
      UpOfChild(ns, text, depth, size, p, y, x);
    }
  }

  /** Subtrees nest. */
  lemma {:induction false} BelowTrans(ns: seq<Node>, text: seq<char>, depth: seq<int>, size: int, w: int, z: int, y: int)
    requires Formed(ns, text, depth, size) && 0 <= w < |ns| && 0 <= z < |ns| && 0 <= y < |ns|
    requires Below(ns, text, depth, size, w, z) && Below(ns, text, depth, size, z, y)
    ensures Below(ns, text, depth, size, w, y)
    decreases depth[w] + 1
  {
    if w != z && w != y {
      BelowParent(ns, text, depth, size, w, z);
      var p := ns[w].parent;
      BelowTrans(ns, text, depth, size, p, z, y);
      if p != y {
        assert Up(ns, text, depth, size, w, y) == Up(ns, text, depth, size, p, y);
      }
    }
  }

  /** Every node other than `parentRoot_` lies in the subtree of the root. */
  lemma {:induction false} BelowRoot(ns: seq<Node>, text: seq<char>, depth: seq<int>, size: int, z: int)
    requires Formed(ns, text, depth, size) && 1 <= z < |ns|
    ensures Below(ns, text, depth, size, z, Root)
    decreases depth[z]
  {
    if z != Root {
      ParentShallower(ns, text, depth, size, z);
      var p := ns[z].parent;
      if p != Root {
        BelowRoot(ns, text, depth, size, p);
        assert Up(ns, text, depth, size, z, Root) == Up(ns, text, depth, size, p, Root);
      }
    }
  }

  /** The first symbol of the edge into the child `Up` finds is one of `ks`. */
  ghost predicate ViaKey(ns: seq<Node>, text: seq<char>, depth: seq<int>, size: int, z: int, x: int, ks: seq<char>)
    requires Formed(ns, text, depth, size) && 0 <= z < |ns|
  {
    var y := Up(ns, text, depth, size, z, x);
    y != -1 && 0 <= ns[y].start < |text| && text[ns[y].start] in ks
  }

  /** The child of `x` under `k` holds exactly the nodes whose way up to `x`
      passes the edge that starts with `k`. */
  lemma ChildSubtree(ns: seq<Node>, text: seq<char>, depth: seq<int>, size: int, z: int, x: int, k: char)
    requires Formed(ns, text, depth, size) && 0 <= z < |ns| && 0 <= x < |ns| && k in ns[x].children
    ensures ChildOk(ns, text, x, k)
    ensures Below(ns, text, depth, size, z, ns[x].children[k]) <==> ViaKey(ns, text, depth, size, z, x, [k])
  {
    assert ChildOk(ns, text, x, k);
    var y := ns[x].children[k];
    if Below(ns, text, depth, size, z, y) {
      UpOfChild(ns, text, depth, size, z, y, x);
    }
    var w := Up(ns, text, depth, size, z, x);
    if w != -1 {
      assert Keyed(ns, text, w);
      UpSpec(ns, text, depth, size, z, x);
    }
  }

  /** A node is its own parent's child under the first symbol of its edge. */
  lemma UpKeyed(ns: seq<Node>, text: seq<char>, depth: seq<int>, size: int, z: int, x: int)
    requires Formed(ns, text, depth, size) && 0 <= z < |ns| && 0 <= x < |ns| && Up(ns, text, depth, size, z, x) != -1
    ensures ViaKey(ns, text, depth, size, z, x, Ascending(ns[x].children.Keys))
  {
    assert Keyed(ns, text, Up(ns, text, depth, size, z, x));
  }

  // ---------------------------------------------------------------- counts

  /** The `count` that `findCounts` leaves in `x`, from the counts `c` the
      nodes hold before: 1 at a leaf; at an inner node its own count plus
      the counts of its children, in the order of the child table. */
  ghost function Tally(ns: seq<Node>, text: seq<char>, depth: seq<int>, size: int, c: seq<int>, x: int): int
    requires Formed(ns, text, depth, size) && 1 <= x < |ns| && |c| == |ns|
    decreases size - depth[x], 1, 0
  {
    if |ns[x].children| == 0 then 1
    else c[x] + TallyOver(ns, text, depth, size, c, x, Ascending(ns[x].children.Keys))
  }

  /** The counts of the children of `x` under the symbols `ks`, added up. */
  ghost function TallyOver(ns: seq<Node>, text: seq<char>, depth: seq<int>, size: int, c: seq<int>, x: int, ks: seq<char>): int
    requires Formed(ns, text, depth, size) && 1 <= x < |ns| && |c| == |ns|
    requires forall i :: 0 <= i < |ks| ==> ks[i] in ns[x].children
    decreases size - depth[x], 0, |ks|
  {
    if ks == [] then 0
    else
      var k := ks[|ks| - 1];
      ChildDeeper(ns, text, depth, size, x, k);
      assert Hung(ns, depth, size, x);
      TallyOver(ns, text, depth, size, c, x, ks[..|ks| - 1]) + Tally(ns, text, depth, size, c, ns[x].children[k])
  }

  /** The nodes below `x` in the order `findRefren` finishes them: the
      subtrees of the children in the order of the child table, then `x`. */
  ghost function PostOrder(ns: seq<Node>, text: seq<char>, depth: seq<int>, size: int, x: int): (o: seq<int>)
    requires Formed(ns, text, depth, size) && 1 <= x < |ns|
    ensures forall i :: 0 <= i < |o| ==> 1 <= o[i] < |ns|
    decreases size - depth[x], 1, 0
  {
    OrderOver(ns, text, depth, size, x, Ascending(ns[x].children.Keys)) + [x]
  }

  /** The subtrees of the children of `x` under `ks`, one after another. */
  ghost function OrderOver(ns: seq<Node>, text: seq<char>, depth: seq<int>, size: int, x: int, ks: seq<char>): (o: seq<int>)
    requires Formed(ns, text, depth, size) && 1 <= x < |ns|
    requires forall i :: 0 <= i < |ks| ==> ks[i] in ns[x].children
    ensures forall i :: 0 <= i < |o| ==> 1 <= o[i] < |ns|
    decreases size - depth[x], 0, |ks|
  {
    if ks == [] then []
    else
      var k := ks[|ks| - 1];
      ChildDeeper(ns, text, depth, size, x, k);
      assert Hung(ns, depth, size, x);
      OrderOver(ns, text, depth, size, x, ks[..|ks| - 1]) + PostOrder(ns, text, depth, size, ns[x].children[k])
  }

  /** Counts outside the subtree of `x` do not matter to its tally. */
  lemma {:induction false} TallyFrame(ns: seq<Node>, text: seq<char>, depth: seq<int>, size: int, c: seq<int>, c2: seq<int>, x: int)
    requires Formed(ns, text, depth, size) && 1 <= x < |ns| && |c| == |ns| && |c2| == |ns|
    requires forall z :: 0 <= z < |ns| && Below(ns, text, depth, size, z, x) ==> c[z] == c2[z]
    ensures Tally(ns, text, depth, size, c, x) == Tally(ns, text, depth, size, c2, x)
    decreases size - depth[x], 1, 0
  {
    if |ns[x].children| != 0 {
      TallyOverFrame(ns, text, depth, size, c, c2, x, Ascending(ns[x].children.Keys));
    }
  }

  lemma {:induction false} TallyOverFrame(ns: seq<Node>, text: seq<char>, depth: seq<int>, size: int, c: seq<int>, c2: seq<int>, x: int, ks: seq<char>)
    requires Formed(ns, text, depth, size) && 1 <= x < |ns| && |c| == |ns| && |c2| == |ns|
    requires forall i :: 0 <= i < |ks| ==> ks[i] in ns[x].children
    requires forall z :: 0 <= z < |ns| && Below(ns, text, depth, size, z, x) ==> c[z] == c2[z]
    ensures TallyOver(ns, text, depth, size, c, x, ks) == TallyOver(ns, text, depth, size, c2, x, ks)
    decreases size - depth[x], 0, |ks|
  {
    if ks != [] {
      var k := ks[|ks| - 1];
      ChildDeeper(ns, text, depth, size, x, k);
      assert Hung(ns, depth, size, x);
      var y := ns[x].children[k];
      assert Below(ns, text, depth, size, y, x) by {
        assert Up(ns, text, depth, size, y, x) == y;
      }
      forall z | 0 <= z < |ns| && Below(ns, text, depth, size, z, y) ensures c[z] == c2[z] {
        BelowTrans(ns, text, depth, size, z, y, x);
      }
      TallyOverFrame(ns, text, depth, size, c, c2, x, ks[..|ks| - 1]);
      TallyFrame(ns, text, depth, size, c, c2, y);
    }
  }

  /** `PostOrder(x)` lists exactly the subtree of `x`. */
  lemma {:induction false} PostOrderIn(ns: seq<Node>, text: seq<char>, depth: seq<int>, size: int, x: int)
    requires Formed(ns, text, depth, size) && 1 <= x < |ns|
    ensures forall z :: z in PostOrder(ns, text, depth, size, x) <==> 0 <= z < |ns| && Below(ns, text, depth, size, z, x)
    decreases size - depth[x], 1, 0
  {
    var ks := Ascending(ns[x].children.Keys);
    OrderOverIn(ns, text, depth, size, x, ks);
    forall z | 0 <= z < |ns| && z != x && Up(ns, text, depth, size, z, x) != -1
      ensures ViaKey(ns, text, depth, size, z, x, ks)
    {
      UpKeyed(ns, text, depth, size, z, x);
    }
  }

  /** `OrderOver(x, ks)` lists exactly the subtrees of the children of `x`
      under `ks`. */
  lemma {:induction false} OrderOverIn(ns: seq<Node>, text: seq<char>, depth: seq<int>, size: int, x: int, ks: seq<char>)
    requires Formed(ns, text, depth, size) && 1 <= x < |ns|
    requires forall i :: 0 <= i < |ks| ==> ks[i] in ns[x].children
    ensures forall z :: z in OrderOver(ns, text, depth, size, x, ks) <==> 0 <= z < |ns| && ViaKey(ns, text, depth, size, z, x, ks)
    decreases size - depth[x], 0, |ks|
  {
    if ks != [] {
      var k := ks[|ks| - 1];
      var ks' := ks[..|ks| - 1];
      ChildDeeper(ns, text, depth, size, x, k);
      assert Hung(ns, depth, size, x);
      var y := ns[x].children[k];
      OrderOverIn(ns, text, depth, size, x, ks');
      PostOrderIn(ns, text, depth, size, y);
      forall z | 0 <= z < |ns|
        ensures ViaKey(ns, text, depth, size, z, x, ks)
                <==> ViaKey(ns, text, depth, size, z, x, ks') || Below(ns, text, depth, size, z, y)
      {
        ChildSubtree(ns, text, depth, size, z, x, k);
        assert ks == ks' + [k];
      }
    }
  }


  /** `PostOrder(x)` lists each node of the subtree of `x` once. */
  lemma {:induction false} PostOrderDistinct(ns: seq<Node>, text: seq<char>, depth: seq<int>, size: int, x: int)
    requires Formed(ns, text, depth, size) && 1 <= x < |ns|
    ensures Distinct(PostOrder(ns, text, depth, size, x))
    decreases size - depth[x], 1, 0
  {
    var ks := Ascending(ns[x].children.Keys);
    AscendingSorted(ns[x].children.Keys);
    OrderOverDistinct(ns, text, depth, size, x, ks);
    OrderOverIn(ns, text, depth, size, x, ks);
    if Up(ns, text, depth, size, x, x) != -1 {
      UpSpec(ns, text, depth, size, x, x);
    }
    var a := OrderOver(ns, text, depth, size, x, ks);
    var o := a + [x];
    forall i, j | 0 <= i < j < |o| ensures o[i] != o[j] {
      assert o[i] == a[i] && a[i] in a;
      if j < |a| {
        assert o[j] == a[j];
      }
    }
  }

  lemma {:induction false} OrderOverDistinct(ns: seq<Node>, text: seq<char>, depth: seq<int>, size: int, x: int, ks: seq<char>)
    requires Formed(ns, text, depth, size) && 1 <= x < |ns|
    requires forall i :: 0 <= i < |ks| ==> ks[i] in ns[x].children
    requires StrictlyAscending(ks)
    ensures Distinct(OrderOver(ns, text, depth, size, x, ks))
    decreases size - depth[x], 0, |ks|
  {
    if ks != [] {
      var k := ks[|ks| - 1];
      var ks' := ks[..|ks| - 1];
      ChildDeeper(ns, text, depth, size, x, k);
      assert Hung(ns, depth, size, x);
      var y := ns[x].children[k];
      var a := OrderOver(ns, text, depth, size, x, ks');
      var b := PostOrder(ns, text, depth, size, y);
      OrderOverDistinct(ns, text, depth, size, x, ks');
      PostOrderDistinct(ns, text, depth, size, y);
      OrderOverIn(ns, text, depth, size, x, ks');
      PostOrderIn(ns, text, depth, size, y);
      assert k !in ks' by {
        forall j | 0 <= j < |ks'| ensures ks'[j] != k {
          assert ks'[j] == ks[j];
        }
      }
      forall i, j | 0 <= i < |a| && 0 <= j < |b| ensures a[i] != b[j] {
        assert a[i] in a && b[j] in b;
        ChildSubtree(ns, text, depth, size, b[j], x, k);
      }
      var o := a + b;
      forall i, j | 0 <= i < j < |o| ensures o[i] != o[j] {
        if j < |a| {
        } else if i >= |a| {
          assert o[i] == b[i - |a|] && o[j] == b[j - |a|];
        } else {
          assert o[j] == b[j - |a|];
        }
      }
    }
  }

  /** What a node adds to the tally of a subtree: 1 for a leaf, its count
      before `findCounts` for an inner node. */
  ghost function Share(ns: seq<Node>, c: seq<int>, z: int): int
    requires 0 <= z < |ns| && |c| == |ns|
  {
    if |ns[z].children| == 0 then 1 else c[z]
  }

  /** The shares of the nodes of `o`, added up. */
  ghost function Shares(ns: seq<Node>, c: seq<int>, o: seq<int>): int
    requires |c| == |ns| && forall i :: 0 <= i < |o| ==> 0 <= o[i] < |ns|
  {
    if o == [] then 0 else Shares(ns, c, o[..|o| - 1]) + Share(ns, c, o[|o| - 1])
  }

  lemma {:induction false} SharesAppend(ns: seq<Node>, c: seq<int>, a: seq<int>, b: seq<int>)
    requires |c| == |ns| && (forall i :: 0 <= i < |a| ==> 0 <= a[i] < |ns|) && (forall i :: 0 <= i < |b| ==> 0 <= b[i] < |ns|)
    ensures Shares(ns, c, a + b) == Shares(ns, c, a) + Shares(ns, c, b)
    decreases |b|
  {
    if b != [] {
      var b' := b[..|b| - 1];
      assert (a + b)[..|a + b| - 1] == a + b';
      assert (a + b)[|a + b| - 1] == b[|b| - 1];
      SharesAppend(ns, c, a, b');
      assert Shares(ns, c, a + b) == Shares(ns, c, a + b') + Share(ns, c, b[|b| - 1]);
      assert Shares(ns, c, b) == Shares(ns, c, b') + Share(ns, c, b[|b| - 1]);
    } else {
      assert a + b == a;
    }
  }

  /** The tally of `x` is the sum of the shares of its subtree. */
  lemma {:induction false} TallyShares(ns: seq<Node>, text: seq<char>, depth: seq<int>, size: int, c: seq<int>, x: int)
    requires Formed(ns, text, depth, size) && 1 <= x < |ns| && |c| == |ns|
    ensures Tally(ns, text, depth, size, c, x) == Shares(ns, c, PostOrder(ns, text, depth, size, x))
    decreases size - depth[x], 1, 0
  {
    var ks := Ascending(ns[x].children.Keys);
    var o := OrderOver(ns, text, depth, size, x, ks);
    TallyOverShares(ns, text, depth, size, c, x, ks);
    assert PostOrder(ns, text, depth, size, x) == o + [x];
    assert (o + [x])[..|o + [x]| - 1] == o;
    assert Shares(ns, c, o + [x]) == Shares(ns, c, o) + Share(ns, c, x);
    if |ns[x].children| == 0 {
      assert ks == [];
    }
  }

  lemma {:induction false} TallyOverShares(ns: seq<Node>, text: seq<char>, depth: seq<int>, size: int, c: seq<int>, x: int, ks: seq<char>)
    requires Formed(ns, text, depth, size) && 1 <= x < |ns| && |c| == |ns|
    requires forall i :: 0 <= i < |ks| ==> ks[i] in ns[x].children
    ensures TallyOver(ns, text, depth, size, c, x, ks) == Shares(ns, c, OrderOver(ns, text, depth, size, x, ks))
    decreases size - depth[x], 0, |ks|
  {
    if ks != [] {
      var k := ks[|ks| - 1];
      ChildDeeper(ns, text, depth, size, x, k);
      assert Hung(ns, depth, size, x);
      var y := ns[x].children[k];
      TallyOverShares(ns, text, depth, size, c, x, ks[..|ks| - 1]);
      TallyShares(ns, text, depth, size, c, y);
      SharesAppend(ns, c, OrderOver(ns, text, depth, size, x, ks[..|ks| - 1]), PostOrder(ns, text, depth, size, y));
    }
  }

  /** The leaves of the subtree of `x`. */
  ghost function Leaves(ns: seq<Node>, text: seq<char>, depth: seq<int>, size: int, x: int): set<int>
    requires Formed(ns, text, depth, size)
  {
    set z | 0 <= z < |ns| && Below(ns, text, depth, size, z, x) && |ns[z].children| == 0
  }

  /** The leaves listed in `o`. */
  ghost function LeafSet(ns: seq<Node>, o: seq<int>): set<int> {
    set z | z in o && 0 <= z < |ns| && |ns[z].children| == 0
  }

  lemma LeafSetSnoc(ns: seq<Node>, o: seq<int>, z: int)
    requires 0 <= z < |ns|
    ensures |ns[z].children| == 0 ==> LeafSet(ns, o + [z]) == LeafSet(ns, o) + {z}
    ensures |ns[z].children| != 0 ==> LeafSet(ns, o + [z]) == LeafSet(ns, o)
  {
    assert forall w :: w in o + [z] <==> w in o || w == z;
  }

  /** With no counts before, the shares of a list without repeats count its leaves. */
  lemma {:induction false} SharesCountLeaves(ns: seq<Node>, c: seq<int>, o: seq<int>)
    requires |c| == |ns| && (forall i :: 0 <= i < |c| ==> c[i] == 0)
    requires (forall i :: 0 <= i < |o| ==> 0 <= o[i] < |ns|) && Distinct(o)
    ensures Shares(ns, c, o) == |LeafSet(ns, o)|
    decreases |o|
  {
    if o != [] {
      var o', z := o[..|o| - 1], o[|o| - 1];
      DistinctButLast(o);
      assert forall i :: 0 <= i < |o'| ==> 0 <= o'[i] < |ns| by {
        forall i | 0 <= i < |o'| ensures o'[i] == o[i] {}
      }
      SharesCountLeaves(ns, c, o');
      LeafSetSnoc(ns, o', z);
    }
  }

  lemma ListedLeaves(ns: seq<Node>, text: seq<char>, depth: seq<int>, size: int, x: int, o: seq<int>)
    requires Formed(ns, text, depth, size)
    requires forall z :: z in o <==> 0 <= z < |ns| && Below(ns, text, depth, size, z, x)
    ensures LeafSet(ns, o) == Leaves(ns, text, depth, size, x)
  {
  }

  /** From zero counts, `findCounts` leaves in every node below the root
      the number of leaves of its subtree. */
  lemma CountIsLeaves(ns: seq<Node>, text: seq<char>, depth: seq<int>, size: int, x: int)
    requires Formed(ns, text, depth, size) && 1 <= x < |ns|
    ensures Tally(ns, text, depth, size, Pad([], |ns|), x) == |Leaves(ns, text, depth, size, x)|
  {
    var o := PostOrder(ns, text, depth, size, x);
    TallyShares(ns, text, depth, size, Pad([], |ns|), x);
    PostOrderIn(ns, text, depth, size, x);
    PostOrderDistinct(ns, text, depth, size, x);
    SharesCountLeaves(ns, Pad([], |ns|), o);
    ListedLeaves(ns, text, depth, size, x, o);
  }

  // ---------------------------------------------------------------- findCounts

  /** What `findCounts(x)` leaves in node `z`, from the counts `c0` and
      lengths `l0` before it: `x` and every node below it hold their tally;
      every node strictly below `x` holds the length of its path from `x`
      added to the length of `x`; every other node is as it was. */
  ghost predicate Counted(ns: seq<Node>, text: seq<char>, depth: seq<int>, size: int,
                          c0: seq<int>, l0: seq<int>, c: seq<int>, l: seq<int>, x: int, z: int)
    requires Formed(ns, text, depth, size) && 1 <= x < |ns| && 0 <= z < |ns|
    requires |c0| == |ns| && |l0| == |ns| && |c| == |ns| && |l| == |ns|
  {
    if z == x then c[z] == Tally(ns, text, depth, size, c0, z) && l[z] == l0[z]
    else if Below(ns, text, depth, size, z, x) then
      c[z] == Tally(ns, text, depth, size, c0, z) && l[z] == l0[x] + depth[z] - depth[x]
    else c[z] == c0[z] && l[z] == l0[z]
  }

  /** The invariant of the loop of `findCounts(x)` once the children under
      `ks` are done: `x` holds its count plus theirs, the subtrees of the
      children done are counted, the rest is as it was. */
  ghost predicate Counting(ns: seq<Node>, text: seq<char>, depth: seq<int>, size: int,
                           c0: seq<int>, l0: seq<int>, c: seq<int>, l: seq<int>, x: int, ks: seq<char>, z: int)
    requires Formed(ns, text, depth, size) && 1 <= x < |ns| && 0 <= z < |ns|
    requires |c0| == |ns| && |l0| == |ns| && |c| == |ns| && |l| == |ns|
    requires forall i :: 0 <= i < |ks| ==> ks[i] in ns[x].children
  {
    if z == x then c[z] == c0[z] + TallyOver(ns, text, depth, size, c0, x, ks) && l[z] == l0[z]
    else if ViaKey(ns, text, depth, size, z, x, ks) then
      c[z] == Tally(ns, text, depth, size, c0, z) && l[z] == l0[x] + depth[z] - depth[x]
    else c[z] == c0[z] && l[z] == l0[z]
  }

  /** `Counted` at every node. */
  ghost predicate CountedAll(ns: seq<Node>, text: seq<char>, depth: seq<int>, size: int,
                             c0: seq<int>, l0: seq<int>, c: seq<int>, l: seq<int>, x: int)
    requires Formed(ns, text, depth, size) && 1 <= x < |ns|
    requires |c0| == |ns| && |l0| == |ns| && |c| == |ns| && |l| == |ns|
  {
    forall z :: 0 <= z < |ns| ==> Counted(ns, text, depth, size, c0, l0, c, l, x, z)
  }

  /** `Counting` at every node. */
  ghost predicate CountingAll(ns: seq<Node>, text: seq<char>, depth: seq<int>, size: int,
                              c0: seq<int>, l0: seq<int>, c: seq<int>, l: seq<int>, x: int, ks: seq<char>)
    requires Formed(ns, text, depth, size) && 1 <= x < |ns|
    requires |c0| == |ns| && |l0| == |ns| && |c| == |ns| && |l| == |ns|
    requires forall i :: 0 <= i < |ks| ==> ks[i] in ns[x].children
  {
    forall z :: 0 <= z < |ns| ==> Counting(ns, text, depth, size, c0, l0, c, l, x, ks, z)
  }

  /** Before the loop nothing is done. */
  lemma CountingStart(ns: seq<Node>, text: seq<char>, depth: seq<int>, size: int, c0: seq<int>, l0: seq<int>, x: int)
    requires Formed(ns, text, depth, size) && 1 <= x < |ns| && |c0| == |ns| && |l0| == |ns|
    ensures CountingAll(ns, text, depth, size, c0, l0, c0, l0, x, [])
  {
    forall z | 0 <= z < |ns| ensures Counting(ns, text, depth, size, c0, l0, c0, l0, x, [], z) {
      if z != x {
        assert !ViaKey(ns, text, depth, size, z, x, []);
      }
    }
  }

  /** A leaf: `findCounts` sets its count to 1 and touches nothing else. */
  lemma CountedLeaf(ns: seq<Node>, text: seq<char>, depth: seq<int>, size: int, c0: seq<int>, l0: seq<int>, c: seq<int>, x: int)
    requires Formed(ns, text, depth, size) && 1 <= x < |ns| && |c0| == |ns| && |l0| == |ns|
    requires |ns[x].children| == 0 && c == c0[x := 1]
    ensures CountedAll(ns, text, depth, size, c0, l0, c, l0, x)
  {
    forall z | 0 <= z < |ns| ensures Counted(ns, text, depth, size, c0, l0, c, l0, x, z) {
      if Up(ns, text, depth, size, z, x) != -1 {
        UpKeyed(ns, text, depth, size, z, x);
      }
    }
  }

  /** After the last child the loop's invariant is the contract of `findCounts`. */
  lemma CountingDone(ns: seq<Node>, text: seq<char>, depth: seq<int>, size: int,
                     c0: seq<int>, l0: seq<int>, c: seq<int>, l: seq<int>, x: int)
    requires Formed(ns, text, depth, size) && 1 <= x < |ns| && |ns[x].children| != 0
    requires |c0| == |ns| && |l0| == |ns| && |c| == |ns| && |l| == |ns|
    requires CountingAll(ns, text, depth, size, c0, l0, c, l, x, Ascending(ns[x].children.Keys))
    ensures CountedAll(ns, text, depth, size, c0, l0, c, l, x)
  {
    forall z | 0 <= z < |ns| ensures Counted(ns, text, depth, size, c0, l0, c, l, x, z) {
      assert Counting(ns, text, depth, size, c0, l0, c, l, x, Ascending(ns[x].children.Keys), z);
      if z != x && Up(ns, text, depth, size, z, x) != -1 {
        UpKeyed(ns, text, depth, size, z, x);
      }
    }
  }

  /** One turn of the loop of `findCounts(x)` on the child `y` under
      `ks[i]`: the length of `y` is set from that of `x`, `findCounts(y)`
      runs, and `x` adds the count of `y` to its own. */
  lemma CountingStep(ns: seq<Node>, text: seq<char>, depth: seq<int>, size: int,
                     c0: seq<int>, l0: seq<int>, c: seq<int>, l: seq<int>, c2: seq<int>, l2: seq<int>,
                     x: int, ks: seq<char>, i: int, y: int, done: seq<char>, next: seq<char>)
    requires Formed(ns, text, depth, size) && 1 <= x < |ns|
    requires |c0| == |ns| && |l0| == |ns| && |c| == |ns| && |l| == |ns| && |c2| == |ns| && |l2| == |ns|
    requires forall j :: 0 <= j < |ks| ==> ks[j] in ns[x].children
    requires StrictlyAscending(ks) && 0 <= i < |ks| && done == ks[..i] && next == ks[..i + 1]
    requires CountingAll(ns, text, depth, size, c0, l0, c, l, x, done)
    requires ChildOk(ns, text, x, ks[i])
    requires y == ns[x].children[ks[i]]
    requires CountedAll(ns, text, depth, size, c, l[y := l[x] + ns[y].finish - ns[y].start], c2, l2, y)
    ensures CountingAll(ns, text, depth, size, c0, l0, c2[x := c2[x] + c2[y]], l2, x, next)
  {
    var l1 := l[y := l[x] + ns[y].finish - ns[y].start];
    var c3 := c2[x := c2[x] + c2[y]];
    ParentShallower(ns, text, depth, size, y);
    assert Hung(ns, depth, size, y);
    assert next[..i] == done;
    assert ks[i] !in done by {
      forall j | 0 <= j < i ensures done[j] != ks[i] {
        assert done[j] == ks[j];
      }
    }
    forall w | 0 <= w < |ns| && Below(ns, text, depth, size, w, y) ensures c[w] == c0[w] && w != x {
      BelowDeeper(ns, text, depth, size, w, y);
      UpOfChild(ns, text, depth, size, w, y, x);
      assert Counting(ns, text, depth, size, c0, l0, c, l, x, done, w);
    }
    assert Counting(ns, text, depth, size, c0, l0, c, l, x, done, x);
    assert Counted(ns, text, depth, size, c, l1, c2, l2, y, y);
    forall z | 0 <= z < |ns| ensures Counting(ns, text, depth, size, c0, l0, c3, l2, x, next, z) {
      assert Counting(ns, text, depth, size, c0, l0, c, l, x, done, z);
      assert Counted(ns, text, depth, size, c, l1, c2, l2, y, z);
      if z == x {
        assert Counted(ns, text, depth, size, c, l1, c2, l2, y, y);
        TallyFrame(ns, text, depth, size, c, c0, y);
      } else if Below(ns, text, depth, size, z, y) {
        UpOfChild(ns, text, depth, size, z, y, x);
        assert ViaKey(ns, text, depth, size, z, x, next);
        forall w | 0 <= w < |ns| && Below(ns, text, depth, size, w, z) ensures c[w] == c0[w] {
          BelowTrans(ns, text, depth, size, w, z, y);
        }
        TallyFrame(ns, text, depth, size, c, c0, z);
      } else {
        ChildSubtree(ns, text, depth, size, z, x, ks[i]);
        assert ViaKey(ns, text, depth, size, z, x, next) == ViaKey(ns, text, depth, size, z, x, done);
      }
    }
  }
}

/** `RefrenFinder` of D3_suf_tree.cpp: over the suffix tree of the text
    followed by `$`, the node of greatest `count * lengthOfSubstring`, and
    the piece of text it stands for. */
module TreeRefren {
  import opened Edges
  import opened TreeArena
  import opened TreeReads
  import opened TreeCounts
  import opened Tree

  /** `refrenValue` and `refrenNode`: the best value seen and its node (-1
      for `nullptr`). */
  datatype Best = Best(value: int, node: int)

  /** `getValue`. */
  function Value(count: seq<int>, len: seq<int>, z: int): int
    requires 0 <= z < |count| == |len|
  {
    count[z] * len[z]
  }

  /** `relaxRefren`: a greater value takes over; an equal one takes over
      the node when there is none yet or its length is no greater. */
  function Relax(count: seq<int>, len: seq<int>, b: Best, z: int): (r: Best)
    requires 0 <= z < |count| == |len| && -1 <= b.node < |len|
    ensures -1 <= r.node < |len|
  {
    var v := Value(count, len, z);
    if v > b.value then Best(v, z)
    else if v == b.value && (b.node == -1 || len[z] <= len[b.node]) then Best(b.value, z)
    else b
  }

  /** `relaxRefren` on the nodes of `o`, one after the other. */
  function RelaxAll(count: seq<int>, len: seq<int>, b: Best, o: seq<int>): (r: Best)
    requires |count| == |len| && -1 <= b.node < |len| && forall i :: 0 <= i < |o| ==> 0 <= o[i] < |len|
    ensures -1 <= r.node < |len|
  {
    if o == [] then b else Relax(count, len, RelaxAll(count, len, b, o[..|o| - 1]), o[|o| - 1])
  }

  /** Relaxing over `a` and then over `c` is relaxing over `a + c`. */
  lemma {:induction false} RelaxAllAppend(count: seq<int>, len: seq<int>, b: Best, a: seq<int>, c: seq<int>)
    requires |count| == |len| && -1 <= b.node < |len|
    requires (forall i :: 0 <= i < |a| ==> 0 <= a[i] < |len|) && (forall i :: 0 <= i < |c| ==> 0 <= c[i] < |len|)
    ensures forall i :: 0 <= i < |a + c| ==> 0 <= (a + c)[i] < |len|
    ensures RelaxAll(count, len, b, a + c) == RelaxAll(count, len, RelaxAll(count, len, b, a), c)
    decreases |c|
  {
    if c == [] {
      assert a + c == a;
    } else {
      var c' := c[..|c| - 1];
      assert (a + c)[..|a + c| - 1] == a + c';
      assert (a + c)[|a + c| - 1] == c[|c| - 1];
      RelaxAllAppend(count, len, b, a, c');
    }
  }

  /** One child more in `findRefren`'s loop: relaxing over the subtree of
      the child under `k` after the subtrees under `done` is relaxing over
      the subtrees under `done + [k]`. */
  lemma RelaxChild(ns: seq<Node>, text: seq<char>, depth: seq<int>, size: int, count: seq<int>, len: seq<int>,
                   b: Best, x: int, done: seq<char>, k: char)
    requires Formed(ns, text, depth, size) && 1 <= x < |ns| == |count| == |len| && -1 <= b.node < |len|
    requires (forall j :: 0 <= j < |done| ==> done[j] in ns[x].children) && k in ns[x].children
    ensures ChildOk(ns, text, x, k) && depth[x] < depth[ns[x].children[k]] <= size
    ensures forall j :: 0 <= j < |done + [k]| ==> (done + [k])[j] in ns[x].children
    ensures RelaxAll(count, len, b, OrderOver(ns, text, depth, size, x, done + [k]))
            == RelaxAll(count, len, RelaxAll(count, len, b, OrderOver(ns, text, depth, size, x, done)),
                        PostOrder(ns, text, depth, size, ns[x].children[k]))
  {
    ChildDeeper(ns, text, depth, size, x, k);
    var next := done + [k];
    assert next[..|next| - 1] == done;
    var a := OrderOver(ns, text, depth, size, x, done);
    var p := PostOrder(ns, text, depth, size, ns[x].children[k]);
    assert OrderOver(ns, text, depth, size, x, next) == a + p;
    RelaxAllAppend(count, len, b, a, p);
  }

  /** `r` was taken at position `k` of `o`, and every later node of `o` of
      the same value is strictly longer. */
  ghost predicate TakenLast(count: seq<int>, len: seq<int>, o: seq<int>, r: Best, k: int)
    requires |count| == |len| && 0 <= r.node < |len| && forall i :: 0 <= i < |o| ==> 0 <= o[i] < |len|
  {
    && 0 <= k < |o| && o[k] == r.node
    && forall j :: k < j < |o| && Value(count, len, o[j]) == r.value ==> len[r.node] < len[o[j]]
  }

  /** From no choice, over values that are never negative: the choice is a
      node of `o` of the greatest value; of the nodes of that value it has
      the least length, and every later one of them is strictly longer. */
  lemma {:induction false} RelaxAllBest(count: seq<int>, len: seq<int>, o: seq<int>, r: Best)
    requires |count| == |len| && o != [] && forall i :: 0 <= i < |o| ==> 0 <= o[i] < |len|
    requires forall i :: 0 <= i < |o| ==> Value(count, len, o[i]) >= 0
    requires r == RelaxAll(count, len, Best(-1, -1), o)
    ensures 0 <= r.node < |len| && r.value == Value(count, len, r.node)
    ensures forall i :: 0 <= i < |o| ==> Value(count, len, o[i]) <= r.value
    ensures forall i :: 0 <= i < |o| && Value(count, len, o[i]) == r.value ==> len[r.node] <= len[o[i]]
    ensures exists k :: TakenLast(count, len, o, r, k)
    decreases |o|
  {
    var o' := o[..|o| - 1];
    var z := o[|o| - 1];
    var r' := RelaxAll(count, len, Best(-1, -1), o');
    assert r == Relax(count, len, r', z);
    if o' == [] {
      assert r == Best(Value(count, len, z), z);
      assert TakenLast(count, len, o, r, 0);
    } else {
      RelaxAllBest(count, len, o', r');
      RelaxStep(count, len, o, o', r', r);
    }
  }

  /** One node more: the properties of `RelaxAllBest` carry over from the
      choice `r'` over all but the last node of `o` to `r`. */
  lemma RelaxStep(count: seq<int>, len: seq<int>, o: seq<int>, o': seq<int>, r': Best, r: Best)
    requires |count| == |len| && |o| >= 2 && forall i :: 0 <= i < |o| ==> 0 <= o[i] < |len|
    requires o' == o[..|o| - 1]
    requires Value(count, len, o[|o| - 1]) >= 0
    requires 0 <= r'.node < |len| && r'.value == Value(count, len, r'.node)
    requires forall i :: 0 <= i < |o| - 1 ==> Value(count, len, o[i]) <= r'.value
    requires forall i :: 0 <= i < |o| - 1 && Value(count, len, o[i]) == r'.value ==> len[r'.node] <= len[o[i]]
    requires exists k :: TakenLast(count, len, o', r', k)
    requires r == Relax(count, len, r', o[|o| - 1])
    ensures 0 <= r.node < |len| && r.value == Value(count, len, r.node)
    ensures forall i :: 0 <= i < |o| ==> Value(count, len, o[i]) <= r.value
    ensures forall i :: 0 <= i < |o| && Value(count, len, o[i]) == r.value ==> len[r.node] <= len[o[i]]
    ensures exists k :: TakenLast(count, len, o, r, k)
  {
    var k' :| TakenLast(count, len, o', r', k');
    assert forall i :: 0 <= i < |o'| ==> o[i] == o'[i];
    if r.node == o[|o| - 1] {
      assert TakenLast(count, len, o, r, |o| - 1);
    } else {
      assert r == r';
      assert TakenLast(count, len, o, r, k');
    }
  }

  /** `std::string::substr(pos, n)` for `pos` within the string: at most `n`
      symbols from `pos`. */
  function Substr(s: seq<char>, pos: int, n: int): (r: seq<char>)
    requires 0 <= pos <= |s| && 0 <= n
    ensures |r| <= n && pos + |r| <= |s| && r == s[pos..pos + |r|]
    ensures pos + n <= |s| ==> |r| == n
  {
    if pos + n <= |s| then s[pos..pos + n] else s[pos..]
  }

  /** After `findCounts` from zero on a whole text: each node below the root
      counts the leaves of its subtree and its length is its depth. */
  lemma CountedMeaning(ns: seq<Node>, text: seq<char>, depth: seq<int>, size: int, c: seq<int>, l: seq<int>)
    requires Formed(ns, text, depth, size) && |c| == |ns| && |l| == |ns|
    requires CountedAll(ns, text, depth, size, Pad([], |ns|), Pad([], |ns|), c, l, Root)
    ensures forall z :: 1 <= z < |ns| ==> c[z] == |Leaves(ns, text, depth, size, z)| && l[z] == depth[z]
  {
    forall z | 1 <= z < |ns| ensures c[z] == |Leaves(ns, text, depth, size, z)| && l[z] == depth[z] {
      assert Counted(ns, text, depth, size, Pad([], |ns|), Pad([], |ns|), c, l, Root, z);
      BelowRoot(ns, text, depth, size, z);
      CountIsLeaves(ns, text, depth, size, z);
      assert Pad([], |ns|)[Root] == 0;
    }
  }

  /** Relaxing keeps the choice either empty (-1 with value -1) or a node
      below `parentRoot_`, and never empties it again. */
  lemma {:induction false} RelaxAllKeeps(count: seq<int>, len: seq<int>, b: Best, o: seq<int>)
    requires |count| == |len| && -1 <= b.node < |len| && forall i :: 0 <= i < |o| ==> 1 <= o[i] < |len|
    requires b.node == -1 ==> b.value == -1
    requires b.node == -1 || 1 <= b.node
    ensures var r := RelaxAll(count, len, b, o);
            && (r.node == -1 ==> r.value == -1) && (r.node == -1 || 1 <= r.node)
            && (b.node != -1 ==> r.node != -1)
            && (r.node == -1 ==> forall i :: 0 <= i < |o| ==> Value(count, len, o[i]) < -1)
    decreases |o|
  {
    if o != [] {
      RelaxAllKeeps(count, len, b, o[..|o| - 1]);
      assert forall i :: 0 <= i < |o| - 1 ==> o[..|o| - 1][i] == o[i];
    }
  }

  /** Relaxing over the whole tree, from an empty choice or a node, ends
      with a node: the root comes last, and its value, 0, beats the empty
      choice's -1. */
  lemma RootChooses(ns: seq<Node>, text: seq<char>, depth: seq<int>, size: int, c: seq<int>, l: seq<int>, b: Best)
    requires Formed(ns, text, depth, size) && |c| == |ns| && |l| == |ns| && 1 <= |text| == size
    requires CountedAll(ns, text, depth, size, Pad([], |ns|), Pad([], |ns|), c, l, Root)
    requires (b.node == -1 ==> b.value == -1) && (b.node == -1 || 1 <= b.node < |ns|)
    ensures 1 <= RelaxAll(c, l, b, PostOrder(ns, text, depth, size, Root)).node < |ns|
  {
    var o := PostOrder(ns, text, depth, size, Root);
    RelaxAllKeeps(c, l, b, o);
    StartFits(ns, text, depth, size, c, l, Root);
    assert o[|o| - 1] == Root;
  }

  /** A product of two numbers that are not negative is not negative. */
  lemma ProductNonnegative(a: int, b: int)
    requires 0 <= a && 0 <= b
    ensures 0 <= a * b
  {
  }

  /** On a counted tree, the post-order of the root holds every node below
      `parentRoot_`, and the value of each is its leaf count times its
      depth, never negative. */
  lemma OrderValues(ns: seq<Node>, text: seq<char>, depth: seq<int>, size: int, c: seq<int>, l: seq<int>, o: seq<int>)
    requires Formed(ns, text, depth, size) && |c| == |ns| && |l| == |ns|
    requires CountedAll(ns, text, depth, size, Pad([], |ns|), Pad([], |ns|), c, l, Root)
    requires o == PostOrder(ns, text, depth, size, Root)
    ensures forall z :: 1 <= z < |ns| ==> z in o
    ensures forall z :: 1 <= z < |ns| ==> c[z] == |Leaves(ns, text, depth, size, z)| && l[z] == depth[z]
    ensures o != [] && forall i :: 0 <= i < |o| ==> Value(c, l, o[i]) >= 0
  {
    CountedMeaning(ns, text, depth, size, c, l);
    PostOrderIn(ns, text, depth, size, Root);
    forall z | 1 <= z < |ns|
      ensures z in o
      ensures Value(c, l, z) >= 0
    {
      BelowRoot(ns, text, depth, size, z);
      assert Hung(ns, depth, size, z);
      ProductNonnegative(|Leaves(ns, text, depth, size, z)|, depth[z]);
    }
    forall i | 0 <= i < |o| ensures Value(c, l, o[i]) >= 0 {
      assert 1 <= o[i] < |ns|;
    }
  }

  /** On a counted tree, relaxing from no choice over the post-order of
      the root picks a node of greatest leaf count times depth; of the nodes
      of that value it is a shallowest, and every node of that value
      visited after it is deeper. */
  lemma RefrenIsBest(ns: seq<Node>, text: seq<char>, depth: seq<int>, size: int, c: seq<int>, l: seq<int>, o: seq<int>, r: Best)
    requires Formed(ns, text, depth, size) && |c| == |ns| && |l| == |ns|
    requires CountedAll(ns, text, depth, size, Pad([], |ns|), Pad([], |ns|), c, l, Root)
    requires o == PostOrder(ns, text, depth, size, Root) && r == RelaxAll(c, l, Best(-1, -1), o)
    ensures IsRefren(ns, text, depth, size, o, r)
  {
    OrderValues(ns, text, depth, size, c, l, o);
    ChoiceMeaning(ns, text, depth, size, c, l, o, r);
  }

  /** `r` is the node `getRefren` must find among the nodes visited in the
      order `o`: a node of greatest score, shallowest among those, and
      every node of that score visited after it is deeper. */
  ghost predicate IsRefren(ns: seq<Node>, text: seq<char>, depth: seq<int>, size: int, o: seq<int>, r: Best)
    requires Formed(ns, text, depth, size) && forall i :: 0 <= i < |o| ==> 1 <= o[i] < |ns|
  {
    && 1 <= r.node < |ns| && r.value == Score(ns, text, depth, size, r.node)
    && (forall z :: 1 <= z < |ns| ==> Score(ns, text, depth, size, z) <= r.value)
    && (forall z :: 1 <= z < |ns| && Score(ns, text, depth, size, z) == r.value ==> depth[r.node] <= depth[z])
    && exists k :: 0 <= k < |o| && o[k] == r.node
                   && forall j :: k < j < |o| && Score(ns, text, depth, size, o[j]) == r.value ==> depth[r.node] < depth[o[j]]
  }

  /** What `getValue` computes on a counted tree: the number of leaves
      below a node times its depth. */
  ghost function Score(ns: seq<Node>, text: seq<char>, depth: seq<int>, size: int, z: int): int
    requires Formed(ns, text, depth, size) && 0 <= z < |ns|
  {
    |Leaves(ns, text, depth, size, z)| * depth[z]
  }

  /** Relaxing from no choice over any order that visits every node below
      `parentRoot_`, once counts and lengths are leaf counts and depths. */
  lemma ChoiceMeaning(ns: seq<Node>, text: seq<char>, depth: seq<int>, size: int, c: seq<int>, l: seq<int>, o: seq<int>, r: Best)
    requires Formed(ns, text, depth, size) && |c| == |ns| && |l| == |ns|
    requires forall i :: 0 <= i < |o| ==> 1 <= o[i] < |ns|
    requires forall z :: 1 <= z < |ns| ==> z in o
    requires forall z :: 1 <= z < |ns| ==> c[z] == |Leaves(ns, text, depth, size, z)| && l[z] == depth[z]
    requires o != [] && forall i :: 0 <= i < |o| ==> Value(c, l, o[i]) >= 0
    requires r == RelaxAll(c, l, Best(-1, -1), o)
    ensures IsRefren(ns, text, depth, size, o, r)
  {
    RelaxAllBest(c, l, o, r);
    BestMeaning(ns, text, depth, size, c, l, o, r);
  }

  /** What `RelaxAllBest` says of counts and lengths, read as leaf counts
      and depths. */
  lemma BestMeaning(ns: seq<Node>, text: seq<char>, depth: seq<int>, size: int, c: seq<int>, l: seq<int>, o: seq<int>, r: Best)
    requires Formed(ns, text, depth, size) && |c| == |ns| && |l| == |ns|
    requires forall i :: 0 <= i < |o| ==> 1 <= o[i] < |ns|
    requires forall z :: 1 <= z < |ns| ==> z in o
    requires forall z :: 1 <= z < |ns| ==> c[z] == |Leaves(ns, text, depth, size, z)| && l[z] == depth[z]
    requires 0 <= r.node < |ns| && r.value == Value(c, l, r.node)
    requires forall i :: 0 <= i < |o| ==> Value(c, l, o[i]) <= r.value
    requires forall i :: 0 <= i < |o| && Value(c, l, o[i]) == r.value ==> l[r.node] <= l[o[i]]
    requires exists k :: TakenLast(c, l, o, r, k)
    ensures 1 <= r.node && r.value == Score(ns, text, depth, size, r.node)
    ensures forall z :: 1 <= z < |ns| ==> Score(ns, text, depth, size, z) <= r.value
    ensures forall z :: 1 <= z < |ns| && Score(ns, text, depth, size, z) == r.value ==> depth[r.node] <= depth[z]
    ensures exists k :: 0 <= k < |o| && o[k] == r.node
                        && forall j :: k < j < |o| && Score(ns, text, depth, size, o[j]) == r.value ==> depth[r.node] < depth[o[j]]
  {
    forall z | 1 <= z < |ns|
      ensures Score(ns, text, depth, size, z) <= r.value
      ensures Score(ns, text, depth, size, z) == r.value ==> depth[r.node] <= depth[z]
    {
      assert z in o;
      var i :| 0 <= i < |o| && o[i] == z;
    }
    var k :| TakenLast(c, l, o, r, k);
    forall j | k < j < |o| && Score(ns, text, depth, size, o[j]) == r.value
      ensures depth[r.node] < depth[o[j]]
    {
      assert Value(c, l, o[j]) == r.value;
    }
  }

  /** On a counted tree of a whole text, the text of a node below
      `parentRoot_` is as long as its depth and lies inside the text; a
      leaf's is not empty. */
  lemma StartFits(ns: seq<Node>, text: seq<char>, depth: seq<int>, size: int, c: seq<int>, l: seq<int>, z: int)
    requires Formed(ns, text, depth, size) && |c| == |ns| && |l| == |ns| && 1 <= |text| == size
    requires CountedAll(ns, text, depth, size, Pad([], |ns|), Pad([], |ns|), c, l, Root)
    requires 1 <= z < |ns|
    ensures l[z] == depth[z] && 0 <= ns[z].finish - l[z] <= ns[z].finish <= |text|
    ensures ns[z].finish == size ==> l[z] >= 1
  {
    assert Counted(ns, text, depth, size, Pad([], |ns|), Pad([], |ns|), c, l, Root, z);
    BelowRoot(ns, text, depth, size, z);
    assert Pad([], |ns|)[Root] == 0;
    assert Hung(ns, depth, size, z);
    if z != Root {
      ParentShallower(ns, text, depth, size, z);
      assert Hung(ns, depth, size, ns[z].parent);
    }
  }

  class RefrenFinder {
    /** The tree of the text followed by `$`; the finder only reads it. */
    const tree: SuffixTree
    /** The best value found so far, -1 before any. */
    var refrenValue: int
    /** Its node, -1 (`nullptr`) before any. */
    var refrenNode: int

    /** The tree was built and counted, its text read whole. */
    ghost predicate Ready()
      reads tree
    {
      tree.Shaped() && tree.CountedFromZero() && 1 <= |tree.text| == tree.sizeOfText
    }

    /** The choice is empty or a node below `parentRoot_`. */
    ghost predicate Chosen()
      reads this, tree
    {
      (refrenNode == -1 ==> refrenValue == -1) && (refrenNode == -1 || 1 <= refrenNode < |tree.nodes|)
    }

    /** `RefrenFinder(string_)`: no choice yet, and the tree of
        `string_ + '$'`. */
    constructor (s: seq<char>)
      ensures refrenValue == -1 && refrenNode == -1 && fresh(tree)
      ensures tree.sizeOfText == |s| + 1 && tree.Shaped()
      ensures Chosen()
      ensures tree.Valid() && Ready() && tree.text == s + ['$']
    {
      refrenValue := -1;
      refrenNode := -1;
      tree := new SuffixTree(s + ['$']);
    }

    /** `getRefren`: relax over the whole tree, then cut the chosen node's
        text out of the whole text: it ends where the node's edge ends and
        is as long as the node's length. A leaf's text ends with `$`, which
        is dropped, and its value loses 1. */
    method GetRefren() returns (refrenString: seq<char>, value: int)
      requires Ready() && Chosen()
      modifies this`refrenValue, this`refrenNode
      ensures Chosen() && 1 <= refrenNode < |tree.nodes| && value == refrenValue
      ensures var n := tree.nodes[refrenNode];
              var len := tree.lengthOfSubstring[refrenNode];
              var leaf := n.finish == tree.sizeOfText;
              && Best(if leaf then value + 1 else value, refrenNode)
                 == RelaxAll(tree.count, tree.lengthOfSubstring, Best(old(refrenValue), old(refrenNode)),
                             PostOrder(tree.nodes, tree.text, tree.depth, tree.sizeOfText, Root))
              && 0 <= n.finish - len <= n.finish <= |tree.text| && (leaf ==> len >= 1)
              && refrenString == if leaf then tree.text[n.finish - len..n.finish - 1] else tree.text[n.finish - len..n.finish]
    {
      ghost var b := Best(refrenValue, refrenNode);
      FindRefren(Root);
      RootChooses(tree.nodes, tree.text, tree.depth, tree.sizeOfText, tree.count, tree.lengthOfSubstring, b);
      refrenString, value := CutRefren();
    }

    /** The end of `getRefren`: the text of the chosen node, without the
        final `$` of a leaf, whose value then loses 1. */
    method CutRefren() returns (refrenString: seq<char>, value: int)
      requires Ready() && 1 <= refrenNode < |tree.nodes|
      modifies this`refrenValue
      ensures value == refrenValue
      ensures var n := tree.nodes[refrenNode];
              var len := tree.lengthOfSubstring[refrenNode];
              var leaf := n.finish == tree.sizeOfText;
              && value == (if leaf then old(refrenValue) - 1 else old(refrenValue))
              && 0 <= n.finish - len <= n.finish <= |tree.text| && (leaf ==> len >= 1)
              && refrenString == if leaf then tree.text[n.finish - len..n.finish - 1] else tree.text[n.finish - len..n.finish]
    {
      var n := tree.nodes[refrenNode];
      var len := tree.lengthOfSubstring[refrenNode];
      StartFits(tree.nodes, tree.text, tree.depth, tree.sizeOfText, tree.count, tree.lengthOfSubstring, refrenNode);
      if n.finish == tree.sizeOfText {
        refrenValue := refrenValue - 1;
        refrenString := Substr(tree.text, GetStartIndex(n, len), len - 1);
      } else {
        refrenString := Substr(tree.text, GetStartIndex(n, len), len);
      }
      value := refrenValue;
    }

    /** `findRefren`: the subtrees of the children in the order of the
        child table, then `relaxRefren` on the node itself. */
    method FindRefren(x: int)
      requires Ready() && Chosen() && 1 <= x < |tree.nodes|
      modifies this`refrenValue, this`refrenNode
      ensures Chosen()
      ensures Best(refrenValue, refrenNode)
              == RelaxAll(tree.count, tree.lengthOfSubstring, Best(old(refrenValue), old(refrenNode)),
                          PostOrder(tree.nodes, tree.text, tree.depth, tree.sizeOfText, x))
      decreases tree.sizeOfText - tree.depth[x], 1
    {
      ghost var b0 := Best(refrenValue, refrenNode);
      var keys := AscendingKeys(tree.nodes[x].children);
      FindOver(x, keys);
      ghost var o := OrderOver(tree.nodes, tree.text, tree.depth, tree.sizeOfText, x, keys);
      RelaxRefren(x);
      assert [x][..0] == [];
      RelaxAllAppend(tree.count, tree.lengthOfSubstring, b0, o, [x]);
    }

    /** The loop of `findRefren`: the subtrees of the children under `keys`,
        one after another. */
    method FindOver(x: int, keys: seq<char>)
      requires Ready() && Chosen() && 1 <= x < |tree.nodes|
      requires forall j :: 0 <= j < |keys| ==> keys[j] in tree.nodes[x].children
      modifies this`refrenValue, this`refrenNode
      ensures Chosen()
      ensures Best(refrenValue, refrenNode)
              == RelaxAll(tree.count, tree.lengthOfSubstring, Best(old(refrenValue), old(refrenNode)),
                          OrderOver(tree.nodes, tree.text, tree.depth, tree.sizeOfText, x, keys))
      decreases tree.sizeOfText - tree.depth[x], 0
    {
      ghost var ns, tx, dp, sz, c, l := tree.nodes, tree.text, tree.depth, tree.sizeOfText, tree.count, tree.lengthOfSubstring;
      ghost var b0 := Best(refrenValue, refrenNode);
      var i := 0;
      ghost var done: seq<char> := [];
      while i < |keys|
        invariant 0 <= i <= |keys| && done == keys[..i] && Chosen()
        invariant Best(refrenValue, refrenNode) == RelaxAll(c, l, b0, OrderOver(ns, tx, dp, sz, x, done))
      {
        RelaxChild(ns, tx, dp, sz, c, l, b0, x, done, keys[i]);
        var y := tree.nodes[x].children[keys[i]];
        FindRefren(y);
        TakeOneMore(keys, i);
        done := done + [keys[i]];
        i := i + 1;
      }
      assert done == keys;
    }

    /** `relaxRefren`. */
    method RelaxRefren(x: int)
      requires Ready() && Chosen() && 1 <= x < |tree.nodes|
      modifies this`refrenValue, this`refrenNode
      ensures Chosen()
      ensures Best(refrenValue, refrenNode) == Relax(tree.count, tree.lengthOfSubstring, Best(old(refrenValue), old(refrenNode)), x)
    {
      var value := tree.count[x] * tree.lengthOfSubstring[x];
      if value > refrenValue {
        refrenValue := value;
        refrenNode := x;
      } else if value == refrenValue {
        if refrenNode == -1 || tree.lengthOfSubstring[x] <= tree.lengthOfSubstring[refrenNode] {
          refrenNode := x;
        }
      }
    }
  }
}

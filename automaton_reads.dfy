/** What the read-only operations of D3_suf_automat.cpp compute, as
    functions over the node arena: following transitions (`Find`), spelling
    a node back through its parents (`GetNodeString`) and the suffix-link
    chain that `MarkTerminal` marks. */
module AutomatonReads {
  import opened AutomatonArena

  /** Where reading `s` from node `x` along transitions ends, or -1 when some
      symbol has no transition (`Node::canGo` fails). */
  ghost function Follow(ns: seq<Node>, x: nat, s: seq<char>): (r: int)
    requires Shaped(ns) && x < |ns|
    ensures -1 <= r < |ns|
    decreases |s|
  {
    if s == [] then x
    else if s[0] in ns[x].children then Follow(ns, ns[x].children[s[0]], s[1..])
    else -1
  }

  /** Reading `s + t` is reading `s`, then `t` from where `s` ended. */
  lemma {:induction false} FollowAppend(ns: seq<Node>, x: nat, s: seq<char>, t: seq<char>)
    requires Shaped(ns) && x < |ns|
    ensures Follow(ns, x, s + t) == if Follow(ns, x, s) == -1 then -1 else Follow(ns, Follow(ns, x, s), t)
    decreases |s|
  {
    if s == [] {
      assert s + t == t;
    } else {
      assert (s + t)[0] == s[0] && (s + t)[1..] == s[1..] + t;
      if s[0] in ns[x].children {
        FollowAppend(ns, ns[x].children[s[0]], s[1..], t);
      }
    }
  }

  /** Whatever can be read, each of its prefixes can be read too. */
  lemma FollowPrefix(ns: seq<Node>, x: nat, s: seq<char>, k: nat)
    requires Shaped(ns) && x < |ns| && k <= |s| && Follow(ns, x, s) != -1
    ensures Follow(ns, x, s[..k]) != -1
  {
    FollowAppend(ns, x, s[..k], s[k..]);
    assert s[..k] + s[k..] == s;
  }

  /** `GetNodeString(x)`: the labels met on the way from `x` up the parent
      pointers to the root, nearest first; empty for null. */
  ghost function Labels(ns: seq<Node>, x: int): (r: seq<char>)
    requires Shaped(ns) && -1 <= x < |ns|
    decreases if x >= 0 then ns[x].length else 0
  {
    if x == -1 || ns[x].parent == -1 then []
    else
      assert ParentOk(ns, x);
      [ns[x].ch] + Labels(ns, ns[x].parent)
  }

  /** The string spelled back from a node is as long as the node's `length`. */
  lemma {:induction false} LabelsLength(ns: seq<Node>, x: nat)
    requires Shaped(ns) && x < |ns|
    ensures |Labels(ns, x)| == ns[x].length
    decreases ns[x].length
  {
    if x != 0 {
      assert ParentOk(ns, x);
      LabelsLength(ns, ns[x].parent);
    }
  }

  /** The suffix-link chain from `x`: `x`, its link, the link of that, and
      so on up to the node without a link. */
  ghost function Chain(ns: seq<Node>, lrank: seq<real>, x: int): (r: seq<int>)
    requires Walkable(ns, lrank) && -1 <= x < |ns|
    ensures forall i :: 0 <= i < |r| ==> 0 <= r[i] < |ns|
    decreases Upto(lrank, x)
  {
    if x == -1 then []
    else
      UptoShrinks(ns, lrank, x);
      [x] + Chain(ns, lrank, ns[x].link)
  }

  /** In a linked arena the chain from any node runs through links and ends
      at the root. */
  lemma {:induction false} ChainToRoot(ns: seq<Node>, lrank: seq<real>, x: nat)
    requires Shaped(ns) && Linked(ns) && Walkable(ns, lrank) && x < |ns|
    ensures var r := Chain(ns, lrank, x);
            && r != [] && r[0] == x && r[|r| - 1] == 0
            && forall i :: 0 <= i < |r| - 1 ==> ns[r[i]].link == r[i + 1]
    decreases Upto(lrank, x)
  {
    if x != 0 {
      UptoShrinks(ns, lrank, x);
      ChainToRoot(ns, lrank, ns[x].link);
    }
  }
}

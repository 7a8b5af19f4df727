/** The depth-first traversals of D3_suf_automat.cpp, `FindCounts` and
    `RefrenFinder::FindRefren`: both start at a node, mark it used, enter
    every unused transition target in ascending symbol order, and handle the
    node itself after its children (post-order). */
module AutomatonSearch {
  import opened Edges
  import opened AutomatonArena

  /** The nodes a traversal handled, in the order it handled them, and the
      `used` set afterwards. */
  datatype Trail = Trail(order: seq<int>, used: set<int>)

  /** The symbols of the transitions of `x`, in the order a `std::map` visits them. */
  ghost function Keys(ns: seq<Node>, x: nat): (r: seq<char>)
    requires x < |ns|
    ensures forall i :: 0 <= i < |r| ==> r[i] in ns[x].children
    ensures forall k :: k in ns[x].children ==> k in r
  {
    Ascending(ns[x].children.Keys)
  }

  /** The traversal from `x` with the nodes `used` already entered. */
  ghost function Visit(ns: seq<Node>, trank: seq<int>, top: int, used: set<int>, x: nat): (t: Trail)
    requires Shaped(ns) && EdgesRanked(ns, trank, top) && x < |ns|
    decreases top - trank[x], 1
  {
    var r := VisitAll(ns, trank, top, used + {x}, x, Keys(ns, x));
    Trail(r.order + [x], r.used)
  }

  /** The loop of the traversal at `x` over the transitions `keys`. */
  ghost function VisitAll(ns: seq<Node>, trank: seq<int>, top: int, used: set<int>, x: nat, keys: seq<char>): (t: Trail)
    requires Shaped(ns) && EdgesRanked(ns, trank, top) && x < |ns|
    requires forall i :: 0 <= i < |keys| ==> keys[i] in ns[x].children
    decreases top - trank[x], 0, |keys|
  {
    if keys == [] then Trail([], used)
    else
      var y := ns[x].children[keys[0]];
      var a := if y in used then Trail([], used) else Visit(ns, trank, top, used, y);
      var b := VisitAll(ns, trank, top, a.used, x, keys[1..]);
      Trail(a.order + b.order, b.used)
  }

  /** Every transition target of a handled node was handled before it or
      was already used when the traversal began. */
  ghost predicate PostOrdered(ns: seq<Node>, used: set<int>, order: seq<int>) {
    forall i, d :: 0 <= i < |order| && 0 <= order[i] < |ns| && d in ns[order[i]].children ==>
      ns[order[i]].children[d] in used || ns[order[i]].children[d] in order[..i]
  }

  /** `t` is what a traversal that began with the nodes `used` entered
      leaves behind: it handled each newly entered node exactly once, each
      of them ranks at least `low`, and it handled children first. */
  ghost predicate Explored(ns: seq<Node>, trank: seq<int>, used: set<int>, t: Trail, low: int) {
    && used <= t.used
    && (forall z :: z in t.used ==> z in used || z in t.order)
    && (forall i :: 0 <= i < |t.order| ==>
          0 <= t.order[i] < |ns| && t.order[i] < |trank| && t.order[i] in t.used
          && t.order[i] !in used && trank[t.order[i]] >= low)
    && Distinct(t.order)
    && PostOrdered(ns, used, t.order)
  }

  /** Two traversals one after the other are one traversal. */
  lemma ExploredConcat(ns: seq<Node>, trank: seq<int>, used: set<int>, a: Trail, b: Trail, low: int)
    requires Explored(ns, trank, used, a, low) && Explored(ns, trank, a.used, b, low)
    ensures Explored(ns, trank, used, Trail(a.order + b.order, b.used), low)
  {
    ConcatPlaced(ns, trank, used, a, b, low);
    ConcatDistinct(ns, trank, used, a, b, low);
    ConcatPostOrdered(ns, trank, used, a, b, low);
  }

  lemma ConcatPlaced(ns: seq<Node>, trank: seq<int>, used: set<int>, a: Trail, b: Trail, low: int)
    requires Explored(ns, trank, used, a, low) && Explored(ns, trank, a.used, b, low)
    ensures var o := a.order + b.order;
            forall i :: 0 <= i < |o| ==> 0 <= o[i] < |ns| && o[i] < |trank| && o[i] in b.used && o[i] !in used && trank[o[i]] >= low
  {
    var o := a.order + b.order;
    forall i | 0 <= i < |o| ensures 0 <= o[i] < |ns| && o[i] < |trank| && o[i] in b.used && o[i] !in used && trank[o[i]] >= low {
      if i >= |a.order| { assert o[i] == b.order[i - |a.order|]; }
    }
  }

  lemma ConcatDistinct(ns: seq<Node>, trank: seq<int>, used: set<int>, a: Trail, b: Trail, low: int)
    requires Explored(ns, trank, used, a, low) && Explored(ns, trank, a.used, b, low)
    ensures Distinct(a.order + b.order)
  {
    var o := a.order + b.order;
    forall i, j | 0 <= i < j < |o| ensures o[i] != o[j] {
      if j >= |a.order| {
        assert o[j] == b.order[j - |a.order|];
        if i >= |a.order| { assert o[i] == b.order[i - |a.order|]; }
        else { assert o[i] in a.used; }
      }
    }
  }

  lemma ConcatPostOrdered(ns: seq<Node>, trank: seq<int>, used: set<int>, a: Trail, b: Trail, low: int)
    requires Explored(ns, trank, used, a, low) && Explored(ns, trank, a.used, b, low)
    ensures PostOrdered(ns, used, a.order + b.order)
  {
    var o := a.order + b.order;
    forall i, d | 0 <= i < |o| && 0 <= o[i] < |ns| && d in ns[o[i]].children
      ensures ns[o[i]].children[d] in used || ns[o[i]].children[d] in o[..i]
    {
      var y := ns[o[i]].children[d];
      if i < |a.order| {
        assert o[i] == a.order[i] && o[..i] == a.order[..i];
      } else {
        var j := i - |a.order|;
        assert o[i] == b.order[j] && o[..i] == a.order + b.order[..j];
        if y in a.used && y !in used {
          assert y in a.order;
        }
      }
    }
  }

  /** Handling `x` after a traversal of its children that began with `x`
      used is a traversal from `x`. */
  lemma ExploredSnoc(ns: seq<Node>, trank: seq<int>, top: int, used: set<int>, x: nat, r: Trail)
    requires Shaped(ns) && EdgesRanked(ns, trank, top) && x < |ns| && x !in used
    requires Explored(ns, trank, used + {x}, r, trank[x] + 1)
    requires forall d :: d in ns[x].children ==> ns[x].children[d] in r.used
    ensures Explored(ns, trank, used, Trail(r.order + [x], r.used), trank[x])
  {
    var o := r.order + [x];
    forall i | 0 <= i < |o| ensures 0 <= o[i] < |ns| && o[i] < |trank| && o[i] in r.used && o[i] !in used && trank[o[i]] >= trank[x] {
      if i < |r.order| { assert o[i] == r.order[i]; }
    }
    forall i, j | 0 <= i < j < |o| ensures o[i] != o[j] {
      assert o[i] == r.order[i];
      if j < |r.order| { assert o[j] == r.order[j]; }
    }
    SnocPostOrdered(ns, trank, top, used, x, r);
  }

  /** The children-first part of `ExploredSnoc`. */
  lemma SnocPostOrdered(ns: seq<Node>, trank: seq<int>, top: int, used: set<int>, x: nat, r: Trail)
    requires Shaped(ns) && EdgesRanked(ns, trank, top) && x < |ns| && x !in used
    requires Explored(ns, trank, used + {x}, r, trank[x] + 1)
    requires forall d :: d in ns[x].children ==> ns[x].children[d] in r.used
    ensures PostOrdered(ns, used, r.order + [x])
  {
    var o := r.order + [x];
    forall i, d | 0 <= i < |o| && 0 <= o[i] < |ns| && d in ns[o[i]].children
      ensures ns[o[i]].children[d] in used || ns[o[i]].children[d] in o[..i]
    {
      var y := ns[o[i]].children[d];
      assert trank[o[i]] < trank[y];
      if i < |r.order| {
        assert o[i] == r.order[i] && o[..i] == r.order[..i];
      } else {
        assert o[..i] == r.order;
      }
    }
  }

  /** What `Visit` handles: `x` last, after every node it newly entered,
      each of which ranks at least as high as `x`. */
  lemma {:induction false} VisitExplores(ns: seq<Node>, trank: seq<int>, top: int, used: set<int>, x: nat)
    requires Shaped(ns) && EdgesRanked(ns, trank, top) && x < |ns| && x !in used
    ensures var t := Visit(ns, trank, top, used, x);
            && Explored(ns, trank, used, t, trank[x])
            && t.order != [] && t.order[|t.order| - 1] == x
    decreases top - trank[x], 1
  {
    var keys := Keys(ns, x);
    VisitAllExplores(ns, trank, top, used + {x}, x, keys);
    var r := VisitAll(ns, trank, top, used + {x}, x, keys);
    forall d | d in ns[x].children ensures ns[x].children[d] in r.used {
      var k :| 0 <= k < |keys| && keys[k] == d;
    }
    ExploredSnoc(ns, trank, top, used, x, r);
  }

  /** What the loop of `Visit` at `x` handles: nodes ranking above `x`,
      and afterwards the target of every transition in `keys` is used. */
  lemma {:induction false} VisitAllExplores(ns: seq<Node>, trank: seq<int>, top: int, used: set<int>, x: nat, keys: seq<char>)
    requires Shaped(ns) && EdgesRanked(ns, trank, top) && x < |ns| && x in used
    requires forall i :: 0 <= i < |keys| ==> keys[i] in ns[x].children
    ensures var t := VisitAll(ns, trank, top, used, x, keys);
            && Explored(ns, trank, used, t, trank[x] + 1)
            && forall i :: 0 <= i < |keys| ==> ns[x].children[keys[i]] in t.used
    decreases top - trank[x], 0, |keys|
  {
    if keys != [] {
      var y := ns[x].children[keys[0]];
      var a := if y in used then Trail([], used) else Visit(ns, trank, top, used, y);
      if y !in used {
        VisitExplores(ns, trank, top, used, y);
      }
      assert Explored(ns, trank, used, a, trank[x] + 1) && y in a.used;
      VisitAllExplores(ns, trank, top, a.used, x, keys[1..]);
      var b := VisitAll(ns, trank, top, a.used, x, keys[1..]);
      ExploredConcat(ns, trank, used, a, b, trank[x] + 1);
      CoverCons(ns, x, keys, a.used, b.used);
    }
  }

  /** The targets of `keys[1..]` are in `later`, and that of `keys[0]` in
      `earlier`, which `later` contains. */
  lemma CoverCons(ns: seq<Node>, x: nat, keys: seq<char>, earlier: set<int>, later: set<int>)
    requires x < |ns| && keys != [] && forall i :: 0 <= i < |keys| ==> keys[i] in ns[x].children
    requires ns[x].children[keys[0]] in earlier && earlier <= later
    requires forall i :: 0 <= i < |keys[1..]| ==> ns[x].children[keys[1..][i]] in later
    ensures forall i :: 0 <= i < |keys| ==> ns[x].children[keys[i]] in later
  {
    forall i | 0 < i < |keys| ensures ns[x].children[keys[i]] in later {
      assert keys[i] == keys[1..][i - 1];
    }
  }

  /** The transition targets of `x` through `keys` all index into `c`. */
  ghost predicate Indexes(ns: seq<Node>, c: seq<int>, x: nat, keys: seq<char>)
    requires x < |ns|
  {
    forall i :: 0 <= i < |keys| ==> keys[i] in ns[x].children && 0 <= ns[x].children[keys[i]] < |c|
  }

  /** The sum of the counts `c` of the targets of the transitions `keys` of `x`. */
  ghost function SumKeys(ns: seq<Node>, c: seq<int>, x: nat, keys: seq<char>): int
    requires x < |ns| && Indexes(ns, c, x, keys)
    decreases |keys|
  {
    if keys == [] then 0 else c[ns[x].children[keys[0]]] + SumKeys(ns, c, x, keys[1..])
  }

  /** Adding one more transition adds its target's count. */
  lemma {:induction false} SumKeysSnoc(ns: seq<Node>, c: seq<int>, x: nat, keys: seq<char>, k: char)
    requires x < |ns| && Indexes(ns, c, x, keys) && k in ns[x].children && 0 <= ns[x].children[k] < |c|
    ensures Indexes(ns, c, x, keys + [k])
    ensures SumKeys(ns, c, x, keys + [k]) == SumKeys(ns, c, x, keys) + c[ns[x].children[k]]
    decreases |keys|
  {
    assert forall i :: 0 <= i < |keys| ==> keys[i] == (keys + [k])[i];
    assert (keys + [k])[|keys|] == k;
    if keys != [] {
      assert (keys + [k])[1..] == keys[1..] + [k];
      SumKeysSnoc(ns, c, x, keys[1..], k);
    }
  }

  /** The sum only depends on the counts of the targets. */
  lemma {:induction false} SumKeysFrame(ns: seq<Node>, c1: seq<int>, c2: seq<int>, x: nat, keys: seq<char>)
    requires x < |ns| && Indexes(ns, c1, x, keys) && Indexes(ns, c2, x, keys)
    requires forall i :: 0 <= i < |keys| ==> c1[ns[x].children[keys[i]]] == c2[ns[x].children[keys[i]]]
    ensures SumKeys(ns, c1, x, keys) == SumKeys(ns, c2, x, keys)
    decreases |keys|
  {
    if keys != [] {
      SumKeysFrame(ns, c1, c2, x, keys[1..]);
    }
  }

  /** What handling node `y` does to the counts `c` in `FindCounts`: add the
      counts of all its transition targets, and one more when `y` is terminal. */
  ghost function Settled(ns: seq<Node>, isTerminal: seq<bool>, c: seq<int>, y: nat): (r: seq<int>)
    requires Shaped(ns) && |isTerminal| == |ns| && |c| == |ns| && y < |ns|
    ensures |r| == |c|
  {
    c[y := c[y] + SumKeys(ns, c, y, Keys(ns, y)) + (if isTerminal[y] then 1 else 0)]
  }

  /** The counts after handling the nodes `order`, one after the other. */
  ghost function Settle(ns: seq<Node>, isTerminal: seq<bool>, c: seq<int>, order: seq<int>): (r: seq<int>)
    requires Shaped(ns) && |isTerminal| == |ns| && |c| == |ns|
    requires forall i :: 0 <= i < |order| ==> 0 <= order[i] < |ns|
    ensures |r| == |c|
    decreases |order|
  {
    if order == [] then c
    else Settle(ns, isTerminal, Settled(ns, isTerminal, c, order[0]), order[1..])
  }

  /** Settling `o1` and then `o2` is settling `o1 + o2`. */
  lemma {:induction false} SettleConcat(ns: seq<Node>, isTerminal: seq<bool>, c: seq<int>, o1: seq<int>, o2: seq<int>)
    requires Shaped(ns) && |isTerminal| == |ns| && |c| == |ns|
    requires forall i :: 0 <= i < |o1| ==> 0 <= o1[i] < |ns|
    requires forall i :: 0 <= i < |o2| ==> 0 <= o2[i] < |ns|
    ensures forall i :: 0 <= i < |o1 + o2| ==> 0 <= (o1 + o2)[i] < |ns|
    ensures Settle(ns, isTerminal, c, o1 + o2) == Settle(ns, isTerminal, Settle(ns, isTerminal, c, o1), o2)
    decreases |o1|
  {
    var o := o1 + o2;
    if o1 == [] {
      assert o == o2;
    } else {
      assert o[0] == o1[0] && o[1..] == o1[1..] + o2;
      SettleConcat(ns, isTerminal, Settled(ns, isTerminal, c, o1[0]), o1[1..], o2);
    }
  }

  /** Settling leaves the nodes it does not handle alone. */
  lemma {:induction false} SettleOutside(ns: seq<Node>, isTerminal: seq<bool>, c: seq<int>, order: seq<int>)
    requires Shaped(ns) && |isTerminal| == |ns| && |c| == |ns|
    requires forall i :: 0 <= i < |order| ==> 0 <= order[i] < |ns|
    ensures forall z :: 0 <= z < |c| && z !in order ==> Settle(ns, isTerminal, c, order)[z] == c[z]
    decreases |order|
  {
    if order != [] {
      var c' := Settled(ns, isTerminal, c, order[0]);
      SettleOutside(ns, isTerminal, c', order[1..]);
      forall z | 0 <= z < |c| && z !in order ensures Settle(ns, isTerminal, c, order)[z] == c[z] {
        assert z !in order[1..] && z != order[0];
      }
    }
  }

  /** Counts that differ only at `x` still differ only at `x` after
      settling nodes other than `x` none of which has `x` as a target. */
  lemma {:induction false} SettleAgree(ns: seq<Node>, isTerminal: seq<bool>, c1: seq<int>, c2: seq<int>, order: seq<int>, x: nat)
    requires Shaped(ns) && |isTerminal| == |ns| && |c1| == |ns| && |c2| == |ns|
    requires forall i :: 0 <= i < |order| ==> 0 <= order[i] < |ns| && order[i] != x
    requires forall i, d :: 0 <= i < |order| && d in ns[order[i]].children ==> ns[order[i]].children[d] != x
    requires forall z :: 0 <= z < |ns| && z != x ==> c1[z] == c2[z]
    ensures forall z :: 0 <= z < |ns| && z != x ==> Settle(ns, isTerminal, c1, order)[z] == Settle(ns, isTerminal, c2, order)[z]
    decreases |order|
  {
    if order != [] {
      var y := order[0];
      var keys := Keys(ns, y);
      forall i | 0 <= i < |keys| ensures c1[ns[y].children[keys[i]]] == c2[ns[y].children[keys[i]]] {
        assert ns[y].children[keys[i]] != x;
      }
      SumKeysFrame(ns, c1, c2, y, keys);
      SettleAgree(ns, isTerminal, Settled(ns, isTerminal, c1, y), Settled(ns, isTerminal, c2, y), order[1..], x);
    }
  }

  /** A traversal whose nodes rank at least `low` has nodes ranking at least
      any smaller bound. */
  lemma ExploredLower(ns: seq<Node>, trank: seq<int>, used: set<int>, t: Trail, low: int, low': int)
    requires Explored(ns, trank, used, t, low) && low' <= low
    ensures Explored(ns, trank, used, t, low')
  {
  }

  /** The state of the loop of `FindCounts` at `x` after the transitions
      `done`, with the nodes `order` handled below `x` so far: every other
      node holds its settled count, and `x` holds its initial count plus the
      counts of the targets of `done`. */
  ghost predicate Gathering(ns: seq<Node>, isTerminal: seq<bool>, cnt: seq<int>, x: nat, order: seq<int>, done: seq<char>, c: seq<int>)
    requires Shaped(ns) && |isTerminal| == |ns| && |cnt| == |ns| && x < |ns|
    requires forall i :: 0 <= i < |order| ==> 0 <= order[i] < |ns|
  {
    GatheredOn(ns, cnt, x, Settle(ns, isTerminal, cnt, order), done, c)
  }

  /** `Gathering` against given settled counts `s`. */
  ghost predicate GatheredOn(ns: seq<Node>, cnt: seq<int>, x: nat, s: seq<int>, done: seq<char>, c: seq<int>)
    requires |cnt| == |ns| && |s| == |ns| && x < |ns|
  {
    && |c| == |ns| && Indexes(ns, s, x, done)
    && (forall z :: 0 <= z < |ns| && z != x ==> c[z] == s[z])
    && c[x] == cnt[x] + SumKeys(ns, s, x, done)
  }

  /** A transition whose target was already used: its settled count is added to `x`. */
  lemma GatherSkip(ns: seq<Node>, trank: seq<int>, top: int, isTerminal: seq<bool>, cnt: seq<int>, x: nat,
                   order: seq<int>, done: seq<char>, c: seq<int>, k: char)
    requires Shaped(ns) && EdgesRanked(ns, trank, top) && |isTerminal| == |ns| && |cnt| == |ns| && x < |ns|
    requires forall i :: 0 <= i < |order| ==> 0 <= order[i] < |ns|
    requires Gathering(ns, isTerminal, cnt, x, order, done, c) && k in ns[x].children
    ensures Gathering(ns, isTerminal, cnt, x, order, done + [k], c[x := c[x] + c[ns[x].children[k]]])
  {
    var s := Settle(ns, isTerminal, cnt, order);
    assert trank[x] < trank[ns[x].children[k]];
    SumKeysSnoc(ns, s, x, done, k);
  }

  /** A transition whose target `y` was entered: after the traversal `a`
      from `y` settles its nodes, the settled count of `y` is added to `x`. */
  lemma GatherEnter(ns: seq<Node>, trank: seq<int>, top: int, isTerminal: seq<bool>, cnt: seq<int>, x: nat,
                    order: seq<int>, used: set<int>, done: seq<char>, c: seq<int>, k: char, a: Trail)
    requires Shaped(ns) && EdgesRanked(ns, trank, top) && |isTerminal| == |ns| && |cnt| == |ns| && x < |ns|
    requires forall i :: 0 <= i < |order| ==> 0 <= order[i] < |ns|
    requires x in used && forall i :: 0 <= i < |done| ==> done[i] in ns[x].children && ns[x].children[done[i]] in used
    requires Gathering(ns, isTerminal, cnt, x, order, done, c) && k in ns[x].children
    requires forall i :: 0 <= i < |a.order| ==> 0 <= a.order[i] < |ns| && a.order[i] !in used && trank[a.order[i]] > trank[x]
    ensures forall i :: 0 <= i < |order + a.order| ==> 0 <= (order + a.order)[i] < |ns|
    ensures var c2 := Settle(ns, isTerminal, c, a.order);
            Gathering(ns, isTerminal, cnt, x, order + a.order, done + [k], c2[x := c2[x] + c2[ns[x].children[k]]])
  {
    var s := Settle(ns, isTerminal, cnt, order);
    var s' := Settle(ns, isTerminal, s, a.order);
    var c2 := Settle(ns, isTerminal, c, a.order);
    var y := ns[x].children[k];
    forall i | 0 <= i < |order + a.order| ensures 0 <= (order + a.order)[i] < |ns| {
      if i >= |order| { assert (order + a.order)[i] == a.order[i - |order|]; }
    }
    SettleConcat(ns, isTerminal, cnt, order, a.order);
    EnterFrame(ns, trank, top, isTerminal, x, used, c, a, s);
    EnterSums(ns, isTerminal, x, used, done, a, s, s');
    assert trank[x] < trank[y];
    SumKeysSnoc(ns, s', x, done, k);
    GatheringOf(ns, cnt, x, done + [k], s', c2, c2[x] + c2[y]);
  }

  /** The traversal `a` in `GatherEnter` settles `c` and the settled counts
      `s` alike except at `x`, which it does not touch. */
  lemma EnterFrame(ns: seq<Node>, trank: seq<int>, top: int, isTerminal: seq<bool>, x: nat,
                   used: set<int>, c: seq<int>, a: Trail, s: seq<int>)
    requires Shaped(ns) && EdgesRanked(ns, trank, top) && |isTerminal| == |ns| && x < |ns| && |c| == |ns| && |s| == |ns|
    requires x in used && forall z :: 0 <= z < |ns| && z != x ==> c[z] == s[z]
    requires forall i :: 0 <= i < |a.order| ==> 0 <= a.order[i] < |ns| && a.order[i] !in used && trank[a.order[i]] > trank[x]
    ensures var s', c2 := Settle(ns, isTerminal, s, a.order), Settle(ns, isTerminal, c, a.order);
            && (forall z :: 0 <= z < |ns| && z != x ==> c2[z] == s'[z])
            && c2[x] == c[x] && s'[x] == s[x]
  {
    forall i, d | 0 <= i < |a.order| && d in ns[a.order[i]].children ensures ns[a.order[i]].children[d] != x {
      assert trank[a.order[i]] < trank[ns[a.order[i]].children[d]];
    }
    SettleAgree(ns, isTerminal, c, s, a.order, x);
    assert x !in a.order;
    SettleOutside(ns, isTerminal, c, a.order);
    SettleOutside(ns, isTerminal, s, a.order);
  }

  /** Nor does it touch the targets of `x` entered before. */
  lemma EnterSums(ns: seq<Node>, isTerminal: seq<bool>, x: nat, used: set<int>, done: seq<char>, a: Trail, s: seq<int>, s': seq<int>)
    requires Shaped(ns) && |isTerminal| == |ns| && x < |ns| && |s| == |ns|
    requires forall i :: 0 <= i < |done| ==> done[i] in ns[x].children && ns[x].children[done[i]] in used
    requires forall i :: 0 <= i < |a.order| ==> 0 <= a.order[i] < |ns| && a.order[i] !in used
    requires Indexes(ns, s, x, done) && s' == Settle(ns, isTerminal, s, a.order)
    ensures Indexes(ns, s', x, done) && SumKeys(ns, s, x, done) == SumKeys(ns, s', x, done)
  {
    SettleOutside(ns, isTerminal, s, a.order);
    forall i | 0 <= i < |done| ensures s[ns[x].children[done[i]]] == s'[ns[x].children[done[i]]] {
      assert ns[x].children[done[i]] !in a.order;
    }
    SumKeysFrame(ns, s, s', x, done);
  }

  /** `GatheredOn`, from its parts: counts `c` that agree with the settled
      counts `s` except at `x`, with `v` set at `x`. */
  lemma GatheringOf(ns: seq<Node>, cnt: seq<int>, x: nat, done: seq<char>, s: seq<int>, c: seq<int>, v: int)
    requires |cnt| == |ns| && |s| == |ns| && x < |ns| && |c| == |ns| && Indexes(ns, s, x, done)
    requires forall z :: 0 <= z < |ns| && z != x ==> c[z] == s[z]
    requires v == cnt[x] + SumKeys(ns, s, x, done)
    ensures GatheredOn(ns, cnt, x, s, done, c[x := v])
  {
  }

  /** After the last transition, adding the terminal mark settles `x`. */
  lemma GatherClose(ns: seq<Node>, isTerminal: seq<bool>, cnt: seq<int>, x: nat, order: seq<int>, c: seq<int>)
    requires Shaped(ns) && |isTerminal| == |ns| && |cnt| == |ns| && x < |ns|
    requires forall i :: 0 <= i < |order| ==> 0 <= order[i] < |ns|
    requires x !in order && Gathering(ns, isTerminal, cnt, x, order, Keys(ns, x), c)
    ensures forall i :: 0 <= i < |order + [x]| ==> 0 <= (order + [x])[i] < |ns|
    ensures c[x := c[x] + if isTerminal[x] then 1 else 0] == Settle(ns, isTerminal, cnt, order + [x])
  {
    var s := Settle(ns, isTerminal, cnt, order);
    var v := c[x] + if isTerminal[x] then 1 else 0;
    assert s[x] == cnt[x] by {
      SettleOutside(ns, isTerminal, cnt, order);
    }
    UpdateAgrees(c, s, x, v);
    SettledAt(ns, isTerminal, s, x, v);
    SettleLast(ns, isTerminal, cnt, order, x);
  }

  /** `Settled` at `x`, with the new count of `x` written out. */
  lemma SettledAt(ns: seq<Node>, isTerminal: seq<bool>, s: seq<int>, x: nat, v: int)
    requires Shaped(ns) && |isTerminal| == |ns| && |s| == |ns| && x < |ns|
    requires v == s[x] + SumKeys(ns, s, x, Keys(ns, x)) + (if isTerminal[x] then 1 else 0)
    ensures Settled(ns, isTerminal, s, x) == s[x := v]
  {
  }

  /** Two lists that agree except at `x` agree once `x` is set. */
  lemma UpdateAgrees(c: seq<int>, s: seq<int>, x: int, v: int)
    requires 0 <= x < |c| == |s| && forall z :: 0 <= z < |c| && z != x ==> c[z] == s[z]
    ensures c[x := v] == s[x := v]
  {
    var a, b := c[x := v], s[x := v];
    assert forall z :: 0 <= z < |a| ==> a[z] == b[z];
  }

  /** The invariant of the loop of `FindCounts` at `x` after its first `i`
      transitions: `order` lists the nodes settled below `x` so far,
      `entered` is the `used` set and `counts` the counts. */
  ghost predicate Gather(ns: seq<Node>, trank: seq<int>, top: int, isTerminal: seq<bool>, cnt: seq<int>, used: set<int>, x: nat,
                         i: int, order: seq<int>, entered: set<int>, counts: seq<int>)
    requires Shaped(ns) && EdgesRanked(ns, trank, top) && x < |ns| && |isTerminal| == |ns| && |cnt| == |ns|
  {
    && Traversed(ns, trank, top, used, x, i, order, entered)
    && Gathering(ns, isTerminal, cnt, x, order, Keys(ns, x)[..i], counts)
  }

  /** The traversal part of `Gather`: the first `i` targets were entered,
      `order` and `entered` are what the traversal from `x` has done so
      far, and the rest of it continues from `entered`. */
  ghost predicate Traversed(ns: seq<Node>, trank: seq<int>, top: int, used: set<int>, x: nat,
                            i: int, order: seq<int>, entered: set<int>)
    requires Shaped(ns) && EdgesRanked(ns, trank, top) && x < |ns|
    ensures Traversed(ns, trank, top, used, x, i, order, entered) ==>
              0 <= i <= |Keys(ns, x)| && forall j :: 0 <= j < |order| ==> 0 <= order[j] < |ns|
  {
    var keys := Keys(ns, x);
    && 0 <= i <= |keys|
    && (forall j :: 0 <= j < i ==> ns[x].children[keys[j]] in entered)
    && Explored(ns, trank, used + {x}, Trail(order, entered), trank[x] + 1)
    && (var v := VisitAll(ns, trank, top, entered, x, keys[i..]);
        VisitAll(ns, trank, top, used + {x}, x, keys) == Trail(order + v.order, v.used))
  }

  /** The loop starts with nothing handled. */
  lemma GatherStart(ns: seq<Node>, trank: seq<int>, top: int, isTerminal: seq<bool>, cnt: seq<int>, used: set<int>, x: nat)
    requires Shaped(ns) && EdgesRanked(ns, trank, top) && x < |ns| && |isTerminal| == |ns| && |cnt| == |ns|
    ensures Gather(ns, trank, top, isTerminal, cnt, used, x, 0, [], used + {x}, cnt)
  {
    TraversedStart(ns, trank, top, used, x);
    var keys := Keys(ns, x);
    assert keys[..0] == [];
    assert Settle(ns, isTerminal, cnt, []) == cnt;
    assert GatheredOn(ns, cnt, x, cnt, [], cnt);
  }

  lemma TraversedStart(ns: seq<Node>, trank: seq<int>, top: int, used: set<int>, x: nat)
    requires Shaped(ns) && EdgesRanked(ns, trank, top) && x < |ns|
    ensures Traversed(ns, trank, top, used, x, 0, [], used + {x})
  {
    var keys := Keys(ns, x);
    assert keys[0..] == keys;
    assert [] + VisitAll(ns, trank, top, used + {x}, x, keys).order == VisitAll(ns, trank, top, used + {x}, x, keys).order;
  }

  /** Skipping the used target of `keys[i]` leaves the traversal as it was. */
  lemma VisitAllSkip(ns: seq<Node>, trank: seq<int>, top: int, start: set<int>, x: nat, keys: seq<char>, i: nat,
                     order: seq<int>, entered: set<int>)
    requires Shaped(ns) && EdgesRanked(ns, trank, top) && x < |ns|
    requires keys == Keys(ns, x) && i < |keys| && ns[x].children[keys[i]] in entered
    requires var v := VisitAll(ns, trank, top, entered, x, keys[i..]);
             VisitAll(ns, trank, top, start, x, keys) == Trail(order + v.order, v.used)
    ensures var v := VisitAll(ns, trank, top, entered, x, keys[i + 1..]);
            VisitAll(ns, trank, top, start, x, keys) == Trail(order + v.order, v.used)
  {
    assert keys[i..][0] == keys[i] && keys[i..][1..] == keys[i + 1..];
    var v := VisitAll(ns, trank, top, entered, x, keys[i + 1..]);
    assert VisitAll(ns, trank, top, entered, x, keys[i..]) == Trail([] + v.order, v.used);
    assert [] + v.order == v.order;
  }

  /** Entering the target `y` of `keys[i]` moves its traversal into `order`. */
  lemma VisitAllEnter(ns: seq<Node>, trank: seq<int>, top: int, start: set<int>, x: nat, keys: seq<char>, i: nat,
                      order: seq<int>, entered: set<int>)
    requires Shaped(ns) && EdgesRanked(ns, trank, top) && x < |ns|
    requires keys == Keys(ns, x) && i < |keys| && ns[x].children[keys[i]] !in entered
    requires var v := VisitAll(ns, trank, top, entered, x, keys[i..]);
             VisitAll(ns, trank, top, start, x, keys) == Trail(order + v.order, v.used)
    ensures var a := Visit(ns, trank, top, entered, ns[x].children[keys[i]]);
            var v := VisitAll(ns, trank, top, a.used, x, keys[i + 1..]);
            VisitAll(ns, trank, top, start, x, keys) == Trail((order + a.order) + v.order, v.used)
  {
    assert keys[i..][0] == keys[i] && keys[i..][1..] == keys[i + 1..];
    var a := Visit(ns, trank, top, entered, ns[x].children[keys[i]]);
    var v := VisitAll(ns, trank, top, a.used, x, keys[i + 1..]);
    assert VisitAll(ns, trank, top, entered, x, keys[i..]) == Trail(a.order + v.order, v.used);
    assert order + (a.order + v.order) == (order + a.order) + v.order;
  }

  /** `GatherSkip` on the first `i` keys. */
  lemma GatheringSkip(ns: seq<Node>, trank: seq<int>, top: int, isTerminal: seq<bool>, cnt: seq<int>, x: nat,
                      keys: seq<char>, i: nat, order: seq<int>, counts: seq<int>)
    requires Shaped(ns) && EdgesRanked(ns, trank, top) && |isTerminal| == |ns| && |cnt| == |ns| && x < |ns|
    requires forall j :: 0 <= j < |order| ==> 0 <= order[j] < |ns|
    requires keys == Keys(ns, x) && i < |keys| && Gathering(ns, isTerminal, cnt, x, order, keys[..i], counts)
    ensures |counts| == |ns|
    ensures Gathering(ns, isTerminal, cnt, x, order, keys[..i + 1], counts[x := counts[x] + counts[ns[x].children[keys[i]]]])
  {
    TakeOneMore(keys, i);
    GatherSkip(ns, trank, top, isTerminal, cnt, x, order, keys[..i], counts, keys[i]);
  }

  /** `GatherEnter` on the first `i` keys. */
  lemma GatheringEnter(ns: seq<Node>, trank: seq<int>, top: int, isTerminal: seq<bool>, cnt: seq<int>, x: nat,
                       keys: seq<char>, i: nat, order: seq<int>, used: set<int>, counts: seq<int>, a: Trail)
    requires Shaped(ns) && EdgesRanked(ns, trank, top) && |isTerminal| == |ns| && |cnt| == |ns| && x < |ns|
    requires forall j :: 0 <= j < |order| ==> 0 <= order[j] < |ns|
    requires i < |keys| && forall j :: 0 <= j < |keys| ==> keys[j] in ns[x].children
    requires x in used && forall j :: 0 <= j < i ==> ns[x].children[keys[j]] in used
    requires Gathering(ns, isTerminal, cnt, x, order, keys[..i], counts)
    requires forall j :: 0 <= j < |a.order| ==> 0 <= a.order[j] < |ns| && a.order[j] !in used && trank[a.order[j]] > trank[x]
    ensures forall j :: 0 <= j < |order + a.order| ==> 0 <= (order + a.order)[j] < |ns|
    ensures var c2 := Settle(ns, isTerminal, counts, a.order);
            Gathering(ns, isTerminal, cnt, x, order + a.order, keys[..i + 1], c2[x := c2[x] + c2[ns[x].children[keys[i]]]])
  {
    TakeOneMore(keys, i);
    GatherEnter(ns, trank, top, isTerminal, cnt, x, order, used, keys[..i], counts, keys[i], a);
  }

  /** The traversal from a newly entered target `y` of `x` extends the
      traversal so far, with nodes ranking above `x` that were not used. */
  lemma EnterExplores(ns: seq<Node>, trank: seq<int>, top: int, start: set<int>, x: nat, order: seq<int>, entered: set<int>, y: nat)
    requires Shaped(ns) && EdgesRanked(ns, trank, top) && x < |ns| && y < |ns| && y !in entered && trank[x] < trank[y]
    requires Explored(ns, trank, start, Trail(order, entered), trank[x] + 1)
    ensures var a := Visit(ns, trank, top, entered, y);
            && Explored(ns, trank, start, Trail(order + a.order, a.used), trank[x] + 1)
            && entered <= a.used && y in a.used
            && forall j :: 0 <= j < |a.order| ==> 0 <= a.order[j] < |ns| && a.order[j] !in entered && trank[a.order[j]] > trank[x]
  {
    var a := Visit(ns, trank, top, entered, y);
    VisitExplores(ns, trank, top, entered, y);
    ExploredLower(ns, trank, entered, a, trank[y], trank[x] + 1);
    ExploredConcat(ns, trank, start, Trail(order, entered), a, trank[x] + 1);
  }

  /** One turn of the loop on a transition whose target was already used. */
  lemma GatherSkipStep(ns: seq<Node>, trank: seq<int>, top: int, isTerminal: seq<bool>, cnt: seq<int>, used: set<int>, x: nat,
                       keys: seq<char>, i: nat, y: int, order: seq<int>, entered: set<int>, counts: seq<int>, next: seq<int>)
    requires Shaped(ns) && EdgesRanked(ns, trank, top) && x < |ns| && |isTerminal| == |ns| && |cnt| == |ns|
    requires Gather(ns, trank, top, isTerminal, cnt, used, x, i, order, entered, counts)
    requires keys == Keys(ns, x) && i < |keys| && y == ns[x].children[keys[i]] && y in entered
    requires |counts| == |ns| && next == counts[x := counts[x] + counts[y]]
    ensures Gather(ns, trank, top, isTerminal, cnt, used, x, i + 1, order, entered, next)
  {
    VisitAllSkip(ns, trank, top, used + {x}, x, keys, i, order, entered);
    GatheringSkip(ns, trank, top, isTerminal, cnt, x, keys, i, order, counts);
  }

  /** One turn of the loop on a transition whose target `y` it enters:
      `c2` and `u2` are what `FindCounts(y)` leaves. */
  lemma GatherEnterStep(ns: seq<Node>, trank: seq<int>, top: int, isTerminal: seq<bool>, cnt: seq<int>, used: set<int>, x: nat,
                        keys: seq<char>, i: nat, y: nat, order: seq<int>, entered: set<int>, counts: seq<int>,
                        c2: seq<int>, u2: set<int>, order2: seq<int>, next: seq<int>)
    requires Shaped(ns) && EdgesRanked(ns, trank, top) && x < |ns| && |isTerminal| == |ns| && |cnt| == |ns|
    requires Gather(ns, trank, top, isTerminal, cnt, used, x, i, order, entered, counts)
    requires keys == Keys(ns, x) && i < |keys| && y == ns[x].children[keys[i]] && y !in entered
    requires var t := Visit(ns, trank, top, entered, y);
             && (forall j :: 0 <= j < |t.order| ==> 0 <= t.order[j] < |ns|)
             && c2 == Settle(ns, isTerminal, counts, t.order) && u2 == t.used
             && order2 == order + t.order
    requires |c2| == |ns| && next == c2[x := c2[x] + c2[y]]
    ensures Gather(ns, trank, top, isTerminal, cnt, used, x, i + 1, order2, u2, next)
  {
    TraversedEnter(ns, trank, top, used, x, keys, i, y, order, entered, order2, u2);
    GatheringEnter(ns, trank, top, isTerminal, cnt, x, keys, i, order, entered, counts, Visit(ns, trank, top, entered, y));
  }

  /** The traversal part of `GatherEnterStep`. */
  lemma TraversedEnter(ns: seq<Node>, trank: seq<int>, top: int, used: set<int>, x: nat,
                       keys: seq<char>, i: nat, y: nat, order: seq<int>, entered: set<int>, order2: seq<int>, u2: set<int>)
    requires Shaped(ns) && EdgesRanked(ns, trank, top) && x < |ns|
    requires Traversed(ns, trank, top, used, x, i, order, entered)
    requires keys == Keys(ns, x) && i < |keys| && y == ns[x].children[keys[i]] && y !in entered
    requires var t := Visit(ns, trank, top, entered, y);
             order2 == order + t.order && u2 == t.used
    ensures Traversed(ns, trank, top, used, x, i + 1, order2, u2)
    ensures var t := Visit(ns, trank, top, entered, y);
            forall j :: 0 <= j < |t.order| ==> 0 <= t.order[j] < |ns| && t.order[j] !in entered && trank[t.order[j]] > trank[x]
  {
    assert trank[x] < trank[y];
    EnterExplores(ns, trank, top, used + {x}, x, order, entered, y);
    VisitAllEnter(ns, trank, top, used + {x}, x, keys, i, order, entered);
  }

  /** After the last transition, adding the terminal mark of `x` gives the
      result of `Visit`. */
  lemma GatherEnd(ns: seq<Node>, trank: seq<int>, top: int, isTerminal: seq<bool>, cnt: seq<int>, used: set<int>, x: nat,
                  order: seq<int>, entered: set<int>, counts: seq<int>)
    requires Shaped(ns) && EdgesRanked(ns, trank, top) && x < |ns| && |isTerminal| == |ns| && |cnt| == |ns|
    requires Gather(ns, trank, top, isTerminal, cnt, used, x, |Keys(ns, x)|, order, entered, counts)
    ensures |counts| == |ns|
    ensures var t := Visit(ns, trank, top, used, x);
            && (forall i :: 0 <= i < |t.order| ==> 0 <= t.order[i] < |ns|)
            && counts[x := counts[x] + if isTerminal[x] then 1 else 0] == Settle(ns, isTerminal, cnt, t.order)
            && entered == t.used
  {
    var keys := Keys(ns, x);
    assert keys[..|keys|] == keys && keys[|keys|..] == [];
    assert order + [] == order;
    assert x !in order;
    GatherClose(ns, isTerminal, cnt, x, order, counts);
  }

  /** `FindCounts(node)` on the counts `cnt` with the nodes `used` already
      entered: mark `x` used; for each transition in ascending symbol order,
      enter its target unless it is used, then add the target's count to
      `x`; finally add one when `x` is terminal. The result is the counts
      settled along the post-order of `Visit`, and its `used` set. */
  method GatherCounts(ns: seq<Node>, isTerminal: seq<bool>, cnt: seq<int>, used: set<int>, x: nat,
                      ghost trank: seq<int>, ghost top: int)
    returns (counts: seq<int>, entered: set<int>)
    requires Shaped(ns) && EdgesRanked(ns, trank, top) && x < |ns| && |isTerminal| == |ns| && |cnt| == |ns|
    ensures var t := Visit(ns, trank, top, used, x);
            && (forall i :: 0 <= i < |t.order| ==> 0 <= t.order[i] < |ns|)
            && counts == Settle(ns, isTerminal, cnt, t.order) && entered == t.used
    decreases top - trank[x], 1
  {
    counts, entered := cnt, used + {x};
    var keys := AscendingKeys(ns[x].children);
    ghost var order: seq<int> := [];
    GatherStart(ns, trank, top, isTerminal, cnt, used, x);
    var i := 0;
    while i < |keys|
      invariant i <= |keys| && keys == Keys(ns, x) && |counts| == |ns|
      invariant Gather(ns, trank, top, isTerminal, cnt, used, x, i, order, entered, counts)
    {
      order, entered, counts := GatherChild(ns, isTerminal, cnt, used, x, keys, i, order, entered, counts, trank, top);
      i := i + 1;
    }
    assert i == |Keys(ns, x)|;
    GatherEnd(ns, trank, top, isTerminal, cnt, used, x, order, entered, counts);
    if isTerminal[x] {
      counts := counts[x := counts[x] + 1];
    }
  }

  /** One turn of the loop of `FindCounts` at `x`, on the transition
      under `keys[i]`: enter its target `y` unless it is used, then add the
      count of `y` to `x`. */
  method GatherChild(ns: seq<Node>, isTerminal: seq<bool>, cnt: seq<int>, used: set<int>, x: nat, keys: seq<char>, i: nat,
                     ghost order: seq<int>, entered: set<int>, counts: seq<int>, ghost trank: seq<int>, ghost top: int)
    returns (ghost order2: seq<int>, entered2: set<int>, counts2: seq<int>)
    requires Shaped(ns) && EdgesRanked(ns, trank, top) && x < |ns| && |isTerminal| == |ns| && |cnt| == |ns|
    requires keys == Keys(ns, x) && i < |keys| && |counts| == |ns|
    requires Gather(ns, trank, top, isTerminal, cnt, used, x, i, order, entered, counts)
    ensures |counts2| == |ns| && Gather(ns, trank, top, isTerminal, cnt, used, x, i + 1, order2, entered2, counts2)
    decreases top - trank[x], 0
  {
    var child := ns[x].children[keys[i]];
    if child !in entered {
      assert trank[x] < trank[child];
      var c2, u2 := GatherCounts(ns, isTerminal, counts, entered, child, trank, top);
      order2 := order + Visit(ns, trank, top, entered, child).order;
      counts2 := c2[x := c2[x] + c2[child]];
      entered2 := u2;
      GatherEnterStep(ns, trank, top, isTerminal, cnt, used, x, keys, i, child, order, entered, counts, c2, u2, order2, counts2);
    } else {
      order2, entered2 := order, entered;
      counts2 := counts[x := counts[x] + counts[child]];
      GatherSkipStep(ns, trank, top, isTerminal, cnt, used, x, keys, i, child, order, entered, counts, counts2);
    }
  }

  /** The number of transition paths from `y` that end at a terminal node
      (the empty path counts when `y` itself is terminal). */
  ghost function Occurrences(ns: seq<Node>, trank: seq<int>, top: int, isTerminal: seq<bool>, y: nat): int
    requires Shaped(ns) && EdgesRanked(ns, trank, top) && |isTerminal| == |ns| && y < |ns|
    decreases top - trank[y], 1
  {
    (if isTerminal[y] then 1 else 0) + OccurrencesOver(ns, trank, top, isTerminal, y, Keys(ns, y))
  }

  /** The sum of `Occurrences` over the targets of the transitions `keys` of `y`. */
  ghost function OccurrencesOver(ns: seq<Node>, trank: seq<int>, top: int, isTerminal: seq<bool>, y: nat, keys: seq<char>): int
    requires Shaped(ns) && EdgesRanked(ns, trank, top) && |isTerminal| == |ns| && y < |ns|
    requires forall i :: 0 <= i < |keys| ==> keys[i] in ns[y].children
    decreases top - trank[y], 0, |keys|
  {
    if keys == [] then 0
    else Occurrences(ns, trank, top, isTerminal, ns[y].children[keys[0]])
         + OccurrencesOver(ns, trank, top, isTerminal, y, keys[1..])
  }

  /** Counts that already hold `Occurrences` at the targets sum to `OccurrencesOver`. */
  lemma {:induction false} SumKeysOccurrences(ns: seq<Node>, trank: seq<int>, top: int, isTerminal: seq<bool>, c: seq<int>, y: nat, keys: seq<char>)
    requires Shaped(ns) && EdgesRanked(ns, trank, top) && |isTerminal| == |ns| && |c| == |ns| && y < |ns|
    requires forall i :: 0 <= i < |keys| ==> keys[i] in ns[y].children
    requires forall i :: 0 <= i < |keys| ==> c[ns[y].children[keys[i]]] == Occurrences(ns, trank, top, isTerminal, ns[y].children[keys[i]])
    ensures Indexes(ns, c, y, keys)
    ensures SumKeys(ns, c, y, keys) == OccurrencesOver(ns, trank, top, isTerminal, y, keys)
    decreases |keys|
  {
    if keys != [] {
      SumKeysOccurrences(ns, trank, top, isTerminal, c, y, keys[1..]);
    }
  }

  /** Settling one more node `y`. */
  lemma SettleLast(ns: seq<Node>, isTerminal: seq<bool>, cnt: seq<int>, order: seq<int>, y: nat)
    requires Shaped(ns) && |isTerminal| == |ns| && |cnt| == |ns| && y < |ns|
    requires forall i :: 0 <= i < |order| ==> 0 <= order[i] < |ns|
    ensures forall i :: 0 <= i < |order + [y]| ==> 0 <= (order + [y])[i] < |ns|
    ensures Settle(ns, isTerminal, cnt, order + [y]) == Settled(ns, isTerminal, Settle(ns, isTerminal, cnt, order), y)
  {
    SettleConcat(ns, isTerminal, cnt, order, [y]);
    var p := Settle(ns, isTerminal, cnt, order);
    assert Settle(ns, isTerminal, p, [y]) == Settled(ns, isTerminal, p, y);
  }

  /** Settling `y` from a zero count when its targets hold their
      `Occurrences` gives `y` its `Occurrences`. */
  lemma SettledOccurrences(ns: seq<Node>, trank: seq<int>, top: int, isTerminal: seq<bool>, p: seq<int>, y: nat)
    requires Shaped(ns) && EdgesRanked(ns, trank, top) && |isTerminal| == |ns| && |p| == |ns| && y < |ns| && p[y] == 0
    requires forall d :: d in ns[y].children ==> p[ns[y].children[d]] == Occurrences(ns, trank, top, isTerminal, ns[y].children[d])
    ensures Settled(ns, isTerminal, p, y)[y] == Occurrences(ns, trank, top, isTerminal, y)
  {
    SumKeysOccurrences(ns, trank, top, isTerminal, p, y, Keys(ns, y));
  }

  /** Settling distinct nodes from zero counts, children first, gives every
      settled node its `Occurrences`. */
  lemma {:induction false} SettleOccurrences(ns: seq<Node>, trank: seq<int>, top: int, isTerminal: seq<bool>, cnt: seq<int>, order: seq<int>)
    requires Shaped(ns) && EdgesRanked(ns, trank, top) && |isTerminal| == |ns| && |cnt| == |ns|
    requires forall i :: 0 <= i < |order| ==> 0 <= order[i] < |ns| && cnt[order[i]] == 0
    requires Distinct(order) && PostOrdered(ns, {}, order)
    ensures forall i :: 0 <= i < |order| ==>
              Settle(ns, isTerminal, cnt, order)[order[i]] == Occurrences(ns, trank, top, isTerminal, order[i])
    decreases |order|
  {
    if order != [] {
      var n := |order| - 1;
      var o', y := order[..n], order[n];
      assert order == o' + [y];
      assert Distinct(o') && PostOrdered(ns, {}, o') by {
        assert forall i :: 0 <= i < n ==> o'[..i] == order[..i];
      }
      SettleOccurrences(ns, trank, top, isTerminal, cnt, o');
      assert y !in o';
      forall d | d in ns[y].children ensures ns[y].children[d] in o' {
        assert order[..n] == o';
      }
      SettleOccurrencesStep(ns, trank, top, isTerminal, cnt, o', y);
    }
  }

  /** One node more in `SettleOccurrences`: settling `y` after all its
      children gives it its `Occurrences` and leaves the others alone. */
  lemma SettleOccurrencesStep(ns: seq<Node>, trank: seq<int>, top: int, isTerminal: seq<bool>, cnt: seq<int>, order: seq<int>, y: nat)
    requires Shaped(ns) && EdgesRanked(ns, trank, top) && |isTerminal| == |ns| && |cnt| == |ns| && y < |ns|
    requires forall i :: 0 <= i < |order| ==> 0 <= order[i] < |ns|
    requires cnt[y] == 0 && y !in order && forall d :: d in ns[y].children ==> ns[y].children[d] in order
    requires forall i :: 0 <= i < |order| ==>
               Settle(ns, isTerminal, cnt, order)[order[i]] == Occurrences(ns, trank, top, isTerminal, order[i])
    ensures forall i :: 0 <= i < |order + [y]| ==> 0 <= (order + [y])[i] < |ns|
    ensures forall i :: 0 <= i < |order + [y]| ==>
              Settle(ns, isTerminal, cnt, order + [y])[(order + [y])[i]] == Occurrences(ns, trank, top, isTerminal, (order + [y])[i])
  {
    var p := Settle(ns, isTerminal, cnt, order);
    assert p[y] == 0 by {
      SettleOutside(ns, isTerminal, cnt, order);
    }
    assert forall d :: d in ns[y].children ==> p[ns[y].children[d]] == Occurrences(ns, trank, top, isTerminal, ns[y].children[d]) by {
      forall d | d in ns[y].children
        ensures p[ns[y].children[d]] == Occurrences(ns, trank, top, isTerminal, ns[y].children[d])
      {
        var i :| 0 <= i < |order| && order[i] == ns[y].children[d];
      }
    }
    SettledOccurrences(ns, trank, top, isTerminal, p, y);
    SettleLast(ns, isTerminal, cnt, order, y);
    SettledElsewhere(ns, isTerminal, p, y);
    OccurrencesSnoc(ns, trank, top, isTerminal, order, y, p, Settled(ns, isTerminal, p, y));
  }

  /** Settling `y` changes only the count of `y`. */
  lemma SettledElsewhere(ns: seq<Node>, isTerminal: seq<bool>, c: seq<int>, y: nat)
    requires Shaped(ns) && |isTerminal| == |ns| && |c| == |ns| && y < |ns|
    ensures forall z :: 0 <= z < |ns| && z != y ==> Settled(ns, isTerminal, c, y)[z] == c[z]
  {
  }

  /** Setting `y` in counts that hold the `Occurrences` of `order` to its
      own `Occurrences` gives counts that hold those of `order + [y]`. */
  lemma OccurrencesSnoc(ns: seq<Node>, trank: seq<int>, top: int, isTerminal: seq<bool>, order: seq<int>, y: nat, p: seq<int>, r: seq<int>)
    requires Shaped(ns) && EdgesRanked(ns, trank, top) && |isTerminal| == |ns| && y < |ns| && |p| == |ns|
    requires forall i :: 0 <= i < |order| ==> 0 <= order[i] < |ns|
    requires y !in order && forall i :: 0 <= i < |order| ==> p[order[i]] == Occurrences(ns, trank, top, isTerminal, order[i])
    requires |r| == |ns| && r[y] == Occurrences(ns, trank, top, isTerminal, y) && forall z :: 0 <= z < |ns| && z != y ==> r[z] == p[z]
    ensures forall i :: 0 <= i < |order + [y]| ==> r[(order + [y])[i]] == Occurrences(ns, trank, top, isTerminal, (order + [y])[i])
  {
    forall i | 0 <= i < |order + [y]| ensures r[(order + [y])[i]] == Occurrences(ns, trank, top, isTerminal, (order + [y])[i]) {
      var z := (order + [y])[i];
      if i < |order| {
        assert z == order[i] != y;
      } else {
        assert z == y;
      }
    }
  }

  /** All counts are zero. */
  ghost predicate Zero(c: seq<int>) {
    forall z :: 0 <= z < |c| ==> c[z] == 0
  }

  /** `counts` is what `FindCounts` from `x` leaves when it starts from
      the counts `cnt` with the nodes `used` already entered. */
  ghost predicate Counted(ns: seq<Node>, trank: seq<int>, top: int, isTerminal: seq<bool>, cnt: seq<int>, used: set<int>, x: nat,
                          counts: seq<int>, entered: set<int>)
    requires Shaped(ns) && EdgesRanked(ns, trank, top) && x < |ns| && |isTerminal| == |ns| && |cnt| == |ns|
  {
    var t := Visit(ns, trank, top, used, x);
    && (forall i :: 0 <= i < |t.order| ==> 0 <= t.order[i] < |ns|)
    && counts == Settle(ns, isTerminal, cnt, t.order) && entered == t.used
  }

  /** Every node reachable from `x`, `x` included, holds the number of
      transition paths from it to a terminal node; every other node holds zero. */
  ghost predicate OccurrenceCounts(ns: seq<Node>, trank: seq<int>, top: int, isTerminal: seq<bool>, x: nat, counts: seq<int>)
    requires Shaped(ns) && EdgesRanked(ns, trank, top) && x < |ns| && |isTerminal| == |ns|
  {
    var t := Visit(ns, trank, top, {}, x);
    && |counts| == |ns| && x in t.order
    && (forall z :: z in t.order ==> 0 <= z < |ns| && counts[z] == Occurrences(ns, trank, top, isTerminal, z))
    && (forall z :: 0 <= z < |ns| && z !in t.order ==> counts[z] == 0)
  }

  /** `FindCounts` from `x` over zero counts with nothing used counts the
      transition paths to terminal nodes. */
  lemma FindCountsOccurrences(ns: seq<Node>, trank: seq<int>, top: int, isTerminal: seq<bool>, cnt: seq<int>, used: set<int>, x: nat,
                              counts: seq<int>, entered: set<int>)
    requires Shaped(ns) && EdgesRanked(ns, trank, top) && x < |ns| && |isTerminal| == |ns| && |cnt| == |ns|
    requires Counted(ns, trank, top, isTerminal, cnt, used, x, counts, entered)
    ensures used == {} && Zero(cnt) ==> OccurrenceCounts(ns, trank, top, isTerminal, x, counts)
  {
    if used != {} || !Zero(cnt) {
      return;
    }
    var t := Visit(ns, trank, top, {}, x);
    VisitExplores(ns, trank, top, {}, x);
    assert Explored(ns, trank, {}, t, trank[x]);
    assert counts == Settle(ns, isTerminal, cnt, t.order);
    SettleOccurrences(ns, trank, top, isTerminal, cnt, t.order);
    SettleOutside(ns, isTerminal, cnt, t.order);
    assert x == t.order[|t.order| - 1];
    forall z | z in t.order ensures 0 <= z < |ns| && counts[z] == Occurrences(ns, trank, top, isTerminal, z) {
      var i :| 0 <= i < |t.order| && t.order[i] == z;
    }
    forall z | 0 <= z < |ns| && z !in t.order ensures counts[z] == 0 {
      assert counts[z] == cnt[z];
    }
  }

  /** The best value `length * count` seen so far and the node that has it
      (-1 for none): `refren` and `refrenNode` of `RefrenFinder`. */
  datatype Choice = Choice(value: int, node: int)

  /** The weight `FindRefren` compares: the node's length times its count. */
  function Weight(ns: seq<Node>, cnt: seq<int>, y: nat): int
    requires |cnt| == |ns| && y < |ns|
  {
    ns[y].length * cnt[y]
  }

  /** `FindRefren` handling node `y`: it replaces the choice only when its
      weight is strictly larger. */
  function Consider(ns: seq<Node>, cnt: seq<int>, best: Choice, y: nat): Choice
    requires |cnt| == |ns| && y < |ns|
  {
    if Weight(ns, cnt, y) > best.value then Choice(Weight(ns, cnt, y), y) else best
  }

  /** `FindRefren` handling the nodes `order` one after the other. */
  function Pick(ns: seq<Node>, cnt: seq<int>, best: Choice, order: seq<int>): Choice
    requires |cnt| == |ns| && forall i :: 0 <= i < |order| ==> 0 <= order[i] < |ns|
    decreases |order|
  {
    if order == [] then best else Pick(ns, cnt, Consider(ns, cnt, best, order[0]), order[1..])
  }

  /** Picking over `o1` and then `o2` is picking over `o1 + o2`. */
  lemma {:induction false} PickConcat(ns: seq<Node>, cnt: seq<int>, best: Choice, o1: seq<int>, o2: seq<int>)
    requires |cnt| == |ns|
    requires forall i :: 0 <= i < |o1| ==> 0 <= o1[i] < |ns|
    requires forall i :: 0 <= i < |o2| ==> 0 <= o2[i] < |ns|
    ensures forall i :: 0 <= i < |o1 + o2| ==> 0 <= (o1 + o2)[i] < |ns|
    ensures Pick(ns, cnt, best, o1 + o2) == Pick(ns, cnt, Pick(ns, cnt, best, o1), o2)
    decreases |o1|
  {
    var o := o1 + o2;
    if o1 == [] {
      assert o == o2;
    } else {
      assert o[0] == o1[0] && o[1..] == o1[1..] + o2;
      PickConcat(ns, cnt, Consider(ns, cnt, best, o1[0]), o1[1..], o2);
    }
  }

  /** The pick is the first node of `order` of greatest weight, provided
      that weight beats `best`; otherwise `best` stays. */
  lemma {:induction false} PickFirstMax(ns: seq<Node>, cnt: seq<int>, best: Choice, order: seq<int>)
    requires |cnt| == |ns| && forall i :: 0 <= i < |order| ==> 0 <= order[i] < |ns|
    ensures var r := Pick(ns, cnt, best, order);
            && r.value >= best.value
            && (forall i :: 0 <= i < |order| ==> Weight(ns, cnt, order[i]) <= r.value)
            && (r == best || exists k :: 0 <= k < |order| && r == Choice(Weight(ns, cnt, order[k]), order[k])
                                          && r.value > best.value
                                          && forall j :: 0 <= j < k ==> Weight(ns, cnt, order[j]) < r.value)
    decreases |order|
  {
    if order != [] {
      var b := Consider(ns, cnt, best, order[0]);
      var tail := order[1..];
      PickFirstMax(ns, cnt, b, tail);
      var r := Pick(ns, cnt, b, tail);
      forall i | 0 <= i < |order| ensures Weight(ns, cnt, order[i]) <= r.value {
        if i > 0 { assert order[i] == tail[i - 1]; }
      }
      if r != b {
        var k :| 0 <= k < |tail| && r == Choice(Weight(ns, cnt, tail[k]), tail[k]) && r.value > b.value
                 && forall j :: 0 <= j < k ==> Weight(ns, cnt, tail[j]) < r.value;
        assert order[k + 1] == tail[k];
        forall j | 0 <= j < k + 1 ensures Weight(ns, cnt, order[j]) < r.value {
          if j > 0 { assert order[j] == tail[j - 1]; }
        }
      } else if b != best {
        assert r == Choice(Weight(ns, cnt, order[0]), order[0]);
      }
    }
  }

  /** The search from the root of a fresh finder (no choice yet, nothing
      used) picks the first node, in the order of the traversal, of greatest
      weight among the nodes reachable from the root; that weight is not
      negative, since the root weighs zero. */
  lemma PickFromRoot(ns: seq<Node>, trank: seq<int>, top: int, cnt: seq<int>)
    requires Shaped(ns) && EdgesRanked(ns, trank, top) && |cnt| == |ns|
    ensures var t := Visit(ns, trank, top, {}, 0);
            && (forall i :: 0 <= i < |t.order| ==> 0 <= t.order[i] < |ns|)
            && var r := Pick(ns, cnt, Choice(-1, -1), t.order);
               && 0 <= r.node < |ns| && r.value >= 0 && r.value == Weight(ns, cnt, r.node)
               && (forall z :: z in t.order ==> Weight(ns, cnt, z) <= r.value)
               && exists k :: 0 <= k < |t.order| && t.order[k] == r.node
                              && forall j :: 0 <= j < k ==> Weight(ns, cnt, t.order[j]) < r.value
  {
    var t := Visit(ns, trank, top, {}, 0);
    VisitExplores(ns, trank, top, {}, 0);
    PickFirstMax(ns, cnt, Choice(-1, -1), t.order);
    var r := Pick(ns, cnt, Choice(-1, -1), t.order);
    assert Weight(ns, cnt, t.order[|t.order| - 1]) == 0;
    assert r != Choice(-1, -1);
  }

  /** The invariant of the loop of `FindRefren` at `x` after its first `i`
      transitions: `order` lists the nodes handled below `x` so far,
      `entered` is the `used` set and `choice` the best node so far. */
  ghost predicate Scanning(ns: seq<Node>, trank: seq<int>, top: int, cnt: seq<int>, best: Choice, used: set<int>, x: nat,
                           i: int, order: seq<int>, entered: set<int>, choice: Choice)
    requires Shaped(ns) && EdgesRanked(ns, trank, top) && x < |ns| && |cnt| == |ns|
  {
    var keys := Keys(ns, x);
    && 0 <= i <= |keys|
    && (forall j :: 0 <= j < |order| ==> 0 <= order[j] < |ns|)
    && (var v := VisitAll(ns, trank, top, entered, x, keys[i..]);
        VisitAll(ns, trank, top, used + {x}, x, keys) == Trail(order + v.order, v.used))
    && choice == Pick(ns, cnt, best, order)
  }

  /** The loop starts with nothing handled. */
  lemma ScanStart(ns: seq<Node>, trank: seq<int>, top: int, cnt: seq<int>, best: Choice, used: set<int>, x: nat)
    requires Shaped(ns) && EdgesRanked(ns, trank, top) && x < |ns| && |cnt| == |ns|
    ensures Scanning(ns, trank, top, cnt, best, used, x, 0, [], used + {x}, best)
  {
    var keys := Keys(ns, x);
    assert keys[0..] == keys;
    assert [] + VisitAll(ns, trank, top, used + {x}, x, keys).order == VisitAll(ns, trank, top, used + {x}, x, keys).order;
  }

  /** One turn of the loop on a transition whose target was already used. */
  lemma ScanSkipStep(ns: seq<Node>, trank: seq<int>, top: int, cnt: seq<int>, best: Choice, used: set<int>, x: nat,
                     i: nat, order: seq<int>, entered: set<int>, choice: Choice)
    requires Shaped(ns) && EdgesRanked(ns, trank, top) && x < |ns| && |cnt| == |ns|
    requires Scanning(ns, trank, top, cnt, best, used, x, i, order, entered, choice)
    requires i < |Keys(ns, x)| && ns[x].children[Keys(ns, x)[i]] in entered
    ensures Scanning(ns, trank, top, cnt, best, used, x, i + 1, order, entered, choice)
  {
    VisitAllSkip(ns, trank, top, used + {x}, x, Keys(ns, x), i, order, entered);
  }

  /** One turn of the loop on a transition whose target `y` it enters:
      `c2` and `u2` are what `FindRefren(y)` leaves. */
  lemma ScanEnterStep(ns: seq<Node>, trank: seq<int>, top: int, cnt: seq<int>, best: Choice, used: set<int>, x: nat,
                      i: nat, order: seq<int>, entered: set<int>, choice: Choice, c2: Choice, u2: set<int>)
    requires Shaped(ns) && EdgesRanked(ns, trank, top) && x < |ns| && |cnt| == |ns|
    requires Scanning(ns, trank, top, cnt, best, used, x, i, order, entered, choice)
    requires i < |Keys(ns, x)| && ns[x].children[Keys(ns, x)[i]] !in entered
    requires var t := Visit(ns, trank, top, entered, ns[x].children[Keys(ns, x)[i]]);
             && (forall j :: 0 <= j < |t.order| ==> 0 <= t.order[j] < |ns|)
             && c2 == Pick(ns, cnt, choice, t.order) && u2 == t.used
    ensures var y := ns[x].children[Keys(ns, x)[i]];
            Scanning(ns, trank, top, cnt, best, used, x, i + 1, order + Visit(ns, trank, top, entered, y).order, u2, c2)
  {
    var y := ns[x].children[Keys(ns, x)[i]];
    VisitAllEnter(ns, trank, top, used + {x}, x, Keys(ns, x), i, order, entered);
    PickConcat(ns, cnt, best, order, Visit(ns, trank, top, entered, y).order);
  }

  /** After the last transition, weighing `x` itself gives the result of `Visit`. */
  lemma ScanEnd(ns: seq<Node>, trank: seq<int>, top: int, cnt: seq<int>, best: Choice, used: set<int>, x: nat,
                order: seq<int>, entered: set<int>, choice: Choice)
    requires Shaped(ns) && EdgesRanked(ns, trank, top) && x < |ns| && |cnt| == |ns|
    requires Scanning(ns, trank, top, cnt, best, used, x, |Keys(ns, x)|, order, entered, choice)
    ensures var t := Visit(ns, trank, top, used, x);
            && (forall i :: 0 <= i < |t.order| ==> 0 <= t.order[i] < |ns|)
            && Consider(ns, cnt, choice, x) == Pick(ns, cnt, best, t.order)
            && entered == t.used
  {
    ScanDone(ns, trank, top, cnt, best, used, x, order, entered, choice);
    PickConcat(ns, cnt, best, order, [x]);
    var p := Pick(ns, cnt, best, order);
    assert Pick(ns, cnt, p, [x]) == Consider(ns, cnt, p, x);
  }

  /** Once every transition is handled, the loop of the traversal at `x`
      produced `order` and `entered`. */
  lemma ScanDone(ns: seq<Node>, trank: seq<int>, top: int, cnt: seq<int>, best: Choice, used: set<int>, x: nat,
                 order: seq<int>, entered: set<int>, choice: Choice)
    requires Shaped(ns) && EdgesRanked(ns, trank, top) && x < |ns| && |cnt| == |ns|
    requires Scanning(ns, trank, top, cnt, best, used, x, |Keys(ns, x)|, order, entered, choice)
    ensures VisitAll(ns, trank, top, used + {x}, x, Keys(ns, x)) == Trail(order, entered)
  {
    var keys := Keys(ns, x);
    assert keys[|keys|..] == [];
    assert order + [] == order;
  }

  /** `FindRefren(node)` with the choice `best` so far and the nodes `used`
      already entered: mark `x` used, enter every unused transition target
      in ascending symbol order, then let `x` replace the choice when its
      weight is strictly larger. The result is `Pick` along the post-order
      of `Visit`, and its `used` set. */
  method ScanRefren(ns: seq<Node>, cnt: seq<int>, best: Choice, used: set<int>, x: nat, ghost trank: seq<int>, ghost top: int)
    returns (choice: Choice, entered: set<int>)
    requires Shaped(ns) && EdgesRanked(ns, trank, top) && x < |ns| && |cnt| == |ns|
    ensures var t := Visit(ns, trank, top, used, x);
            && (forall i :: 0 <= i < |t.order| ==> 0 <= t.order[i] < |ns|)
            && choice == Pick(ns, cnt, best, t.order) && entered == t.used
    decreases top - trank[x]
  {
    choice, entered := best, used + {x};
    var keys := AscendingKeys(ns[x].children);
    ghost var order: seq<int> := [];
    ScanStart(ns, trank, top, cnt, best, used, x);
    var i := 0;
    while i < |keys|
      invariant keys == Keys(ns, x)
      invariant Scanning(ns, trank, top, cnt, best, used, x, i, order, entered, choice)
    {
      var child := ns[x].children[keys[i]];
      if child !in entered {
        assert trank[x] < trank[child];
        var c2, u2 := ScanRefren(ns, cnt, choice, entered, child, trank, top);
        ScanEnterStep(ns, trank, top, cnt, best, used, x, i, order, entered, choice, c2, u2);
        order := order + Visit(ns, trank, top, entered, child).order;
        choice, entered := c2, u2;
      } else {
        ScanSkipStep(ns, trank, top, cnt, best, used, x, i, order, entered, choice);
      }
      i := i + 1;
    }
    ScanEnd(ns, trank, top, cnt, best, used, x, order, entered, choice);
    choice := Consider(ns, cnt, choice, x);
  }
}

/** The node arena of the suffix automaton (D3_suf_automat.cpp, struct Node).
    A node pointer becomes an index into a sequence of nodes; the root is
    index 0 and `nullptr` is -1. The sealing fields `isTerminal` and `count`
    live in parallel sequences beside the arena (see SuffixAutomaton). */
module AutomatonArena {
  import opened Edges

  /** One automaton state: suffix link, ordered transitions, length of the
      longest string of the state, and the (parent, ch) pair the state was
      created from, used to spell that string back. */
  datatype Node = Node(link: int, children: map<char, nat>, length: int, parent: int, ch: char)

  /** `Node(length_, parent_, ch_)`: no link, no transitions. */
  function Fresh(length: int, parent: int, ch: char): (r: Node)
    ensures r.link == -1 && r.children == map[]
    ensures r.length == length && r.parent == parent && r.ch == ch
  {
    Node(-1, map[], length, parent, ch)
  }

  /** Structural shape of the arena: root at 0 of length 0 with no parent and
      no link; every other node has length parent.length + 1; transitions
      lead to non-root nodes; links are null or in range. */
  ghost predicate Shaped(ns: seq<Node>) {
    && |ns| >= 1
    && ns[0].link == -1 && ns[0].parent == -1 && ns[0].length == 0
    && (forall x :: 0 < x < |ns| ==> ParentOk(ns, x))
    && (forall x :: 0 <= x < |ns| ==> -1 <= ns[x].link < |ns|)
    && (forall x, d :: 0 <= x < |ns| && d in ns[x].children ==> 0 < ns[x].children[d] < |ns|)
  }

  /** A non-root node is one symbol longer than its parent. */
  ghost predicate ParentOk(ns: seq<Node>, x: int)
    requires 0 <= x < |ns|
  {
    0 <= ns[x].parent < |ns| && ns[x].length >= 1 && ns[x].length == ns[ns[x].parent].length + 1
  }

  /** Every node except the root has a suffix link. */
  ghost predicate Linked(ns: seq<Node>) {
    forall x :: 0 < x < |ns| ==> ns[x].link >= 0
  }

  /** Everything that holds of the arena between two calls of `AddChar`. */
  ghost predicate Sound(ns: seq<Node>, lrank: seq<real>, trank: seq<int>, top: int) {
    Shaped(ns) && LinksRanked(ns, lrank) && EdgesRanked(ns, trank, top) && Linked(ns)
  }

  /** Ghost ranking of the link forest: a link always leads to a lower rank,
      so walking links reaches null. */
  ghost predicate LinksRanked(ns: seq<Node>, lrank: seq<real>) {
    && |lrank| == |ns|
    && forall x :: 0 <= x < |ns| && 0 <= ns[x].link < |ns| ==> lrank[ns[x].link] < lrank[x]
  }

  /** Ghost topological ranking of the transition graph: it is a DAG. */
  ghost predicate EdgesRanked(ns: seq<Node>, trank: seq<int>, top: int) {
    && |trank| == |ns|
    && (forall x :: 0 <= x < |ns| ==> 0 <= trank[x] <= top)
    && (forall x, d :: 0 <= x < |ns| && d in ns[x].children && ns[x].children[d] < |ns| ==>
          trank[x] < trank[ns[x].children[d]])
  }

  /** What a walk along suffix links needs: links in range and ranked. */
  ghost predicate Walkable(ns: seq<Node>, lrank: seq<real>) {
    && LinksRanked(ns, lrank)
    && forall x :: 0 <= x < |ns| ==> -1 <= ns[x].link < |ns|
  }

  /** The nodes whose link rank is at most that of `x`: the termination
      measure of every walk along suffix links. */
  ghost function Upto(lrank: seq<real>, x: int): set<int> {
    if 0 <= x < |lrank| then set j | 0 <= j < |lrank| && lrank[j] <= lrank[x] else {}
  }

  lemma UptoShrinks(ns: seq<Node>, lrank: seq<real>, x: int)
    requires Walkable(ns, lrank) && 0 <= x < |ns|
    ensures Upto(lrank, ns[x].link) < Upto(lrank, x)
  {
    assert x in Upto(lrank, x);
  }

  /** `xs` is the beginning of the suffix-link walk that starts at `start`. */
  ghost predicate LinkPath(ns: seq<Node>, start: int, xs: seq<int>) {
    && (forall i :: 0 <= i < |xs| ==> 0 <= xs[i] < |ns|)
    && (xs != [] ==> xs[0] == start)
    && (forall i, j :: 0 <= i && j == i + 1 && j < |xs| ==> ns[xs[i]].link == xs[j])
  }

  /** Where the walk `xs` from `start` stands after its last step. */
  ghost function After(ns: seq<Node>, start: int, xs: seq<int>): int
    requires forall i :: 0 <= i < |xs| ==> 0 <= xs[i] < |ns|
  {
    if xs == [] then start else ns[xs[|xs| - 1]].link
  }


  /** `r` is `ns` after every node of `xs` got the transition `c -> t`
      (`children[c] = t`); nothing else differs. */
  ghost predicate EdgesSet(ns: seq<Node>, r: seq<Node>, xs: seq<int>, c: char, t: nat) {
    && |r| == |ns|
    && forall x :: 0 <= x < |r| ==>
         r[x] == if x in xs then ns[x].(children := ns[x].children[c := t]) else ns[x]
  }

  /** The arena after `Clone`: the copy is appended and becomes the link of the original. */
  function Cloned(ns: seq<Node>, node: nat, length: int, parent: nat, c: char): (r: seq<Node>)
    requires node < |ns|
    ensures |r| == |ns| + 1
  {
    ns[node := ns[node].(link := |ns|)] + [ns[node].(length := length + 1, parent := parent, ch := c)]
  }

  lemma ClonedShaped(ns: seq<Node>, node: nat, length: int, parent: nat, c: char)
    requires Shaped(ns) && 0 < node < |ns| && parent < |ns| && length == ns[parent].length
    ensures Shaped(Cloned(ns, node, length, parent, c))
  {
    var r := Cloned(ns, node, length, parent, c);
    forall x, d | 0 <= x < |r| && d in r[x].children
      ensures 0 < r[x].children[d] < |r|
    {
      if x == |ns| { assert r[x].children == ns[node].children; }
      else { assert r[x].children == ns[x].children; }
    }
    forall x | 0 < x < |r|
      ensures ParentOk(r, x)
    {
      if x < |ns| { assert ParentOk(ns, x); assert r[x].parent == ns[x].parent && r[x].length == ns[x].length; }
      else if parent > 0 { assert ParentOk(ns, parent); }
    }
  }

  lemma ClonedRanked(ns: seq<Node>, lrank: seq<real>, trank: seq<int>, top: int,
                     node: nat, length: int, parent: nat, c: char, mid: real)
    requires Shaped(ns) && LinksRanked(ns, lrank) && EdgesRanked(ns, trank, top)
    requires 0 < node < |ns| && 0 <= ns[node].link
    requires lrank[ns[node].link] < mid < lrank[node]
    ensures LinksRanked(Cloned(ns, node, length, parent, c), lrank + [mid])
    ensures EdgesRanked(Cloned(ns, node, length, parent, c), trank + [trank[node]], top)
  {
    var r := Cloned(ns, node, length, parent, c);
    var tr := trank + [trank[node]];
    forall x, d | 0 <= x < |r| && d in r[x].children && r[x].children[d] < |r|
      ensures tr[x] < tr[r[x].children[d]]
    {
      if x == |ns| { assert r[x].children == ns[node].children; }
      else { assert r[x].children == ns[x].children; }
    }
  }

  /** Appending a fresh node (no link yet) one symbol longer than `p` keeps the shape. */
  lemma FreshKeeps(ns: seq<Node>, lrank: seq<real>, trank: seq<int>, top: int, p: nat, c: char, r: real)
    requires Shaped(ns) && LinksRanked(ns, lrank) && EdgesRanked(ns, trank, top) && p < |ns|
    ensures Shaped(ns + [Fresh(ns[p].length + 1, p, c)])
    ensures LinksRanked(ns + [Fresh(ns[p].length + 1, p, c)], lrank + [r])
    ensures EdgesRanked(ns + [Fresh(ns[p].length + 1, p, c)], trank + [top + 1], top + 1)
  {
    var m := ns + [Fresh(ns[p].length + 1, p, c)];
    forall x | 0 < x < |m| ensures ParentOk(m, x) {
      if x < |ns| { assert ParentOk(ns, x); }
      else if p > 0 { assert ParentOk(ns, p); }
    }
    forall x, d | 0 <= x < |m| && d in m[x].children
      ensures 0 < m[x].children[d] < |m|
    {
      assert m[x].children == ns[x].children;
    }
    var tr := trank + [top + 1];
    assert 0 <= trank[0] <= top;
    forall x | 0 <= x < |m| ensures 0 <= tr[x] <= top + 1 {
      if x < |ns| { assert tr[x] == trank[x]; }
    }
    forall x, d | 0 <= x < |m| && d in m[x].children && m[x].children[d] < |m|
      ensures tr[x] < tr[m[x].children[d]]
    {
      assert m[x].children == ns[x].children;
    }
  }

  /** A transition of `x` after `EdgesSet` is `c -> t` or an old transition of `x`. */
  lemma EdgesSetChild(ns: seq<Node>, r: seq<Node>, xs: seq<int>, c: char, t: nat, x: int, d: char)
    requires EdgesSet(ns, r, xs, c, t) && 0 <= x < |ns|
    requires d in r[x].children
    ensures (x in xs && d == c && r[x].children[d] == t) ||
            (d in ns[x].children && r[x].children[d] == ns[x].children[d])
  {
  }

  /** Adding the transition `c -> t` to the nodes `xs` keeps the shape. */
  lemma EdgesSetShaped(ns: seq<Node>, r: seq<Node>, lrank: seq<real>, xs: seq<int>, c: char, t: nat)
    requires Shaped(ns) && LinksRanked(ns, lrank)
    requires EdgesSet(ns, r, xs, c, t) && 0 < t < |ns|
    ensures Shaped(r) && LinksRanked(r, lrank)
    ensures forall x :: 0 <= x < |r| ==> r[x].link == ns[x].link
  {
    forall x | 0 < x < |r| ensures ParentOk(r, x) {
      assert ParentOk(ns, x);
      assert r[x].parent == ns[x].parent && r[x].length == ns[x].length;
      assert r[ns[x].parent].length == ns[ns[x].parent].length;
    }
    forall x, d | 0 <= x < |r| && d in r[x].children
      ensures 0 < r[x].children[d] < |r|
    {
      EdgesSetChild(ns, r, xs, c, t, x, d);
    }
    forall x | 0 <= x < |r| ensures r[x].link == ns[x].link {
    }
  }

  /** ... and keeps the DAG ranking when `t` ranks above every node of `xs`. */
  lemma EdgesSetRanked(ns: seq<Node>, r: seq<Node>, trank: seq<int>, top: int, xs: seq<int>, c: char, t: nat)
    requires Shaped(ns) && EdgesRanked(ns, trank, top)
    requires EdgesSet(ns, r, xs, c, t) && 0 < t < |ns|
    requires forall i :: 0 <= i < |xs| ==> 0 <= xs[i] < |ns| && trank[xs[i]] < trank[t]
    ensures EdgesRanked(r, trank, top)
  {
    forall x, d | 0 <= x < |r| && d in r[x].children && r[x].children[d] < |r|
      ensures trank[x] < trank[r[x].children[d]]
    {
      EdgesSetChild(ns, r, xs, c, t, x, d);
      if x in xs {
        var k :| 0 <= k < |xs| && xs[k] == x;
      }
    }
  }

  /** The condition under which a walk goes on past node `x`: for the first
      walk of `AddChar` "no `c`-transition", for the redirect walk "the
      `c`-transition leads to `pc`". */
  ghost predicate GoesOn(ns: seq<Node>, x: int, c: char, redirect: bool, pc: nat)
    requires 0 <= x < |ns|
  {
    if redirect then c in ns[x].children && ns[x].children[c] == pc else c !in ns[x].children
  }

  /** A walk along links from `from` that has passed the nodes `walk`, each
      meeting `GoesOn`, stands at `at`, and has given each passed node
      `c -> t`: `cur` is `start` after the walk. */
  ghost predicate Walked(start: seq<Node>, cur: seq<Node>, from: int, walk: seq<int>,
                         at: int, c: char, t: nat, redirect: bool, pc: nat) {
    && LinkPath(start, from, walk) && Distinct(walk)
    && (forall i :: 0 <= i < |walk| ==> GoesOn(start, walk[i], c, redirect, pc))
    && -1 <= at < |start| && at == After(start, from, walk)
    && EdgesSet(start, cur, walk, c, t)
  }

  /** `Walked`, plus what keeps the walk going: links ranked, and the
      current node ranked below every node passed. */
  ghost predicate Walking(start: seq<Node>, cur: seq<Node>, lrank: seq<real>, from: int, walk: seq<int>,
                          at: int, c: char, t: nat, redirect: bool, pc: nat) {
    && Walkable(start, lrank)
    && Walked(start, cur, from, walk, at, c, t, redirect, pc)
    && (at >= 0 ==> forall i :: 0 <= i < |walk| ==> lrank[at] < lrank[walk[i]])
  }

  /** A link walk from below `n` stays below `n` when no link leads from below `n` to `n` or above. */
  lemma {:induction false} PathBelow(ns: seq<Node>, from: int, xs: seq<int>, n: int)
    requires LinkPath(ns, from, xs) && 0 <= from < n
    requires forall x :: 0 <= x < n && x < |ns| ==> ns[x].link < n
    ensures forall i :: 0 <= i < |xs| ==> xs[i] < n
  {
    if |xs| > 1 {
      var init := xs[..|xs| - 1];
      assert LinkPath(ns, from, init);
      PathBelow(ns, from, init, n);
      assert ns[xs[|xs| - 2]].link == xs[|xs| - 1];
      assert xs[|xs| - 2] == init[|xs| - 2];
    }
  }

  /** The arena with `c -> t` put into the table of node `x`. */
  ghost function PutAt(ns: seq<Node>, x: nat, c: char, t: nat): (r: seq<Node>)
    requires x < |ns|
    ensures |r| == |ns| && r[x].children == ns[x].children[c := t]
    ensures forall y :: 0 <= y < |ns| ==> r[y].link == ns[y].link
    ensures forall y :: 0 <= y < |ns| && y != x ==> r[y] == ns[y]
  {
    ns[x := ns[x].(children := ns[x].children[c := t])]
  }

  lemma PutAtWalkable(ns: seq<Node>, lrank: seq<real>, x: nat, c: char, t: nat)
    requires Walkable(ns, lrank) && x < |ns|
    ensures Walkable(PutAt(ns, x, c, t), lrank)
  {
  }

  /** The outcome of a walk along suffix links: the arena afterwards, where
      the walk stopped (-1 past the root), and the nodes it passed. */
  datatype Walk = Walk(nodes: seq<Node>, stop: int, passed: seq<int>)

  /** A loop of `AddChar`: from `x` along suffix links, as long as the current
      node meets `GoesOn`, give it the transition `c -> t` and move to its link. */
  ghost function WalkFrom(ns: seq<Node>, x: int, c: char, t: nat, redirect: bool, pc: nat, lrank: seq<real>): (w: Walk)
    requires Walkable(ns, lrank) && -1 <= x < |ns|
    ensures |w.nodes| == |ns| && -1 <= w.stop < |ns| && Walkable(w.nodes, lrank)
    decreases Upto(lrank, x)
  {
    if x == -1 || !GoesOn(ns, x, c, redirect, pc) then Walk(ns, x, [])
    else
      UptoShrinks(ns, lrank, x);
      PutAtWalkable(ns, lrank, x, c, t);
      var rest := WalkFrom(PutAt(ns, x, c, t), ns[x].link, c, t, redirect, pc, lrank);
      Walk(rest.nodes, rest.stop, [x] + rest.passed)
  }

  /** What `WalkFrom` does: it follows the suffix links from `x` over the
      nodes meeting `GoesOn`, gives exactly those nodes `c -> t`, never passes
      a node twice, and stops at null or at the first node failing `GoesOn`. */
  lemma {:induction false} WalkFromWalked(ns: seq<Node>, x: int, c: char, t: nat, redirect: bool, pc: nat, lrank: seq<real>)
    requires Walkable(ns, lrank) && -1 <= x < |ns|
    ensures var w := WalkFrom(ns, x, c, t, redirect, pc, lrank);
            && Walking(ns, w.nodes, lrank, x, w.passed, w.stop, c, t, redirect, pc)
            && (w.passed == [] ==> w.stop == x)
            && (w.stop == -1 || !GoesOn(ns, w.stop, c, redirect, pc))
            && (x >= 0 ==> forall i :: 0 <= i < |w.passed| ==> lrank[w.passed[i]] <= lrank[x])
    decreases Upto(lrank, x)
  {
    if x != -1 && GoesOn(ns, x, c, redirect, pc) {
      UptoShrinks(ns, lrank, x);
      PutAtWalkable(ns, lrank, x, c, t);
      var ns' := PutAt(ns, x, c, t);
      WalkFromWalked(ns', ns[x].link, c, t, redirect, pc, lrank);
      var rest := WalkFrom(ns', ns[x].link, c, t, redirect, pc, lrank);
      WalkCons(ns, ns', rest.nodes, lrank, x, rest.passed, rest.stop, c, t, redirect, pc);
    }
  }

  /** The induction step of `WalkFromWalked`: a walk from the link of `x` in
      the arena where `x` already has `c -> t` is, prefixed by `x`, a walk from `x`. */
  lemma WalkCons(ns: seq<Node>, ns': seq<Node>, r: seq<Node>, lrank: seq<real>, x: nat, p: seq<int>, stop: int,
                 c: char, t: nat, redirect: bool, pc: nat)
    requires Walkable(ns, lrank) && x < |ns| && GoesOn(ns, x, c, redirect, pc)
    requires ns' == PutAt(ns, x, c, t)
    requires Walking(ns', r, lrank, ns[x].link, p, stop, c, t, redirect, pc)
    requires p == [] ==> stop == ns[x].link
    requires stop == -1 || !GoesOn(ns', stop, c, redirect, pc)
    requires ns[x].link >= 0 ==> forall i :: 0 <= i < |p| ==> lrank[p[i]] <= lrank[ns[x].link]
    ensures Walking(ns, r, lrank, x, [x] + p, stop, c, t, redirect, pc)
    ensures stop == -1 || !GoesOn(ns, stop, c, redirect, pc)
    ensures forall i :: 0 <= i < |[x] + p| ==> lrank[([x] + p)[i]] <= lrank[x]
  {
    var next := ns[x].link;
    assert next >= 0 ==> lrank[next] < lrank[x];
    ConsRanks(lrank, x, next, p, stop);
    ConsPath(ns, ns', x, p);
    ConsGoesOn(ns, ns', x, p, c, redirect, pc);
    ConsEdges(ns, ns', r, x, p, c, t);
    assert stop >= 0 ==> ns'[stop] == ns[stop];
  }

  lemma ConsRanks(lrank: seq<real>, x: nat, next: int, p: seq<int>, stop: int)
    requires x < |lrank| && (next >= 0 ==> next < |lrank| && lrank[next] < lrank[x])
    requires forall i :: 0 <= i < |p| ==> 0 <= p[i] < |lrank|
    requires next >= 0 ==> forall i :: 0 <= i < |p| ==> lrank[p[i]] <= lrank[next]
    requires p != [] ==> p[0] == next && next >= 0
    requires p == [] ==> stop == next
    requires -1 <= stop < |lrank| && (stop >= 0 ==> forall i :: 0 <= i < |p| ==> lrank[stop] < lrank[p[i]])
    ensures forall i :: 0 <= i < |[x] + p| ==> lrank[([x] + p)[i]] <= lrank[x]
    ensures x !in p && (stop >= 0 ==> stop != x)
    ensures stop >= 0 ==> forall i :: 0 <= i < |[x] + p| ==> lrank[stop] < lrank[([x] + p)[i]]
  {
    var w := [x] + p;
    forall i | 0 <= i < |w| ensures lrank[w[i]] <= lrank[x] {
      if i > 0 { assert w[i] == p[i - 1]; }
    }
    if stop >= 0 {
      assert lrank[stop] < lrank[x] by {
        if p != [] { assert lrank[stop] < lrank[p[0]]; }
      }
      forall i | 0 <= i < |w| ensures lrank[stop] < lrank[w[i]] {
        if i > 0 { assert w[i] == p[i - 1]; }
      }
    }
  }

  lemma ConsPath(ns: seq<Node>, ns': seq<Node>, x: nat, p: seq<int>)
    requires x < |ns| && |ns'| == |ns| && forall y :: 0 <= y < |ns| ==> ns'[y].link == ns[y].link
    requires LinkPath(ns', ns[x].link, p) && Distinct(p) && x !in p
    ensures LinkPath(ns, x, [x] + p) && Distinct([x] + p)
    ensures After(ns, x, [x] + p) == After(ns', ns[x].link, p)
  {
    var w := [x] + p;
    forall i, j | 0 <= i && j == i + 1 && j < |w| ensures ns[w[i]].link == w[j] {
      if i > 0 { assert w[i] == p[i - 1] && w[j] == p[j - 1]; }
    }
    forall i, j | 0 <= i < j < |w| ensures w[i] != w[j] {
      if i > 0 { assert w[i] == p[i - 1] && w[j] == p[j - 1]; }
    }
    if p != [] {
      assert w[|w| - 1] == p[|p| - 1];
    }
  }

  lemma ConsGoesOn(ns: seq<Node>, ns': seq<Node>, x: nat, p: seq<int>, c: char, redirect: bool, pc: nat)
    requires x < |ns| && |ns'| == |ns| && forall y :: 0 <= y < |ns| && y != x ==> ns'[y] == ns[y]
    requires GoesOn(ns, x, c, redirect, pc) && x !in p
    requires forall i :: 0 <= i < |p| ==> 0 <= p[i] < |ns| && GoesOn(ns', p[i], c, redirect, pc)
    ensures forall i :: 0 <= i < |[x] + p| ==> GoesOn(ns, ([x] + p)[i], c, redirect, pc)
  {
    var w := [x] + p;
    forall i | 0 <= i < |w| ensures GoesOn(ns, w[i], c, redirect, pc) {
      if i > 0 { assert w[i] == p[i - 1] && ns'[p[i - 1]] == ns[p[i - 1]]; }
    }
  }

  lemma ConsEdges(ns: seq<Node>, ns': seq<Node>, r: seq<Node>, x: nat, p: seq<int>, c: char, t: nat)
    requires x < |ns| && ns' == PutAt(ns, x, c, t)
    requires EdgesSet(ns', r, p, c, t) && x !in p
    ensures EdgesSet(ns, r, [x] + p, c, t)
  {
    assert forall y :: y in [x] + p <==> y == x || y in p;
  }

  /** The arena with `Node(ns[last].length + 1, last, c)` appended: the new
      node of `AddChar`. */
  function Grown(ns: seq<Node>, last: nat, c: char): (r: seq<Node>)
    requires last < |ns|
    ensures |r| == |ns| + 1 && r[..|ns|] == ns
    ensures r[|ns|] == Fresh(ns[last].length + 1, last, c)
  {
    ns + [Fresh(ns[last].length + 1, last, c)]
  }

  /** Every node other than the root and `x` has a suffix link. */
  ghost predicate LinkedBut(ns: seq<Node>, x: int) {
    forall z :: 0 < z < |ns| && z != x ==> ns[z].link >= 0
  }

  /** The first walk of `AddChar` starts at the old `last`, which has no
      transitions, so it passes at least that node; it never reaches the new
      node, and it stops at an old node or past the root. */
  lemma FirstWalkBelow(ns: seq<Node>, last: nat, c: char, g: seq<Node>, walk: seq<int>, q: int)
    requires Shaped(ns) && last < |ns| && ns[last].children == map[] && g == Grown(ns, last, c)
    requires LinkPath(g, last, walk) && -1 <= q < |g| && q == After(g, last, walk)
    requires walk == [] ==> q == last
    requires q == -1 || c in g[q].children
    ensures walk != [] && q < |ns|
    ensures forall i :: 0 <= i < |walk| ==> 0 <= walk[i] < |ns|
  {
    var n := |ns|;
    assert g[last] == ns[last];
    forall x | 0 <= x < n ensures g[x].link < n { assert g[x] == ns[x]; }
    PathBelow(g, last, walk, n);
    var k := |walk| - 1;
    assert g[walk[k]] == ns[walk[k]];
  }

  /** The first walk of `AddChar` keeps the arena's shape and rankings; it
      changes no link, so only the new node lacks one and nobody links to it. */
  lemma FirstWalkShape(ns: seq<Node>, lrank: seq<real>, trank: seq<int>, top: int, last: nat, c: char,
                       r: real, walked: seq<Node>, walk: seq<int>)
    requires Shaped(ns) && LinksRanked(ns, lrank) && EdgesRanked(ns, trank, top) && Linked(ns) && last < |ns|
    requires EdgesSet(Grown(ns, last, c), walked, walk, c, |ns|)
    requires forall i :: 0 <= i < |walk| ==> 0 <= walk[i] < |ns|
    ensures Shaped(walked) && LinksRanked(walked, lrank + [r]) && EdgesRanked(walked, trank + [top + 1], top + 1)
    ensures LinkedBut(walked, |ns|) && walked[|ns|] == Grown(ns, last, c)[|ns|]
    ensures forall z :: 0 <= z < |walked| ==> walked[z].link != |ns|
  {
    var n := |ns|;
    var g := Grown(ns, last, c);
    var tr := trank + [top + 1];
    FreshKeeps(ns, lrank, trank, top, last, c, r);
    forall i | 0 <= i < |walk| ensures 0 <= walk[i] < |g| && tr[walk[i]] < tr[n] {
      assert tr[walk[i]] == trank[walk[i]];
    }
    EdgesSetShaped(g, walked, lrank + [r], walk, c, n);
    EdgesSetRanked(g, walked, tr, top + 1, walk, c, n);
    assert n !in walk;
    forall z | 0 <= z < |walked| ensures walked[z].link != n && (0 < z && z != n ==> walked[z].link >= 0) {
      if z < n { assert g[z] == ns[z]; }
    }
  }

  /** Where the first walk of `AddChar` stops, at `q`, the `c`-transition
      leads to an old non-root node that has a link. */
  lemma FirstWalkStop(ns: seq<Node>, last: nat, c: char, walked: seq<Node>, walk: seq<int>, q: nat)
    requires Shaped(ns) && Linked(ns) && last < |ns| && q < |ns|
    requires EdgesSet(Grown(ns, last, c), walked, walk, c, |ns|)
    requires q !in walk && c in ns[q].children
    ensures walked[q] == ns[q] && c in walked[q].children
    ensures 0 < walked[q].children[c] < |ns|
    ensures walked[walked[q].children[c]].link >= 0
  {
    var g := Grown(ns, last, c);
    assert walked[q] == g[q] == ns[q];
    var pc := walked[q].children[c];
    assert walked[pc].link == g[pc].link == ns[pc].link;
  }

  /** Giving a node that nobody links to the link `y`, and a link rank just
      above that of `y`, keeps the arena's shape and rankings. */
  lemma LinkFresh(ns: seq<Node>, lrank: seq<real>, trank: seq<int>, top: int, x: nat, y: nat)
    requires Shaped(ns) && LinksRanked(ns, lrank) && EdgesRanked(ns, trank, top) && LinkedBut(ns, x)
    requires 0 < x < |ns| && y < |ns| && x != y
    requires forall z :: 0 <= z < |ns| ==> ns[z].link != x
    ensures Shaped(ns[x := ns[x].(link := y)]) && Linked(ns[x := ns[x].(link := y)])
    ensures LinksRanked(ns[x := ns[x].(link := y)], lrank[x := lrank[y] + 1.0])
    ensures EdgesRanked(ns[x := ns[x].(link := y)], trank, top)
  {
    var m := ns[x := ns[x].(link := y)];
    forall z | 0 < z < |m| ensures ParentOk(m, z) {
      assert ParentOk(ns, z);
      assert m[ns[z].parent].length == ns[ns[z].parent].length;
    }
    forall z, d | 0 <= z < |m| && d in m[z].children
      ensures 0 < m[z].children[d] < |m|
    {
      assert m[z].children == ns[z].children;
    }
    forall z, d | 0 <= z < |m| && d in m[z].children && m[z].children[d] < |m|
      ensures trank[z] < trank[m[z].children[d]]
    {
      assert m[z].children == ns[z].children;
    }
  }

  /** The arena after `Clone` still has links everywhere except the new node of
      `AddChar`, and nobody links to that node. */
  lemma ClonedLinked(ns: seq<Node>, node: nat, length: int, parent: nat, c: char, n: nat)
    requires 0 < node < |ns| && ns[node].link >= 0 && LinkedBut(ns, n) && node != n
    requires forall z :: 0 <= z < |ns| ==> ns[z].link != n
    requires n < |ns|
    ensures LinkedBut(Cloned(ns, node, length, parent, c), n)
    ensures forall z :: 0 <= z < |ns| + 1 ==> Cloned(ns, node, length, parent, c)[z].link != n
  {
  }

  /** The redirect walk of `AddChar` keeps the arena's shape; it passes at
      least `q`; and it leaves alone the new node `n`, which has no transitions. */
  lemma RedirectDone(split: seq<Node>, nodes: seq<Node>, lrank: seq<real>, trank: seq<int>, top: int,
                     q: int, redirected: seq<int>, stop: int, c: char, pc: nat, n: nat)
    requires Shaped(split) && LinksRanked(split, lrank) && EdgesRanked(split, trank, top) && Linked(split)
    requires n + 1 < |split| && split[n].children == map[] && pc < |split| && trank[n + 1] == trank[pc]
    requires 0 <= q < |split| && c in split[q].children && split[q].children[c] == pc
    requires Walking(split, nodes, lrank, q, redirected, stop, c, n + 1, true, pc)
    requires redirected == [] ==> stop == q
    requires stop == -1 || !GoesOn(split, stop, c, true, pc)
    ensures redirected != []
    ensures Shaped(nodes) && LinksRanked(nodes, lrank) && EdgesRanked(nodes, trank, top) && Linked(nodes)
    ensures nodes[n] == split[n]
  {
    EdgesSetShaped(split, nodes, lrank, redirected, c, n + 1);
    forall i | 0 <= i < |redirected| ensures 0 <= redirected[i] < |split| && trank[redirected[i]] < trank[n + 1] {
      var x := redirected[i];
      assert GoesOn(split, x, c, true, pc);
    }
    EdgesSetRanked(split, nodes, trank, top, redirected, c, n + 1);
    assert !GoesOn(split, n, c, true, pc);
    assert n !in redirected;
  }


  /** What the first walk of `AddChar` leaves behind: the arena with the new
      node keeps its shape and rankings, only the new node lacks a link, the
      walk passed at least the old `last`, and where it stopped at an old node
      `q`, the `c`-target of `q` is an old non-root node with a link. */
  lemma FirstStage(ns: seq<Node>, lrank: seq<real>, trank: seq<int>, top: int, last: nat, c: char, w: Walk)
    requires Shaped(ns) && LinksRanked(ns, lrank) && EdgesRanked(ns, trank, top) && Linked(ns)
    requires last < |ns| && ns[last].children == map[]
    requires Walkable(Grown(ns, last, c), lrank + [0.0])
    requires w == WalkFrom(Grown(ns, last, c), last, c, |ns|, false, 0, lrank + [0.0])
    ensures var n := |ns|;
            && Shaped(w.nodes) && LinksRanked(w.nodes, lrank + [0.0]) && EdgesRanked(w.nodes, trank + [top + 1], top + 1)
            && LinkedBut(w.nodes, n) && w.nodes[n] == Fresh(ns[last].length + 1, last, c)
            && (forall z :: 0 <= z < |w.nodes| ==> w.nodes[z].link != n)
            && w.passed != [] && -1 <= w.stop < n
            && (w.stop >= 0 ==>
                  && w.nodes[w.stop] == ns[w.stop] && c in ns[w.stop].children
                  && 0 < ns[w.stop].children[c] < n && w.nodes[ns[w.stop].children[c]].link >= 0)
  {
    var n := |ns|;
    var g := Grown(ns, last, c);
    FreshKeeps(ns, lrank, trank, top, last, c, 0.0);
    WalkFromWalked(g, last, c, n, false, 0, lrank + [0.0]);
    FirstWalkBelow(ns, last, c, g, w.passed, w.stop);
    FirstWalkShape(ns, lrank, trank, top, last, c, 0.0, w.nodes, w.passed);
    if w.stop >= 0 {
      assert w.stop !in w.passed && g[w.stop] == ns[w.stop];
      FirstWalkStop(ns, last, c, w.nodes, w.passed, w.stop);
    }
  }

  /** The arena after `Clone(last->children[c], last->length, last, c)` at
      the stopping node `q` of the first walk, with the new node `n` linked
      to the clone. */
  function Split(w: seq<Node>, q: nat, c: char, n: nat): (r: seq<Node>)
    requires q < |w| && c in w[q].children && w[q].children[c] < |w| && n < |w|
    ensures |r| == |w| + 1
  {
    var pc := w[q].children[c];
    Cloned(w, pc, w[q].length, q, c)[n := Cloned(w, pc, w[q].length, q, c)[n].(link := |w|)]
  }

  /** The link ranks after `Split`: the clone sits midway between the cloned
      node and its old link, the new node just above the clone. */
  ghost function SplitLinkRanks(w: seq<Node>, lrank: seq<real>, q: nat, c: char, n: nat): (r: seq<real>)
    requires q < |w| && c in w[q].children && w[q].children[c] < |w| && w[w[q].children[c]].link >= 0
    requires |lrank| == |w| && n < |w| && w[w[q].children[c]].link < |w|
    ensures |r| == |w| + 1
  {
    var pc := w[q].children[c];
    var lrc := lrank + [(lrank[pc] + lrank[w[pc].link]) / 2.0];
    lrc[n := lrc[|w|] + 1.0]
  }

  /** The transition ranks after `Split`: the clone ranks with the cloned node. */
  ghost function SplitEdgeRanks(w: seq<Node>, trank: seq<int>, q: nat, c: char): (r: seq<int>)
    requires q < |w| && c in w[q].children && w[q].children[c] < |trank|
    ensures |r| == |trank| + 1
  {
    trank + [trank[w[q].children[c]]]
  }

  /** `Split` keeps the arena's shape and rankings, and leaves every node linked. */
  lemma SplitStage(w: seq<Node>, lrank: seq<real>, trank: seq<int>, top: int, q: nat, c: char, n: nat)
    requires Shaped(w) && LinksRanked(w, lrank) && EdgesRanked(w, trank, top) && LinkedBut(w, n)
    requires forall z :: 0 <= z < |w| ==> w[z].link != n
    requires 0 < n < |w| && w[n].children == map[] && w[n].link == -1 && q < |w| && q != n && c in w[q].children
    requires w[w[q].children[c]].link >= 0
    ensures Shaped(Split(w, q, c, n)) && Linked(Split(w, q, c, n))
    ensures LinksRanked(Split(w, q, c, n), SplitLinkRanks(w, lrank, q, c, n))
    ensures EdgesRanked(Split(w, q, c, n), SplitEdgeRanks(w, trank, q, c), top)
    ensures Split(w, q, c, n)[n].children == map[]
    ensures GoesOn(Split(w, q, c, n), q, c, true, w[q].children[c])
    ensures SplitEdgeRanks(w, trank, q, c)[|w|] == SplitEdgeRanks(w, trank, q, c)[w[q].children[c]]
  {
    var pc := w[q].children[c];
    var mid := (lrank[pc] + lrank[w[pc].link]) / 2.0;
    assert pc != n by { assert w[pc].link >= 0; }
    ClonedShaped(w, pc, w[q].length, q, c);
    ClonedRanked(w, lrank, trank, top, pc, w[q].length, q, c, mid);
    ClonedLinked(w, pc, w[q].length, q, c, n);
    var cl := Cloned(w, pc, w[q].length, q, c);
    LinkFresh(cl, lrank + [mid], trank + [trank[pc]], top, n, |w|);
    assert q != pc && cl[q] == w[q];
  }

  /** The arena after `AddChar`, with the walks that produced it and the proof-only rankings. */
  datatype Extension = Extension(nodes: seq<Node>, lrank: seq<real>, trank: seq<int>,
                                 first: Walk, split: seq<Node>, second: Walk, pc: int)

  /** The end of `AddChar` when the first walk ran past the root: the new
      node `n` links to the root. */
  ghost function RootCase(w: seq<Node>, lrank: seq<real>, trank: seq<int>, top: int, first: Walk, n: nat): (e: Extension)
    requires Shaped(w) && LinksRanked(w, lrank) && EdgesRanked(w, trank, top) && LinkedBut(w, n)
    requires 0 < n < |w| && forall z :: 0 <= z < |w| ==> w[z].link != n
    ensures Shaped(e.nodes) && LinksRanked(e.nodes, e.lrank) && EdgesRanked(e.nodes, e.trank, top) && Linked(e.nodes)
    ensures e.nodes == w[n := w[n].(link := 0)] && e.first == first && e.split == w
  {
    LinkFresh(w, lrank, trank, top, n, 0);
    var done := w[n := w[n].(link := 0)];
    Extension(done, lrank[n := lrank[0] + 1.0], trank, first, w, Walk(done, -1, []), -1)
  }

  /** The redirect walk of `AddChar`, from `q` over the nodes whose
      `c`-transition leads to `pc`, keeps the arena's shape and rankings and
      leaves the new node `n` as it was. */
  lemma SecondStage(split: seq<Node>, lrank: seq<real>, trank: seq<int>, top: int, q: nat, c: char, pc: nat, n: nat)
    requires Shaped(split) && LinksRanked(split, lrank) && EdgesRanked(split, trank, top) && Linked(split)
    requires n + 1 < |split| && split[n].children == map[] && pc < |split| && trank[n + 1] == trank[pc]
    requires q < |split| && GoesOn(split, q, c, true, pc)
    ensures var r := WalkFrom(split, q, c, n + 1, true, pc, lrank).nodes;
            && Shaped(r) && LinksRanked(r, lrank) && EdgesRanked(r, trank, top) && Linked(r) && r[n] == split[n]
  {
    var second := WalkFrom(split, q, c, n + 1, true, pc, lrank);
    WalkFromWalked(split, q, c, n + 1, true, pc, lrank);
    RedirectDone(split, second.nodes, lrank, trank, top, q, second.passed, second.stop, c, pc, n);
  }

  /** The end of `AddChar` when the first walk stopped at `q`: split off the
      clone of `q`'s `c`-target `pc`, then redirect `c -> pc` to the clone
      along the links from `q`. */
  ghost function CloneCase(w: seq<Node>, lrank: seq<real>, trank: seq<int>, top: int, first: Walk,
                           q: nat, c: char, n: nat): (e: Extension)
    requires Shaped(w) && LinksRanked(w, lrank) && EdgesRanked(w, trank, top) && LinkedBut(w, n)
    requires forall z :: 0 <= z < |w| ==> w[z].link != n
    requires 0 < n && n + 1 == |w| && w[n].children == map[] && w[n].link == -1 && q < n && c in w[q].children
    requires w[w[q].children[c]].link >= 0
    ensures Shaped(e.nodes) && LinksRanked(e.nodes, e.lrank) && EdgesRanked(e.nodes, e.trank, top) && Linked(e.nodes)
    ensures |e.nodes| == n + 2 && e.nodes[n] == w[n].(link := n + 1)
    ensures e.first == first && e.split == Split(w, q, c, n) && e.pc == w[q].children[c]
    ensures e.lrank == SplitLinkRanks(w, lrank, q, c, n) && Walkable(e.split, e.lrank)
    ensures e.second == WalkFrom(e.split, q, c, n + 1, true, e.pc, e.lrank) && e.nodes == e.second.nodes
  {
    var pc := w[q].children[c];
    SplitStage(w, lrank, trank, top, q, c, n);
    var split := Split(w, q, c, n);
    var lr2 := SplitLinkRanks(w, lrank, q, c, n);
    var tr2 := SplitEdgeRanks(w, trank, q, c);
    SecondStage(split, lr2, tr2, top, q, c, pc, n);
    var second := WalkFrom(split, q, c, n + 1, true, pc, lr2);
    Extension(second.nodes, lr2, tr2, first, split, second, pc)
  }

  /** `AddChar(c)` on the arena `ns` whose `last` is `last`: append the new
      node; walk from `last` giving `c -> new` to each node without a
      `c`-transition; past the root, link the new node to the root; otherwise,
      at the stopping node `q`, clone `q`'s `c`-target `pc` (the clone becomes
      the link of `pc` and of the new node) and walk from `q` redirecting to
      the clone each `c`-transition that leads to `pc`. The result keeps every
      invariant of the arena. */
  ghost function Extend(ns: seq<Node>, lrank: seq<real>, trank: seq<int>, top: int, last: nat, c: char): (e: Extension)
    requires Sound(ns, lrank, trank, top)
    requires last < |ns| && ns[last].children == map[]
    ensures Sound(e.nodes, e.lrank, e.trank, top + 1)
    ensures e.first == WalkFrom(Grown(ns, last, c), last, c, |ns|, false, 0, lrank + [0.0])
    ensures |e.nodes| == |ns| + (if e.first.stop == -1 then 1 else 2)
    ensures e.nodes[|ns|] == Fresh(ns[last].length + 1, last, c).(link := if e.first.stop == -1 then 0 else |ns| + 1)
    ensures e.first.stop != -1 ==>
              && 0 <= e.first.stop < |ns| && c in e.first.nodes[e.first.stop].children
              && e.pc == e.first.nodes[e.first.stop].children[c] && 0 < e.pc < |ns|
              && e.split == Split(e.first.nodes, e.first.stop, c, |ns|)
  {
    var n := |ns|;
    FreshKeeps(ns, lrank, trank, top, last, c, 0.0);
    var first := WalkFrom(Grown(ns, last, c), last, c, n, false, 0, lrank + [0.0]);
    if first.stop == -1 then ExtendPastRoot(ns, lrank, trank, top, last, c, first)
    else ExtendAtStop(ns, lrank, trank, top, last, c, first)
  }

  /** `Extend` when the first walk ran past the root. */
  ghost function ExtendPastRoot(ns: seq<Node>, lrank: seq<real>, trank: seq<int>, top: int, last: nat, c: char, first: Walk): (e: Extension)
    requires Sound(ns, lrank, trank, top) && last < |ns| && ns[last].children == map[]
    requires Walkable(Grown(ns, last, c), lrank + [0.0])
    requires first == WalkFrom(Grown(ns, last, c), last, c, |ns|, false, 0, lrank + [0.0]) && first.stop == -1
    ensures Sound(e.nodes, e.lrank, e.trank, top + 1) && e.first == first
    ensures |e.nodes| == |ns| + 1 && e.nodes[|ns|] == Fresh(ns[last].length + 1, last, c).(link := 0)
  {
    FirstStage(ns, lrank, trank, top, last, c, first);
    RootCase(first.nodes, lrank + [0.0], trank + [top + 1], top + 1, first, |ns|)
  }

  /** `Extend` when the first walk stopped at a node with a `c`-transition. */
  ghost function ExtendAtStop(ns: seq<Node>, lrank: seq<real>, trank: seq<int>, top: int, last: nat, c: char, first: Walk): (e: Extension)
    requires Sound(ns, lrank, trank, top) && last < |ns| && ns[last].children == map[]
    requires Walkable(Grown(ns, last, c), lrank + [0.0])
    requires first == WalkFrom(Grown(ns, last, c), last, c, |ns|, false, 0, lrank + [0.0]) && first.stop != -1
    ensures Sound(e.nodes, e.lrank, e.trank, top + 1) && e.first == first
    ensures |e.nodes| == |ns| + 2 && e.nodes[|ns|] == Fresh(ns[last].length + 1, last, c).(link := |ns| + 1)
    ensures && 0 <= first.stop < |ns| && c in first.nodes[first.stop].children
            && e.pc == first.nodes[first.stop].children[c] && 0 < e.pc < |ns|
            && e.split == Split(first.nodes, first.stop, c, |ns|)
  {
    FirstStage(ns, lrank, trank, top, last, c, first);
    CloneCase(first.nodes, lrank + [0.0], trank + [top + 1], top + 1, first, first.stop, c, |ns|)
  }

  /** The first walk of `Extend` follows the links from `last` over exactly
      the nodes without a `c`-transition, starting with `last` itself, gives
      each of them `c -> new` and changes nothing else; it stops past the
      root or at the first node `q` with a `c`-transition. */
  lemma ExtendFirst(ns: seq<Node>, lrank: seq<real>, trank: seq<int>, top: int, last: nat, c: char)
    requires Sound(ns, lrank, trank, top) && last < |ns| && ns[last].children == map[]
    ensures var f := Extend(ns, lrank, trank, top, last, c).first;
            && Walked(Grown(ns, last, c), f.nodes, last, f.passed, f.stop, c, |ns|, false, 0)
            && f.passed != [] && last == f.passed[0]
            && (f.stop == -1 || (f.stop < |ns| && c in ns[f.stop].children))
  {
    var g := Grown(ns, last, c);
    FreshKeeps(ns, lrank, trank, top, last, c, 0.0);
    var f := WalkFrom(g, last, c, |ns|, false, 0, lrank + [0.0]);
    FirstStage(ns, lrank, trank, top, last, c, f);
    WalkFromWalked(g, last, c, |ns|, false, 0, lrank + [0.0]);
    assert f.stop >= 0 ==> g[f.stop] == ns[f.stop];
  }

  /** Past the root, `Extend` links the new node to the root and clones nothing. */
  lemma ExtendRoot(ns: seq<Node>, lrank: seq<real>, trank: seq<int>, top: int, last: nat, c: char)
    requires Sound(ns, lrank, trank, top) && last < |ns| && ns[last].children == map[]
    requires Extend(ns, lrank, trank, top, last, c).first.stop == -1
    ensures var e := Extend(ns, lrank, trank, top, last, c);
            |e.nodes| == |ns| + 1 && e.nodes == e.first.nodes[|ns| := e.first.nodes[|ns|].(link := 0)]
  {
  }

  /** `Split` makes one clone of `q`'s `c`-target `pc`: it copies the
      transitions and link of `pc`, has length `q.length + 1`, parent `q` and
      label `c`, and becomes the link of both `pc` and the new node `n`;
      every other node stays as it was. */
  lemma SplitMakesClone(w: seq<Node>, q: nat, c: char, n: nat)
    requires q < |w| && c in w[q].children && w[q].children[c] < |w| && n < |w| && n != w[q].children[c]
    ensures var pc := w[q].children[c];
            var split := Split(w, q, c, n);
            && split[|w|] == w[pc].(length := w[q].length + 1, parent := q, ch := c)
            && split[pc] == w[pc].(link := |w|) && split[n] == w[n].(link := |w|)
            && (forall y :: 0 <= y < |w| && y != pc && y != n ==> split[y] == w[y])
  {
  }

  /** When the first walk stops at a node `q`, `Extend` clones `q`'s
      `c`-target into the arena of the first walk and then runs the
      redirect walk from `q`. */
  lemma ExtendClonedWalk(ns: seq<Node>, lrank: seq<real>, trank: seq<int>, top: int, last: nat, c: char, e: Extension,
                          w: seq<Node>, q: nat, n: nat)
    requires Sound(ns, lrank, trank, top) && last < |ns| && ns[last].children == map[]
    requires e == Extend(ns, lrank, trank, top, last, c) && e.first.stop != -1
    requires w == e.first.nodes && q == e.first.stop && n == |ns|
    ensures q < n < |w| && c in w[q].children && e.pc == w[q].children[c] && e.pc < |w|
    ensures e.split == Split(w, q, c, n) && Walkable(e.split, e.lrank)
    ensures e.nodes == WalkFrom(e.split, q, c, n + 1, true, e.pc, e.lrank).nodes
  {
    ExtendCloned(ns, lrank, trank, top, last, c, e);
  }

  /** When the first walk stops at a node `q`, `Extend` is the clone case
      at `q`, whose preconditions the first walk establishes. */
  lemma ExtendCloned(ns: seq<Node>, lrank: seq<real>, trank: seq<int>, top: int, last: nat, c: char, e: Extension)
    requires Sound(ns, lrank, trank, top) && last < |ns| && ns[last].children == map[]
    requires e == Extend(ns, lrank, trank, top, last, c) && e.first.stop != -1
    ensures var w, q, n := e.first.nodes, e.first.stop, |ns|;
            && Shaped(w) && LinksRanked(w, lrank + [0.0]) && EdgesRanked(w, trank + [top + 1], top + 1) && LinkedBut(w, n)
            && (forall z :: 0 <= z < |w| ==> w[z].link != n)
            && 0 < n && n + 1 == |w| && w[n].children == map[] && w[n].link == -1 && q < n && c in w[q].children
            && w[w[q].children[c]].link >= 0
            && e == CloneCase(w, lrank + [0.0], trank + [top + 1], top + 1, e.first, q, c, n)
  {
    FreshKeeps(ns, lrank, trank, top, last, c, 0.0);
    FirstStage(ns, lrank, trank, top, last, c, e.first);
  }

  /** The redirect walk of `CloneCase` is a walk from `q` over the nodes
      whose `c`-transition leads to `pc`, starting with `q` itself. */
  lemma CloneRedirect(w: seq<Node>, lrank: seq<real>, trank: seq<int>, top: int, first: Walk, q: nat, c: char, n: nat, e: Extension)
    requires Shaped(w) && LinksRanked(w, lrank) && EdgesRanked(w, trank, top) && LinkedBut(w, n)
    requires forall z :: 0 <= z < |w| ==> w[z].link != n
    requires 0 < n && n + 1 == |w| && w[n].children == map[] && w[n].link == -1 && q < n && c in w[q].children
    requires w[w[q].children[c]].link >= 0
    requires e == CloneCase(w, lrank, trank, top, first, q, c, n)
    ensures Walked(e.split, e.nodes, q, e.second.passed, e.second.stop, c, n + 1, true, e.pc)
    ensures e.second.passed != [] && q == e.second.passed[0]
    ensures e.second.stop == -1 || !GoesOn(e.split, e.second.stop, c, true, e.pc)
  {
    SplitStage(w, lrank, trank, top, q, c, n);
    assert GoesOn(e.split, q, c, true, e.pc);
    WalkFromWalked(e.split, q, c, n + 1, true, e.pc, e.lrank);
    assert e.second.passed != [];
  }
}

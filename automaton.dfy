/** The online suffix automaton of D3_suf_automat.cpp (class SuffixAutomaton). */
module Automaton {
  import opened Edges
  import opened AutomatonArena
  import opened AutomatonReads
  import opened AutomatonSearch

  /** The whole state of a `SuffixAutomaton` as a value, with its proof-only rankings. */
  datatype Snapshot = Snapshot(nodes: seq<Node>, isTerminal: seq<bool>, count: seq<int>, last: int,
                               lrank: seq<real>, trank: seq<int>, top: int)

  /** What `SuffixAutomaton.Valid` says of a snapshot. */
  ghost predicate Ready(a: Snapshot) {
    && Sound(a.nodes, a.lrank, a.trank, a.top)
    && |a.isTerminal| == |a.nodes| && |a.count| == |a.nodes|
    && 0 <= a.last < |a.nodes| && a.nodes[a.last].children == map[]
  }

  /** The state after `AddChar(c)`: the arena as `Extend` builds it, a new
      unmarked node with count zero, and when a node was cloned, a copy of
      its mark and count for the clone. */
  ghost function AddedChar(a: Snapshot, c: char): Snapshot
    requires Ready(a)
  {
    var e := Extend(a.nodes, a.lrank, a.trank, a.top, a.last, c);
    Snapshot(e.nodes,
             a.isTerminal + (if e.first.stop == -1 then [false] else [false, a.isTerminal[e.pc]]),
             a.count + (if e.first.stop == -1 then [0] else [0, a.count[e.pc]]),
             |a.nodes|, e.lrank, e.trank, a.top + 1)
  }

  /** `AddChar` keeps a state ready. */
  lemma AddedCharReady(a: Snapshot, c: char)
    requires Ready(a)
    ensures Ready(AddedChar(a, c))
  {
  }

  /** `AddedChar`, from what `AddChar` computes: the arena of `Extend` and,
      when a node was cloned, the mark and count of the node it copies. */
  lemma AddedCharIs(a: Snapshot, c: char, e: Extension, r: seq<Node>, pc: int, marks: seq<bool>, counts: seq<int>)
    requires Ready(a) && e == Extend(a.nodes, a.lrank, a.trank, a.top, a.last, c)
    requires r == e.nodes && pc == (if e.first.stop == -1 then -1 else e.pc)
    requires marks == (if pc == -1 then [false] else [false, a.isTerminal[pc]])
    requires counts == (if pc == -1 then [0] else [0, a.count[pc]])
    ensures AddedChar(a, c) == Snapshot(r, a.isTerminal + marks, a.count + counts, |a.nodes|, e.lrank, e.trank, a.top + 1)
  {
  }

  /** The state after `AddChar` of every symbol of `s` in turn. */
  ghost function AddedAll(a: Snapshot, s: string): (b: Snapshot)
    requires Ready(a)
    ensures Ready(b)
    decreases |s|
  {
    if s == [] then a
    else
      AddedCharReady(a, s[0]);
      AddedAll(AddedChar(a, s[0]), s[1..])
  }

  /** Adding symbols keeps every count zero when all were zero: a new node
      starts at zero and a clone copies a zero. */
  lemma {:induction false} AddedAllZero(a: Snapshot, s: string)
    requires Ready(a)
    ensures Zero(a.count) ==> Zero(AddedAll(a, s).count)
    decreases |s|
  {
    if s != [] && Zero(a.count) {
      var b := AddedChar(a, s[0]);
      AddedCharReady(a, s[0]);
      AddedCharZero(a, s[0]);
      AddedAllZero(b, s[1..]);
      assert AddedAll(a, s) == AddedAll(b, s[1..]);
    }
  }

  /** One `AddChar` keeps every count zero when all were zero. */
  lemma AddedCharZero(a: Snapshot, c: char)
    requires Ready(a) && Zero(a.count)
    ensures Zero(AddedChar(a, c).count)
  {
    var e := Extend(a.nodes, a.lrank, a.trank, a.top, a.last, c);
    if e.first.stop != -1 {
      assert a.count[e.pc] == 0;
    }
  }

  /** Each symbol adds one state, or two when a state is cloned: after `n`
      symbols an automaton that started from the root alone has between
      `n + 1` and `2n + 1` states. */
  lemma {:induction false} AddedAllSize(a: Snapshot, s: string)
    requires Ready(a)
    ensures |a.nodes| + |s| <= |AddedAll(a, s).nodes| <= |a.nodes| + 2 * |s|
    decreases |s|
  {
    if s != [] {
      var b := AddedChar(a, s[0]);
      AddedCharReady(a, s[0]);
      assert |a.nodes| + 1 <= |b.nodes| <= |a.nodes| + 2;
      AddedAllSize(b, s[1..]);
      assert AddedAll(a, s) == AddedAll(b, s[1..]);
    }
  }

  class SuffixAutomaton {
    /** The node arena; index 0 is `root`. */
    var nodes: seq<Node>
    /** `Node::isTerminal` and `Node::count`, one entry per node. */
    var isTerminal: seq<bool>
    var count: seq<int>
    /** The state of the whole text read so far. */
    var last: int
    /** The `used` map of `FindCounts`: the nodes it has entered. */
    var used: set<int>
    /** Proof-only rankings of the link forest and of the transition DAG. */
    ghost var lrank: seq<real>
    ghost var trank: seq<int>
    ghost var top: int

    /** The state as a value. */
    ghost function State(): Snapshot
      reads this
    {
      Snapshot(nodes, isTerminal, count, last, lrank, trank, top)
    }

    /** The invariant between two calls: the arena keeps its shape and
        rankings, every non-root node has a link, and `last` is a node
        without transitions. */
    ghost predicate Valid()
      reads this
    {
      Ready(State())
    }

    /** `SuffixAutomaton()`: a lone root, which is also `last`. */
    constructor ()
      ensures Valid()
      ensures nodes == [Fresh(0, -1, 0 as char)] && last == 0
      ensures isTerminal == [false] && count == [0] && used == {}
    {
      nodes := [Fresh(0, -1, 0 as char)];
      isTerminal := [false];
      count := [0];
      last := 0;
      used := {};
      lrank := [0.0];
      trank := [0];
      top := 0;
    }

    /** `AddChar(c)`: extend the automaton by one symbol, as `Extend` says.
        The new node is appended first; when the first walk stops at a node,
        its `c`-target is cloned second, with the target's terminal mark and
        count. */
    method AddChar(c: char)
      requires Valid()
      modifies this`nodes, this`isTerminal, this`count, this`last, this`lrank, this`trank, this`top
      ensures State() == AddedChar(old(State()), c)
      ensures Valid() && used == old(used)
    {
      ghost var a := State();
      AddedCharReady(a, c);
      ghost var e := Extend(nodes, lrank, trank, top, last, c);
      var r, pc := ExtendArena(nodes, last, c, lrank, trank, top, e);
      var marks := if pc == -1 then [false] else [false, isTerminal[pc]];
      var counts := if pc == -1 then [0] else [0, count[pc]];
      AddedCharIs(a, c, e, r, pc, marks, counts);
      nodes, isTerminal, count, last, lrank, trank, top := r, isTerminal + marks, count + counts, |nodes|, e.lrank, e.trank, top + 1;
    }

    /** `AddString(s)`: `AddChar` of every symbol of `s`, then mark the
        terminal nodes, then count from the root. On a fresh automaton (no
        node used yet, all counts zero) every node that the count reaches,
        the root included, ends with the number of transition paths from it
        to a terminal node. */
    method AddString(s: string)
      requires Valid()
      modifies this
      ensures Valid()
      ensures var b := AddedAll(old(State()), s);
              && nodes == b.nodes && last == b.last && lrank == b.lrank && trank == b.trank && top == b.top
              && (forall y :: 0 <= y < |nodes| ==> isTerminal[y] == (b.isTerminal[y] || y in Chain(nodes, lrank, last)))
              && Counted(nodes, trank, top, isTerminal, b.count, old(used), 0, count, used)
      ensures old(used) == {} && Zero(old(count)) ==> OccurrenceCounts(nodes, trank, top, isTerminal, 0, count)
    {
      AddedAllZero(State(), s);
      AddChars(s);
      ghost var b := State();
      MarkTerminal();
      FindCounts(0);
      FindCountsOccurrences(nodes, trank, top, isTerminal, b.count, old(used), 0, count, used);
    }

    /** The loop of `AddString`: `AddChar` of every symbol of `s` in turn. */
    method AddChars(s: string)
      requires Valid()
      modifies this
      ensures Valid() && used == old(used)
      ensures State() == AddedAll(old(State()), s)
    {
      var i := 0;
      while i < |s|
        invariant 0 <= i <= |s| && Valid() && used == old(used)
        invariant AddedAll(State(), s[i..]) == AddedAll(old(State()), s)
      {
        assert s[i..][0] == s[i] && s[i..][1..] == s[i + 1..];
        AddChar(s[i]);
        i := i + 1;
      }
      assert s[i..] == [];
    }

    /** `FindCounts(node)`: the depth-first count from `node` that `GatherCounts` performs. */
    method FindCounts(node: nat)
      requires Valid() && node < |nodes|
      modifies this`count, this`used
      ensures Valid()
      ensures Counted(nodes, trank, top, isTerminal, old(count), old(used), node, count, used)
    {
      count, used := GatherCounts(nodes, isTerminal, count, used, node, trank, top);
      assert State() == old(State()).(count := count);
    }

    /** `Find(s)`: read `s` from the root along transitions; true when every
        symbol has a transition (so always for the empty string). */
    method Find(s: string) returns (found: bool)
      requires Valid()
      ensures found <==> Follow(nodes, 0, s) != -1
    {
      var node := 0;
      var i := 0;
      while i < |s|
        invariant 0 <= i <= |s| && 0 <= node < |nodes|
        invariant Follow(nodes, 0, s) == Follow(nodes, node, s[i..])
      {
        assert s[i..][0] == s[i] && s[i..][1..] == s[i + 1..];
        if s[i] in nodes[node].children {
          node := nodes[node].children[s[i]];
        } else {
          return false;
        }
        i := i + 1;
      }
      return true;
    }

    /** `GetNodeString(node)`: the labels from `node` up the parent pointers,
        nearest first; empty for null (-1). */
    method GetNodeString(node: int) returns (buffer: seq<char>)
      requires Valid() && -1 <= node < |nodes|
      ensures buffer == Labels(nodes, node)
    {
      buffer := [];
      if node == -1 {
        return;
      }
      var x := node;
      while nodes[x].parent != -1
        invariant 0 <= x < |nodes| && Labels(nodes, node) == buffer + Labels(nodes, x)
        decreases nodes[x].length
      {
        assert ParentOk(nodes, x);
        buffer := buffer + [nodes[x].ch];
        x := nodes[x].parent;
      }
    }

    /** `MarkTerminal()`: mark every node of the suffix-link chain from
        `last`; the other marks stay. */
    method MarkTerminal()
      requires Valid()
      modifies this`isTerminal
      ensures Valid()
      ensures |isTerminal| == |nodes|
      ensures forall y :: 0 <= y < |nodes| ==> isTerminal[y] == (old(isTerminal)[y] || y in Chain(nodes, lrank, last))
    {
      isTerminal := MarkChain(nodes, lrank, last, isTerminal);
    }
  }

  /** The loop of `MarkTerminal` over the arena: set the mark of every node
      on the suffix-link chain from `last`; the other marks stay. */
  method MarkChain(ns: seq<Node>, ghost lrank: seq<real>, last: int, marks: seq<bool>) returns (r: seq<bool>)
    requires Walkable(ns, lrank) && -1 <= last < |ns| && |marks| == |ns|
    ensures |r| == |ns|
    ensures forall y :: 0 <= y < |ns| ==> r[y] == (marks[y] || y in Chain(ns, lrank, last))
  {
    r := marks;
    var node := last;
    ghost var done := [];
    while node != -1
      invariant -1 <= node < |ns| && |r| == |ns|
      invariant Chain(ns, lrank, last) == done + Chain(ns, lrank, node)
      invariant forall y :: 0 <= y < |ns| ==> r[y] == (marks[y] || y in done)
      decreases Upto(lrank, node)
    {
      UptoShrinks(ns, lrank, node);
      AppendAssoc(done, [node], Chain(ns, lrank, ns[node].link));
      r := r[node := true];
      done := done + [node];
      node := ns[node].link;
    }
  }

  /** The arena work of `AddChar`: the new node, the first walk, and past a
      stopping node the clone and the redirect walk. `pc` is the cloned node,
      or -1 when no clone was made. */
  method ExtendArena(ns: seq<Node>, last: nat, c: char, ghost lrank: seq<real>, ghost trank: seq<int>, ghost top: int, ghost e: Extension)
    returns (r: seq<Node>, pc: int)
    requires Sound(ns, lrank, trank, top)
    requires last < |ns| && ns[last].children == map[]
    requires e == Extend(ns, lrank, trank, top, last, c)
    ensures r == e.nodes && pc == (if e.first.stop == -1 then -1 else e.pc)
  {
    var n := |ns|;
    FreshKeeps(ns, lrank, trank, top, last, c, 0.0);
    var w, at := AddAlongLinks(Grown(ns, last, c), last, c, n, lrank + [0.0]);
    assert w == e.first.nodes && at == e.first.stop;
    if at == -1 {
      ExtendRoot(ns, lrank, trank, top, last, c);
      r, pc := w[n := w[n].(link := 0)], -1;
    } else {
      ExtendClonedWalk(ns, lrank, trank, top, last, c, e, w, at, n);
      r, pc := CloneAndRedirect(w, at, c, n, e);
    }
  }

  /** The clone case of `AddChar`: clone the `c`-target of the stopping
      node `q`, then redirect to the clone along the links from `q`; the
      result is the arena `e` describes. */
  method CloneAndRedirect(w: seq<Node>, q: nat, c: char, n: nat, ghost e: Extension) returns (r: seq<Node>, pc: int)
    requires q < n < |w| && c in w[q].children && e.pc == w[q].children[c] && e.pc < |w|
    requires e.split == Split(w, q, c, n) && Walkable(e.split, e.lrank)
    requires e.nodes == WalkFrom(e.split, q, c, n + 1, true, e.pc, e.lrank).nodes
    ensures pc == e.pc && r == e.nodes
  {
    pc := w[q].children[c];
    var split := Split(w, q, c, n);
    var stop;
    r, stop := RedirectAlongLinks(split, q, c, pc, n + 1, e.lrank);
  }

  /** The first loop of `AddChar`: from `last` along suffix links, give every
      node without a `c`-transition the transition `c -> t`; stop at null or
      at the first node that has a `c`-transition. */
  method AddAlongLinks(ns: seq<Node>, last: int, c: char, t: nat, ghost lrank: seq<real>)
    returns (r: seq<Node>, at: int)
    requires Walkable(ns, lrank) && -1 <= last < |ns|
    ensures r == WalkFrom(ns, last, c, t, false, 0, lrank).nodes
    ensures at == WalkFrom(ns, last, c, t, false, 0, lrank).stop
  {
    r, at := ns, last;
    while at != -1 && c !in r[at].children
      invariant Walkable(r, lrank) && -1 <= at < |r|
      invariant WalkFrom(r, at, c, t, false, 0, lrank).nodes == WalkFrom(ns, last, c, t, false, 0, lrank).nodes
      invariant WalkFrom(r, at, c, t, false, 0, lrank).stop == WalkFrom(ns, last, c, t, false, 0, lrank).stop
      decreases Upto(lrank, at)
    {
      UptoShrinks(r, lrank, at);
      PutAtWalkable(r, lrank, at, c, t);
      var next := r[at].link;
      r := r[at := r[at].(children := r[at].children[c := t])];
      at := next;
    }
  }

  /** The second loop of `AddChar`: from `last` along suffix links, turn every
      `c`-transition that leads to `pc` into one that leads to `cloned`; stop
      at null or at the first node whose `c`-transition leads elsewhere. */
  method RedirectAlongLinks(ns: seq<Node>, last: int, c: char, pc: nat, cloned: nat, ghost lrank: seq<real>)
    returns (r: seq<Node>, at: int)
    requires Walkable(ns, lrank) && -1 <= last < |ns|
    ensures r == WalkFrom(ns, last, c, cloned, true, pc, lrank).nodes
    ensures at == WalkFrom(ns, last, c, cloned, true, pc, lrank).stop
  {
    r, at := ns, last;
    while at != -1 && c in r[at].children && r[at].children[c] == pc
      invariant Walkable(r, lrank) && -1 <= at < |r|
      invariant WalkFrom(r, at, c, cloned, true, pc, lrank).nodes == WalkFrom(ns, last, c, cloned, true, pc, lrank).nodes
      invariant WalkFrom(r, at, c, cloned, true, pc, lrank).stop == WalkFrom(ns, last, c, cloned, true, pc, lrank).stop
      decreases Upto(lrank, at)
    {
      UptoShrinks(r, lrank, at);
      PutAtWalkable(r, lrank, at, c, cloned);
      var next := r[at].link;
      r := r[at := r[at].(children := r[at].children[c := cloned])];
      at := next;
    }
  }
}

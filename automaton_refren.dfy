/** `RefrenFinder` of D3_suf_automat.cpp: the node of greatest
    `length * count` of a counted automaton, and the string it spells. */
module AutomatonRefren {
  import opened AutomatonArena
  import opened AutomatonReads
  import opened AutomatonSearch
  import opened Automaton

  class RefrenFinder {
    /** The automaton searched; the finder only reads it. */
    const automaton: SuffixAutomaton
    /** The best weight found so far, -1 before any. */
    var refren: int
    /** The node of that weight, -1 (null) before any. */
    var refrenNode: int
    /** The nodes the search has entered. */
    var used: set<int>

    /** The finder's own invariant: its node is null or a node of the automaton. */
    ghost predicate Valid()
      reads this, automaton
    {
      automaton.Valid() && -1 <= refrenNode < |automaton.nodes|
    }

    /** `RefrenFinder(automaton)`: no choice yet, nothing used. */
    constructor (automaton: SuffixAutomaton)
      requires automaton.Valid()
      ensures Valid() && this.automaton == automaton
      ensures refren == -1 && refrenNode == -1 && used == {}
    {
      this.automaton := automaton;
      refren := -1;
      refrenNode := -1;
      used := {};
    }

    /** `GetRefren()`: search from the root, then spell the chosen node
        back to the root. The answer is `Pick` over the traversal from the
        root, and its string is `Labels` of the chosen node. */
    method GetRefren() returns (refrenString: seq<char>, value: int)
      requires Valid()
      modifies this`refren, this`refrenNode, this`used
      ensures Valid()
      ensures var a := automaton;
              var t := Visit(a.nodes, a.trank, a.top, old(used), 0);
              && (forall i :: 0 <= i < |t.order| ==> 0 <= t.order[i] < |a.nodes|)
              && var r := Pick(a.nodes, a.count, Choice(old(refren), old(refrenNode)), t.order);
                 && refren == r.value && refrenNode == r.node && used == t.used
                 && value == r.value && refrenString == Labels(a.nodes, r.node)
    {
      FindRefren(0);
      refrenString := automaton.GetNodeString(refrenNode);
      value := refren;
    }

    /** `FindRefren(node)`: the depth-first search from `node` that
        `ScanRefren` performs, updating the choice and the used set. */
    method FindRefren(node: nat)
      requires Valid() && node < |automaton.nodes|
      modifies this`refren, this`refrenNode, this`used
      ensures Valid()
      ensures var a := automaton;
              var t := Visit(a.nodes, a.trank, a.top, old(used), node);
              && (forall i :: 0 <= i < |t.order| ==> 0 <= t.order[i] < |a.nodes|)
              && var r := Pick(a.nodes, a.count, Choice(old(refren), old(refrenNode)), t.order);
                 && refren == r.value && refrenNode == r.node && used == t.used
    {
      var a := automaton;
      var choice;
      choice, used := ScanRefren(a.nodes, a.count, Choice(refren, refrenNode), used, node, a.trank, a.top);
      PickFirstMax(a.nodes, a.count, Choice(refren, refrenNode), Visit(a.nodes, a.trank, a.top, old(used), node).order);
      refren, refrenNode := choice.value, choice.node;
    }
  }
}

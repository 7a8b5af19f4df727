# Suffix automaton and suffix tree refrens, in Dafny

This project models the two programs `D3_suf_automat.cpp` and `D3_suf_tree.cpp`. Both answer the
"refren" question: for a text, find the substring whose length times its number of occurrences
is largest.

- **`SuffixAutomaton`** is built online one symbol at a time (`AddChar`).
  - It marks the terminal states along the suffix links of `last`.
  - It counts, for every state, the transition paths to a terminal state (`FindCounts`).
  - Its `RefrenFinder` walks the automaton depth-first in post-order. It keeps the first state of
    strictly largest `length * count`, and spells it back through the parent pointers.
- **`SuffixTree`** is Ukkonen's online construction.
  - The active point is `lastNotLeaf_`; edges to leaves end at `sizeOfText_`.
  - Internal nodes are made by splitting an edge (`makeNode`).
  - Suffix links are built lazily (`getLink`, `buildLink`), by walking down from the parent's link
    along the node's edge.
  - `findCounts` gives every node its number of leaves and its string depth.
  - The tree's `RefrenFinder` builds the tree of the text followed by `$`. It relaxes every node in
    post-order, keeping the largest `count * lengthOfSubstring` and, on ties, the shorter one.
    It then cuts the node's text out of the whole text, dropping the `$` of a leaf.

## How the model is built

Both programs mutate nodes that they reach through `shared_ptr`s. Here each structure is a Dafny
`class` whose nodes live in an arena, a `seq` of node records:

- a pointer is an index into the arena;
- `nullptr` is `-1`;
- `std::map<char, ...>` children are `map<char, nat>`, iterated in ascending order of the
  signed 8-bit C++ `char` (`Edges.Ascending`, by `Edges.Rank`), which is `std::map`'s order: the
  bytes 0x80 to 0xFF sort first, as -128 to -1, then 0 to 127;
- each `used` map is a set of indices.

Every method states its new state exactly. For a loop, the state is given as a specification
function of the old state: `AddedChar`/`Extend` for `AddChar`, `Visit`/`Settle` for `FindCounts`,
`Pick` and `RelaxAll` over a post-order for the two refren searches. Lemmas then prove what those
functions mean.

**Automaton.**
- Ghost ranks prove that suffix links lead towards the root and that the transition graph is acyclic.
  This makes `AddChar`'s loops, `MarkTerminal`'s walk and the recursive searches terminate.
- `AddChar` always clones the state it reaches, as the source does. It never checks whether that
  state is already solid.
- Counts are the number of transition paths to terminal states (`Occurrences`).

**Tree.**
- A ghost `depth` per node (its string depth) and a ghost invariant `Tracks` make every step total:
  - every edge agrees with its parent's text;
  - every set suffix link spells its node less the first symbol;
  - every substring of the text read so far is spelled by some point of the tree;
  - the leaves are exactly those of the suffixes that start before the active suffix.
- From `Tracks`, every child lookup, text index and edge split in `add`, `buildLink` and `makeNode`
  is shown to be defined.
- A point of the tree is fixed by the text it spells (`TreeLabels.Unique`). So the walk of
  `buildLink` is proved to end at the one point that spells the node's text less its first symbol.

## Model

| member | source | states |
|---|---|---|
| Automaton.SuffixAutomaton.constructor | D3_suf_automat.cpp:19-22 | the automaton holds only the root, of length 0, with no parent, link or children, unmarked and with count 0; `last` is the root |
| Automaton.SuffixAutomaton.AddChar | D3_suf_automat.cpp:50-71 | the new state is exactly `AddedChar` of the old one: the arena `Extend` builds; a new unmarked state of count 0; when a state was cloned, the clone copies the mark and count of the state it clones. `last` is the new state and every arena invariant is kept |
| Automaton.ExtendArena | D3_suf_automat.cpp:50-71 | the arena that `AddChar`'s two loops and the clone leave is `Extend`'s, and the cloned state is `Extend`'s `pc` (or -1 when the first loop ran past the root) |
| Automaton.AddAlongLinks | D3_suf_automat.cpp:52-55 | the first loop gives `c -> new` to each state on the suffix-link walk from `last` that lacks a `c`-transition, and stops at the first state that has one or past the root, as `WalkFrom` states |
| Automaton.RedirectAlongLinks | D3_suf_automat.cpp:66-69 | the second loop turns each `c`-transition into `pc` on the suffix-link walk into a transition to the clone, and stops at the first state whose `c`-transition leads elsewhere or past the root |
| Automaton.CloneAndRedirect | D3_suf_automat.cpp:63-69 | cloning the `c`-target of the stopping state and redirecting yields `Extend`'s arena and its `pc` |
| AutomatonArena.ExtendFirst | D3_suf_automat.cpp:51-55 | the first walk starts at `last` and stops past the root or at a state that already has a `c`-transition |
| AutomatonArena.ExtendRoot | D3_suf_automat.cpp:57-61 | when the walk ran past the root, exactly one state is added and its link is the root |
| AutomatonArena.SplitMakesClone | D3_suf_automat.cpp:63-65 | the clone is a copy of `pc` with length `q.length + 1`, parent `q` and symbol `c`; `pc` and the new state are linked to the clone; every other state is unchanged |
| AutomatonArena.CloneRedirect | D3_suf_automat.cpp:66-70 | the redirect walk starts at the stopping state and ends past the root or at the first state whose `c`-transition is not `pc` |
| Automaton.AddedCharReady | D3_suf_automat.cpp:50-71 | adding a symbol keeps the arena sound: links ranked towards the root, transitions ranked acyclically, `last` without children |
| Automaton.AddedAllZero | D3_suf_automat.cpp:43-45 | adding symbols to an automaton whose counts are all zero leaves them all zero |
| Automaton.AddedAllSize | D3_suf_automat.cpp:43-45 | after `n` symbols the automaton has between `n` and `2n` more states: from the root alone, at most `2n + 1` |
| Automaton.SuffixAutomaton.AddChars | D3_suf_automat.cpp:43-45 | the loop of `AddString` reaches `AddedAll` of the old state |
| Automaton.SuffixAutomaton.AddString | D3_suf_automat.cpp:42-48 | after the symbols are added, the states on the link chain from `last` are marked, and the counts are those of `FindCounts` from the root. On a fresh automaton, every state reachable from the root counts its transition paths to terminal states, and every other state counts 0 |
| Automaton.SuffixAutomaton.Find | D3_suf_automat.cpp:73-83 | `Find(s)` holds exactly when reading `s` from the root along transitions never fails |
| AutomatonReads.FollowAppend | D3_suf_automat.cpp:73-83 | reading `s + t` is reading `s`, then `t` from where `s` ended |
| AutomatonReads.FollowPrefix | D3_suf_automat.cpp:73-83 | whatever `Find` accepts, it accepts every prefix of |
| Automaton.SuffixAutomaton.GetNodeString | D3_suf_automat.cpp:30-40 | the buffer is the symbols met on the way up the parent pointers, nearest first, and empty for `nullptr` |
| AutomatonReads.LabelsLength | D3_suf_automat.cpp:30-40 | the string spelled back from a state is as long as the state's `length` |
| Automaton.SuffixAutomaton.MarkTerminal | D3_suf_automat.cpp:99-105 | a state is marked afterwards exactly when it was marked before or lies on the suffix-link chain from `last` |
| Automaton.MarkChain | D3_suf_automat.cpp:100-104 | the loop over the chain marks exactly the chain's states and keeps every other mark |
| AutomatonReads.ChainToRoot | D3_suf_automat.cpp:100-104 | the chain starts at its state, follows suffix links and ends at the root |
| Automaton.SuffixAutomaton.FindCounts | D3_suf_automat.cpp:87-97 | the counts are those of the depth-first visit from `node`: in post-order, each state adds its children's counts, plus one when it is terminal; `used` grows by the states entered |
| AutomatonSearch.GatherCounts | D3_suf_automat.cpp:87-97 | the recursive visit settles the counts in the order `Visit` gives and enters exactly `Visit`'s states |
| AutomatonSearch.VisitExplores | D3_suf_automat.cpp:87-97 | a visit from an unused state ends with that state and lists each state at most once, after every child it reaches |
| AutomatonSearch.FindCountsOccurrences | D3_suf_automat.cpp:87-97 | from zero counts and nothing used, every state reachable from the start holds the number of transition paths from it to a terminal state, and every other state holds 0 |
| AutomatonSearch.SettleOccurrences | D3_suf_automat.cpp:89-96 | settling counts in any post-order over distinct states gives each listed state its number of paths to terminal states |
| AutomatonRefren.RefrenFinder.constructor | D3_suf_automat.cpp:158-162 | the finder reads the given automaton, with value -1, no node and nothing used |
| AutomatonRefren.RefrenFinder.GetRefren | D3_suf_automat.cpp:166-169 | the value and node are `Pick` over the post-order visit from the root, and the string is the node's `GetNodeString` |
| AutomatonRefren.RefrenFinder.FindRefren | D3_suf_automat.cpp:172-183 | the choice after the visit of `node` is `Pick` over the visit's post-order, starting from the choice held before |
| AutomatonSearch.ScanRefren | D3_suf_automat.cpp:172-183 | the recursive scan returns `Pick` over the visit's post-order and enters exactly the visit's states |
| AutomatonSearch.PickFirstMax | D3_suf_automat.cpp:179-182 | the pick is at least every weight it scanned. It is either the starting choice or the first scanned state of largest weight, which beats the starting value |
| AutomatonSearch.PickFromRoot | D3_suf_automat.cpp:166-183 | from the root with nothing chosen, the finder picks a visited state whose `length * count` is not below any visited state's, and which comes first among those |
| Edges.AscendingSorted | D3_suf_tree.cpp:83 | the keys of a child map are taken in strictly ascending order of the signed `char`, as `std::map<char, ...>` iterates |
| Edges.AscendingKeys | D3_suf_tree.cpp:172 | the keys listed for iteration are those of the map, in ascending order |
| Tree.SuffixTree.constructor | D3_suf_tree.cpp:18-28 | after `addString(s)` on the two-node tree, the text is `s` and `sizeOfText` is `|s|`. The tree keeps the invariant, so every substring of `s` is spelled by a point, and the counts and lengths are those `findCounts` computes from zero |
| Tree.SuffixTree.AddString | D3_suf_tree.cpp:32-37 | the text grows by `s`, the invariant is kept, and the counts and string lengths are those of `findCounts` from the root over the padded old ones |
| Tree.SuffixTree.Add | D3_suf_tree.cpp:39-47 | the text gains `c` and the invariant is kept. The active point is `go(P, c)` from the point `P` where the loop stopped, no deeper than the old point. The new point is one symbol deeper than `P` and ends within the text |
| Tree.SuffixTree.HangAll | D3_suf_tree.cpp:41-45 | the loop keeps the invariant and never deepens the active point, and it ends where `canGo(lastNotLeaf_, c)` holds |
| Tree.SuffixTree.Hang | D3_suf_tree.cpp:42-44 | one turn hangs a leaf `[|text| - 1, sizeOfText)` for the current suffix under the node `makeNode` returned (the active node itself, or the new split node). The active point becomes that node's link, one symbol shallower |
| Tree.SuffixTree.MakeAndLeaf | D3_suf_tree.cpp:42-43 | the node `makeNode` returns spells the active suffix, and the leaf hung under it is the leaf of the suffix starting where that suffix starts |
| Tree.SuffixTree.NewLeaf | D3_suf_tree.cpp:43 | the arena gains exactly the leaf `[n, sizeOfText)` under the node, keyed by its first symbol, of depth `node depth + sizeOfText - n` |
| Tree.SuffixTree.FollowLink | D3_suf_tree.cpp:44 | the active point moves to `Position(getLink(node), 0)`, which spells the active suffix less its first symbol, and the hung leaf is kept |
| Tree.SuffixTree.MakeNode | D3_suf_tree.cpp:129-141 | at a node, the node itself and nothing changes. Inside an edge, the arena is `Split`: a new node over the upper part of the edge, parent of the old child. The new node has the point's depth, ends where the point does and starts where the child's text starts |
| TreeArena.SplitFormed | D3_suf_tree.cpp:129-141 | a split keeps the arena well formed, grows it and changes no node shallower than the cut |
| TreeSteps.SplitGood | D3_suf_tree.cpp:129-141 | a split keeps every edge, link, leaf and substring of the invariant, and the new node's text starts where the cut edge's did |
| Tree.SuffixTree.GetLink | D3_suf_tree.cpp:143-148 | a set link is returned unchanged with nothing changed. Otherwise the built link is stored. The root's link is `parentRoot_`, and any other link spells the node less its first symbol, one symbol shallower |
| Tree.SuffixTree.BuildLink | D3_suf_tree.cpp:150-165 | the node returned spells the node's text less its first symbol |
| Tree.SuffixTree.ParentLink | D3_suf_tree.cpp:151-152 | the parent's link is `parentRoot_` for the root and otherwise spells the parent less its first symbol; the node's own edge is kept |
| Tree.SuffixTree.WalkAndMake | D3_suf_tree.cpp:152-164 | `makeNode` of the point the walk reaches is a node spelling the node's text less its first symbol |
| Tree.SuffixTree.WalkTo | D3_suf_tree.cpp:152-163 | walking `[edgeStart, edgeFinish)` down from the parent's link reaches the point, one symbol shallower than the node, that spells the node's text less its first symbol |
| Tree.SuffixTree.Descend | D3_suf_tree.cpp:155-163 | the walk of `text[l..r)` from a point ends at the point `t` that lies `r - l` symbols below it and spells its text followed by `text[l..r)` |
| TreeSteps.LinkTarget | D3_suf_tree.cpp:151-154 | from the parent's link, the node's edge leads down to a point spelling the node's text less its first symbol, `edgeFinish - edgeStart` symbols below the link |
| TreeLabels.Unique | D3_suf_tree.cpp:155-163 | two points of equal depth that spell the same text are the same point |
| TreeLabels.StepDown | D3_suf_tree.cpp:156-158 | `getNextPosition` at a node on the way to a point, on the next symbol of its text, is the next point on that way |
| TreeReads.GoDeeper | D3_suf_tree.cpp:107-113 | `go` on a symbol `canGo` accepts is one symbol deeper, below `parentRoot_`, and reads that symbol last |
| TreeReads.NextDeeper | D3_suf_tree.cpp:115-123 | `getNextPosition` from a node is a point one symbol deeper than the node |
| TreeSteps.GoLab | D3_suf_tree.cpp:46 | the final `go` of `add` reaches a point spelling the active suffix followed by the new symbol |
| TreeSteps.AdvanceTracks | D3_suf_tree.cpp:46 | after the final `go`, the invariant holds for the text with the new symbol at the new point, which ends within the text |
| TreeSteps.NewSuffix | D3_suf_tree.cpp:41-46 | once the active suffix plus the new symbol is spelled, every suffix of the new text is spelled |
| TreeSteps.InitTracks | D3_suf_tree.cpp:23-26 | the two-node tree with the active point at the root keeps the invariant for the empty text |
| TreeSteps.PushTracks | D3_suf_tree.cpp:40 | appending to the text keeps the invariant for the text read before |
| TreeSteps.LinkSpells | D3_suf_tree.cpp:44 | a fitting link of a node spelling `text[b..n)` spells `text[b + 1..n)` |
| TreeSteps.MadeSpells | D3_suf_tree.cpp:42 | the node `makeNode` returns spells what the point it was made at spelled |
| Tree.SuffixTree.FindCounts | D3_suf_tree.cpp:167-177 | every node below the start gets its string length from its parent's plus its edge, and its count: 1 at a leaf, the sum over its children otherwise |
| Tree.FindCountsOn | D3_suf_tree.cpp:167-177 | the recursion computes `CountedAll` from the given node |
| TreeCounts.CountIsLeaves | D3_suf_tree.cpp:167-177 | the count `findCounts` computes from zero at a node is its number of leaves |
| TreeCounts.PostOrderIn | D3_suf_tree.cpp:215-220 | `findRefren` from a node visits exactly the nodes of its subtree |
| TreeCounts.PostOrderDistinct | D3_suf_tree.cpp:215-220 | `findRefren` visits each node once |
| TreeRefren.CountedMeaning | D3_suf_tree.cpp:167-177 | after `findCounts` from the root on zero counts, every node's count is its number of leaves and its `lengthOfSubstring` is its string depth |
| TreeRefren.RefrenFinder.constructor | D3_suf_tree.cpp:198-202 | the finder starts with value -1 and no node, over a fresh tree of `string_ + '$'` that keeps the invariant and is counted |
| TreeRefren.RefrenFinder.GetRefren | D3_suf_tree.cpp:205-212 | the chosen node is `RelaxAll` over the post-order from the root, and is a real node. The string is the node's text cut out of the whole text, without the final `$` when the node is a leaf, whose value then loses 1 |
| TreeRefren.RefrenFinder.CutRefren | D3_suf_tree.cpp:207-211 | the cut uses the node's start index and length and stays within the text; a leaf loses its `$` and one from its value |
| TreeRefren.RefrenFinder.FindRefren | D3_suf_tree.cpp:215-220 | the choice after `findRefren(x)` is `RelaxAll` over the post-order of `x`'s subtree, from the choice held before |
| TreeRefren.RefrenFinder.FindOver | D3_suf_tree.cpp:216-218 | the loop over the children, in key order, relaxes over their subtrees in turn |
| TreeRefren.RefrenFinder.RelaxRefren | D3_suf_tree.cpp:222-231 | a node of larger value replaces the choice; on an equal value, a node no longer than the chosen one replaces it |
| TreeRefren.RelaxAllBest | D3_suf_tree.cpp:222-231 | relaxing a post-order of nonnegative values from no choice picks a node of the largest value, the shortest among those of largest value, and every node of that value relaxed after it is strictly longer |
| TreeRefren.RootChooses | D3_suf_tree.cpp:205-209 | relaxing over the whole tree always chooses a real node, so `refrenNode` is never null when `getRefren` reads it |
| TreeRefren.RefrenIsBest | D3_suf_tree.cpp:205-235 | on a counted tree, the choice maximises leaves times string depth over all nodes, is the shallowest of those of largest value, and every node of that value visited after it is deeper |
| TreeRefren.BestMeaning | D3_suf_tree.cpp:222-235 | a relaxed choice over the post-order, read through counts and depths, is best by number of leaves times string depth |
| TreeRefren.StartFits | D3_suf_tree.cpp:207-211 | a counted node's text starts within the text, and a leaf's text is not empty |
| TreeRefren.Substr | D3_suf_tree.cpp:209 | `substr(pos, n)` is the text from `pos`, at most `n` symbols long and exactly `n` when the text is long enough |

## Left out

- Input and output are not modelled: `GetInput`, `GetOutput`, `Solve`, `get_input`, `get_output`,
  `process` and `main` read and write streams. The refren finders' results are returned as the
  value and the string the `Answer` would hold.
- `Test` and `GenerateString` use a random generator and only run assertions. What they check is
  listed in the next three lines.
- SuffixAutomaton.Find: not tied to the text. The model proves that `Find` reads along transitions
  (`Follow`), and that what it accepts is closed under prefixes. It does not prove that `Find`
  accepts exactly the substrings of the text added, which `Test` asserts. That needs the textbook
  invariant tying every state to the set of substrings it recognises (end-position classes). The
  automaton model keeps no copy of the text, and proving that invariant for the always-clone
  construction is a proof of its own size.
- AutomatonArena.Sound: the claim that every transition leads to a strictly longer state is not
  proved. The automaton's DAG is shown acyclic with a ghost topological rank instead, which is all
  that termination and the counting need. With always-clone, a clone may be as long as the state
  it copies, so the claim rests on the same semantic invariant as `Find`.
- Automaton.AddedAllSize: the state-count bound is proved as at most `2n + 1` states after `n`
  symbols, not the textbook `2n - 1`. The construction clones on every step that reaches a state,
  even a solid one, so the tighter bound need not hold for it.
- Automaton.RedirectAlongLinks: the loop guard also tests `c in r[at].children`. The source reads
  `last->children[c]` with `operator[]`, which inserts a null entry when the key is missing. Every
  state on the chain from the stopping state has a `c`-transition, but proving that needs the same
  semantic invariant as `Find`. So the model guards the read instead; on the states the source
  reaches, the guard is true and the behaviour is the same.
- Symbols are Dafny `char`s. A C++ `char` is a signed byte, so a symbol of the model stands for
  one byte only when its code is below 256; codes 128 to 255 stand for the negative `char`s and
  sort first (`Edges.Rank`). Symbols of code 256 or more have no C++ counterpart and sort by code.
  The wrap of `'a' + k` past 127 when the input is read is part of the input reading, which is
  left out.
- Integer widths are not modelled: `ssize_t` lengths, counts and products are unbounded integers.
  The source would overflow only past about 2^63, which its input sizes do not reach.
- Memory: `shared_ptr`, the destructors and the state that the always-clone construction leaves
  unreachable are not modelled. Pointers are arena indices, so two programs that share a node
  share its index.
- Tree.SuffixTree.AddString: requires `|text| + |s| <= sizeOfText`. The source calls `addString`
  only from the constructor, with the same string whose length becomes `sizeOfText_`. Leaves end
  at `sizeOfText_`, so adding more text would give leaves a window past their end.
- Tree.SuffixTree.Add: requires `|text| < sizeOfText`, for the same reason.
- The trivial accessors `getRoot`, `getString` and `getSizeOfText` are the class's fields `Root`,
  `text` and `sizeOfText`.
- The tree's `Node::getLength` and `Node::getStartIndex` are the functions `TreeReads.GetLength`
  and `TreeReads.GetStartIndex`. They appear inside `GetNextPosition` and `CutRefren`.

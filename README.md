# Ontology topic index, modelled in Dafny

`ont.py` answers queries about questions filed under a tree of topics. The tree arrives in a
flat prefix notation (`A ( B ( D ) C )`). `TopicGraph.buildTree` reads it with a parent stack and
a child stack, links every topic to its children, and sorts the vertices by the hash of their
names. `addQuestions` finds a topic (a bisection on the hashcodes, then a forward scan past hash
collisions) and inserts the question into that topic's character trie. `countQueries` walks the
topic's subtree breadth first and adds up, trie by trie, how many stored questions start with the
query text.

The model has six modules:

- `Wrappers` (`wrappers.dfy`): `Option` and `Result`.
- `Tries` (`trie.dfy`): `TrieNode` and `Trie` as classes over the heap.
  - Ghost state sits beside them: the inserted words (`Words`), the node reached by each path
    (`At`) and the footprint (`Nodes`).
  - Every count is tied to `PrefixCount`, the number of inserted words that start with a string.
- `FlatNotation` (`flat_notation.dfy`): topic trees as values, their flat notation, and the
  parser's two-stack loop as a pure state machine (`Step`, `Run`).
  - `ParseCorrect` proves what the loop ends in on the notation of any tree: both stacks empty,
    the topics numbered in preorder, and each topic given its subtopics in reverse order.
- `Topics` (`topics.dfy`): `TopicNode` as a class, and its breadth-first `Subtree` walk over a
  ghost `Tree` value. The `Tree` mirrors the linked children.
- `Shapes` (`shapes.dfy`): turns the parser's numbered result into the `Tree` of the linked
  nodes. It proves that this tree spells the input tree with every child list reversed
  (`Mirror`), and that it holds each made node exactly once.
- `TopicGraphs` (`topic_graph.dfy`): the `TopicGraph` class.
  - `BuildTree` follows the parser states step by step on the heap.
  - The sort is a stable insertion sort under `__gt__`.
  - Also here: `Find`, `AddQuestions` and `CountQueries`.

Python's `hash` is a parameter of the `TopicGraph` constructor (a `string -> int` function). Two
`TopicNode.__gt__` cases follow from how Python 2 compares objects that define only `__gt__`:

- `list.sort` asks `a < b`, which Python evaluates as `b.__gt__(a)`.
- `bisect_left` asks `a[mid] < probe`, which Python evaluates as `probe.__gt__(a[mid])`.

So both order the vertices by hashcode. The failure paths of `find` are modelled as written:

- When the bisection point lies past the last vertex, the `vertices[idx]` inside the `try` raises
  `IndexError`. The bare `except` catches it. The `while` condition then indexes the same slot
  again, which raises `IndexError` out of `find`.
- Otherwise a name that is found nowhere from the bisection point to the last slot ends in the
  `while … else` and raises `KeyError`.

`Find` returns these as `Err(IndexError)` and `Err(KeyError)`. `count_prefix("")` answers the
root's `downWords`, which `insert` never raises, so it is 0 (`Answer`, `PrefixCountEmpty`).

## Model

| member | source | states |
|---|---|---|
| Tries.TrieNode.constructor | ont.py:12-14 | a new node has no pointers and a count of 0 |
| Tries.Trie.constructor | ont.py:25-26 | a new trie is valid and holds no words |
| Tries.Trie.Insert | ont.py:28-36 | the trie stays valid and its words become the old words plus the sentence; old paths keep their nodes; new paths are non-empty prefixes of the sentence |
| Tries.Trie.WalkPath | ont.py:29-36 | the loop of insert: afterwards every node on the sentence's path counts one more word, the missing nodes of the path exist, and no other path is added |
| Tries.Trie.Descend | ont.py:30-36 | one character of insert: the node for the next prefix exists afterwards with its count raised, and the node reached is that node |
| Tries.Trie.Link | ont.py:31-33 | a missing character gets a fresh node with count 0, added to the pointers and to the path map with nothing else changed |
| Tries.Trie.Completed | ont.py:28-36 | after the last character, every node's downWords is the number of words having its path as a prefix |
| Tries.Trie.CountsDescend | ont.py:31-35 | a node's count is never above its parent's |
| Tries.Trie.CountPrefix | ont.py:38-49 | for a non-empty query the answer is the number of inserted words starting with it; for the empty query the answer is 0; a path with no node answers 0 |
| Tries.PrefixCountZero | ont.py:45-46 | the count is 0 exactly when no inserted word has the query as a prefix |
| Tries.UnreachedPrefixCount | ont.py:44-46 | a query whose path has no node has count 0 |
| Tries.PrefixCountMonotone | ont.py:43-49 | extending the query never raises the count |
| Tries.PrefixCountEmpty | ont.py:43-49 | every word has the empty prefix, yet count_prefix("") answers 0 |
| Tries.PrefixCountPermutation | ont.py:28-36 | the counts depend only on the multiset of inserted words, not on their order |
| Tries.AnswerEmptyInsert | ont.py:28-36 | inserting the empty sentence changes no answer |
| Topics.TopicNode.constructor | ont.py:70-74 | the node has its name, the hash of the name, no children and a valid empty trie of its own |
| Topics.GreaterThanOrder | ont.py:76-77 | `TopicNode.GreaterThan` (`__gt__`, a hashcode comparison) is a strict weak order: irreflexive, asymmetric and transitive, and incomparable nodes have equal hashcodes |
| Topics.TopicNode.Subtree | ont.py:79-87 | the walk yields this node first and yields every node of its subtree exactly as often as the subtree holds it, so each node once when they are distinct |
| Topics.WalkStep | ont.py:83-87 | one pop-and-extend keeps the queue equal to the roots of the pending subtrees and shrinks what is left to visit |
| Topics.QueueNodes | ont.py:84-86 | popping a subtree and queueing its children keeps every node still to be visited, minus the popped one |
| Topics.MirrorsUnique | ont.py:79-87 | the linked children determine the subtree of a node completely |
| Topics.SubtreeOf | ont.py:79-87 | every node of a tree roots a subtree of it |
| Topics.SubtreeMirrors | ont.py:79-87 | every subtree of a tree that matches the links also matches them |
| Topics.SubtreeNodes | ont.py:79-87 | the nodes of a subtree are nodes of the tree |
| Topics.TotalConcat | ont.py:177-179 | the summed count over two node lists is the sum of their sums |
| Topics.TotalPermutation | ont.py:177-179 | the summed count does not depend on the order of the visit |
| FlatNotation.Start | ont.py:109-111 | the root is node 0 with the first name and is current; neither stack holds it |
| FlatNotation.Run | ont.py:114-136 | the token loop as repeated steps: a completed run keeps the state well formed and never has fewer nodes than it started with |
| FlatNotation.RunKeepsNames | ont.py:114-136 | a completed run keeps every name read so far, in order, at the front of the node names |
| FlatNotation.Drain | ont.py:128-130 | the pops split the child stack into what stays (empty or with the parent on top) and the popped part, which does not hold the parent |
| FlatNotation.DrainSplit | ont.py:128-130 | the popping stops at the last occurrence of the parent on the stack |
| FlatNotation.Step | ont.py:114-136 | one token keeps the state well formed and never loses a node; it fails exactly on a ")" with either stack empty |
| FlatNotation.RunConcat | ont.py:114-136 | running two token lists is running the first and then the second |
| FlatNotation.ParseTree | ont.py:114-136 | the tokens of a subtree append its topics in preorder and give each topic its subtopics, last one first |
| FlatNotation.ParseForest | ont.py:114-136 | the same for a sequence of sibling subtrees |
| FlatNotation.CloseStep | ont.py:120-130 | a ")" hands the node's child ids to it in reverse stack order and pops back to the node |
| FlatNotation.ParseCorrect | ont.py:100-136 | on the notation of any tree, the loop ends with both stacks empty, the topics in preorder, and every topic's children in reverse |
| FlatNotation.MirrorSize | ont.py:120-130 | reversing the child lists keeps the number of topics |
| Shapes.ShapeErase | ont.py:120-136 | the linked tree spells the input tree with its child lists reversed |
| Shapes.ShapeMirrors | ont.py:120-130 | the tree built from the parser's child ids matches the children linked on the heap |
| Shapes.MadeShape | ont.py:100-138 | the linked tree matches the links, spells the reversed input, and has exactly the made nodes, each once when they are distinct |
| Shapes.MadeNodes | ont.py:109-136 | the nodes of the linked tree are exactly the made nodes, each once when they are distinct |
| TopicGraphs.Insort | ont.py:138 | inserting one node into a hash-sorted list keeps it sorted and adds only that node |
| TopicGraphs.InsortPermutation | ont.py:138 | the insertion adds that node to the multiset and nothing else |
| TopicGraphs.SortByHash | ont.py:138 | the sorted vertices are in ascending hashcode order and as many as before |
| TopicGraphs.SortPermutation | ont.py:138 | the sort is a permutation |
| TopicGraphs.SortMembers | ont.py:138 | the sort keeps the same members and keeps them distinct |
| TopicGraphs.BisectLeft | ont.py:145 | the bisection point splits the vertices into hashcodes below the probe's and hashcodes not below it |
| TopicGraphs.FirstNamed | ont.py:148-157 | the first slot holding the name, or the length when no slot holds it |
| TopicGraphs.SumCounts | ont.py:177-179 | the accumulated count is the summed prefix count of the visited tries |
| TopicGraphs.MakeWired | ont.py:132-136 | a name token makes a childless node that becomes current and goes onto the child stack |
| TopicGraphs.PopStep | ont.py:120-130 | the ")" step in terms of the part the inner loop pops |
| TopicGraphs.PopChild | ont.py:121-130 | moving one more node from the child stack to the parent's children keeps both lists in step with the number lists |
| TopicGraphs.CloseWired | ont.py:120-130 | after a ")" the heap links agree with the new parser state |
| TopicGraphs.TopicGraph.constructor | ont.py:95-97 | the graph has N empty slots and no tree yet |
| TopicGraphs.TopicGraph.BuildTree | ont.py:100-138 | every slot holds a vertex, the vertices are sorted and are exactly the nodes of a linked tree that spells the input with reversed child lists, and every trie is empty |
| TopicGraphs.TopicGraph.Walk | ont.py:105-136 | the loop over the tokens leaves the heap agreeing with the parser's final state |
| TopicGraphs.TopicGraph.Begin | ont.py:109-111 | the root is made and put into slot 0 |
| TopicGraphs.TopicGraph.Advance | ont.py:114-136 | one token moves the heap to the parser's next state |
| TopicGraphs.TopicGraph.Close | ont.py:120-130 | a ")" gives the parent its children from the child stack, in pop order |
| TopicGraphs.TopicGraph.MakeNode | ont.py:132-136 | a name token makes a fresh node in the next slot and pushes it onto the child stack |
| TopicGraphs.TopicGraph.SlottedClose | ont.py:120-130 | a ")" leaves the slots and current unchanged |
| TopicGraphs.TopicGraph.BuiltFinal | ont.py:114-136 | after the loop, the slots hold the preorder topics, all distinct, with the children the notation gives them |
| TopicGraphs.TopicGraph.Finish | ont.py:138 | after the sort the graph is valid and spells the reversed input |
| TopicGraphs.TopicGraph.SortedValid | ont.py:138 | the sorted vertices satisfy the graph's invariant |
| TopicGraphs.TopicGraph.Find | ont.py:141-157 | a found index is the first slot with the name; it fails exactly when no slot has the name, with IndexError exactly when every hashcode is below the name's hash |
| TopicGraphs.TopicGraph.AddQuestions | ont.py:160-167 | the question is added to the trie of the found vertex only; every other trie is unchanged; the error cases are those of find |
| TopicGraphs.TopicGraph.InsertAt | ont.py:167 | one vertex's trie gets the question and no other vertex's trie changes |
| TopicGraphs.TopicGraph.CountQueries | ont.py:169-181 | the answer is the summed prefix count over the subtree of the found vertex; the error cases are those of find |

## Left out

- `main` (ont.py:183-198) reads standard input and prints. It is not modelled.
- Python's `hash` is a parameter, `string -> int`. Hash randomisation and the hash's width play
  no part.
- Splitting lines into words is left out. This covers `flatTree.strip().split(' ')` (ont.py:105),
  `information.split(': ')` (ont.py:165) and `q.split(' ', 1)` (ont.py:175). The methods take the
  parts as parameters.
- TopicGraphs.TopicGraph.BuildTree: malformed input is a precondition. The precondition asks
  for three things:
  - the tokens are the notation of a tree (`raw == Flat(t)`);
  - no topic is named `(` or `)`;
  - the tree has exactly `N` topics.

  The source does not reject every malformed input; what it does depends on the kind:
  - A surplus `)` makes `par_stack.pop()` or `child_stack.pop()` (ont.py:121-122) raise
    `IndexError`.
  - More names than `N` make the slot assignment at ont.py:135 raise `IndexError`.
  - An unclosed `(`, as in `A ( B`, ends without error. B stays on the child stack, no parent
    ever gets it as a child, and it still sits in `vertices`.
  - A name after the root's group, as in `A ( B ) C`, also ends without error. C is made at
    ont.py:133-136 and left in `vertices` with no parent.
  - Fewer names than `N` leave `None` slots. `vertices.sort()` (ont.py:138) then compares `None`
    with a node. Python 2 finds no comparison on `None` and calls the node's reflected `__gt__`,
    and `other.hashcode` (ont.py:77) raises `AttributeError`. So `buildTree` fails rather than
    reordering the slots.

  None of these outcomes is modelled.
- TopicGraphs.TopicGraph.BuildTree: its contract states the graph's invariant (sorted, the nodes
  of the linked tree, each once), not which permutation the stable sort picks among equal
  hashcodes. `Find` and `CountQueries` are stated for whatever order results.
- TopicGraphs.TopicGraph.Finish: `vertices.sort()` is modelled as assigning `SortByHash` of the
  vertices, a stable insertion sort on a sequence value. It is not an in-place sort.
- Topics.TopicNode.Subtree: the generator becomes a method that returns every yielded node in one
  sequence. Its contract states which nodes are visited, and how often, and that the first is
  the node itself. The breadth-first order is kept in the loop but not stated. No sum depends on
  that order (`TotalPermutation`).
- A `children` of `None` is modelled as the empty list. The source only ever tests it for `None`
  before appending or extending, so the two behave the same.
- A Dafny `char` stands for one element of a Python 2 `str`. `raw_input` returns bytes, so
  `for char in sentence` (ont.py:30, 44) walks bytes. The tries compare elements only for
  equality, so no behaviour is lost. No encoding is modelled.
- Duplicate topic names are allowed, as in the source. `Find` answers the first slot with the name.
- `assert` under `python -O` is left out. With `-O`, the assertion in `find` (ont.py:149) is
  dropped and `find` would return the bisection point unchecked. The model follows the normal
  interpreter.

/** Topic nodes, the ghost trees that describe what their children fields link together, and
    the breadth-first subtree walk. */
module Topics {
  import opened Tries

  class TopicNode {
    const topicName: string
    var children: seq<TopicNode>
    const hashcode: int
    const question: Trie

    /** A leaf topic with an empty question trie; hash stands for the hash of the host language. */
    constructor (topicName: string, hash: string -> int)
      ensures this.topicName == topicName && hashcode == hash(topicName) && children == []
      ensures fresh(question) && fresh(question.Nodes) && question.Valid() && question.Words == []
    {
      this.topicName := topicName;
      children := [];
      hashcode := hash(topicName);
      question := new Trie();
    }

    /** __gt__: topics are compared by their hashcodes only. */
    predicate GreaterThan(other: TopicNode) {
      hashcode > other.hashcode
    }

    /** subtree: a breadth-first walk from this node along children, with a queue. The walk
        yields this node first, and exactly the nodes of the tree rooted here, each as often
        as the tree holds it: once each when the tree has no shared node. */
    method Subtree(ghost t: Tree) returns (order: seq<TopicNode>)
      requires t.node == this && Mirrors(t)
      ensures |order| >= 1 && order[0] == this
      ensures multiset(order) == multiset(NodesOf(t))
      ensures Distinct(NodesOf(t)) ==> Distinct(order)
    {
      var queue := [this];
      ghost var pending := [t];
      order := [];
      assert NodesOfAll(pending) == NodesOf(t);
      while queue != []
        invariant Walking(t, order, queue, pending)
        decreases |NodesOfAll(pending)|
      {
        ghost var n0 := |NodesOfAll(pending)|;
        WalkStep(t, order, queue, pending);
        order, queue, pending := order + [queue[0]], queue[1..] + queue[0].children, pending[1..] + pending[0].kids;
        assert |NodesOfAll(pending)| < n0;
      }
      assert NodesOfAll(pending) == [];
      PermutationFacts(order, NodesOf(t));
    }
  }

  /** __gt__ is a strict weak order: irreflexive, asymmetric and transitive, and two nodes
      neither of which is greater than the other have equal hashcodes. This is what list.sort
      and bisect_left rely on. */
  lemma GreaterThanOrder(a: TopicNode, b: TopicNode, c: TopicNode)
    ensures !a.GreaterThan(a)
    ensures a.GreaterThan(b) ==> !b.GreaterThan(a)
    ensures a.GreaterThan(b) && b.GreaterThan(c) ==> a.GreaterThan(c)
    ensures !a.GreaterThan(b) && !b.GreaterThan(a) ==> a.hashcode == b.hashcode
  {
  }

  /** The state of the walk over t: order visited, the queue holds the roots of the pending
      trees, each of which mirrors the heap, and visited and pending nodes make up t. */
  ghost predicate Walking(t: Tree, order: seq<TopicNode>, queue: seq<TopicNode>, pending: seq<Tree>)
    reads set i, n | 0 <= i < |pending| && n in NodesOf(pending[i]) :: n
  {
    && queue == Roots(pending)
    && (forall i :: 0 <= i < |pending| ==> Mirrors(pending[i]))
    && multiset(order) + multiset(NodesOfAll(pending)) == multiset(NodesOf(t))
    && (order == [] ==> pending == [t])
    && (order != [] ==> order[0] == t.node)
  }

  lemma WalkStep(t: Tree, order: seq<TopicNode>, queue: seq<TopicNode>, pending: seq<Tree>)
    requires Walking(t, order, queue, pending) && queue != []
    ensures Walking(t, order + [queue[0]], queue[1..] + queue[0].children, pending[1..] + pending[0].kids)
    ensures |NodesOfAll(pending[1..] + pending[0].kids)| < |NodesOfAll(pending)|
  {
    QueueNodes(pending);
    QueueMirrors(pending);
    QueueRoots(pending);
  }

  /** One step of the walk: the head of the queue leaves, its subtrees join at the back; the
      nodes still to visit lose exactly the head's node. */
  lemma QueueNodes(pending: seq<Tree>)
    requires pending != []
    ensures multiset(NodesOfAll(pending))
      == multiset{pending[0].node} + multiset(NodesOfAll(pending[1..] + pending[0].kids))
    ensures |NodesOfAll(pending[1..] + pending[0].kids)| < |NodesOfAll(pending)|
  {
    NodesOfAllConcat(pending[1..], pending[0].kids);
  }

  /** The queue stays the roots of the pending trees. */
  lemma QueueRoots(pending: seq<Tree>)
    requires pending != [] && pending[0].node.children == Roots(pending[0].kids)
    ensures Roots(pending[1..] + pending[0].kids) == Roots(pending)[1..] + pending[0].node.children
  {
  }

  /** Every pending tree keeps mirroring the heap. */
  lemma QueueMirrors(pending: seq<Tree>)
    requires pending != []
    requires forall i :: 0 <= i < |pending| ==> Mirrors(pending[i])
    ensures pending[0].node.children == Roots(pending[0].kids)
    ensures forall i :: 0 <= i < |pending| - 1 + |pending[0].kids| ==>
      Mirrors((pending[1..] + pending[0].kids)[i])
  {
    var g := pending[0];
    assert Mirrors(g);
    var q := pending[1..] + g.kids;
    forall i | 0 <= i < |q| ensures Mirrors(q[i]) {
      if i < |pending| - 1 {
        assert q[i] == pending[i + 1];
      } else {
        assert q[i] == g.kids[i - |pending| + 1];
      }
    }
  }

  /** The shape of a linked topic tree, as a value: a node and the trees of its children. */
  datatype Tree = Branch(node: TopicNode, kids: seq<Tree>)

  function Roots(ts: seq<Tree>): (r: seq<TopicNode>)
    ensures |r| == |ts| && forall i :: 0 <= i < |ts| ==> r[i] == ts[i].node
  {
    seq(|ts|, i requires 0 <= i < |ts| => ts[i].node)
  }

  /** The nodes of a tree in preorder. */
  function NodesOf(t: Tree): (r: seq<TopicNode>)
    ensures |r| >= 1 && r[0] == t.node
    ensures forall i, n :: 0 <= i < |t.kids| && n in NodesOf(t.kids[i]) ==> n in r
    decreases t, 0
  {
    NodesOfAllHas(t.kids);
    [t.node] + NodesOfAll(t.kids)
  }

  function NodesOfAll(ts: seq<Tree>): seq<TopicNode>
    decreases ts, 1
  {
    if ts == [] then [] else NodesOf(ts[0]) + NodesOfAll(ts[1..])
  }

  lemma {:induction false} NodesOfAllHas(ts: seq<Tree>)
    ensures forall i, n :: 0 <= i < |ts| && n in NodesOf(ts[i]) ==> n in NodesOfAll(ts)
    decreases ts, 2
  {
    if ts != [] {
      NodesOfAllHas(ts[1..]);
      forall i, n | 0 <= i < |ts| && n in NodesOf(ts[i]) ensures n in NodesOfAll(ts) {
        if i > 0 {
          assert ts[i] == ts[1..][i - 1];
        }
      }
    }
  }

  lemma {:induction false} NodesOfAllConcat(a: seq<Tree>, b: seq<Tree>)
    ensures NodesOfAll(a + b) == NodesOfAll(a) + NodesOfAll(b)
    decreases |a|
  {
    if a == [] {
      assert a + b == b;
    } else {
      assert (a + b)[0] == a[0] && (a + b)[1..] == a[1..] + b;
      NodesOfAllConcat(a[1..], b);
    }
  }

  /** Every node's children field lists exactly the roots of its subtrees, in order. */
  ghost predicate Mirrors(t: Tree)
    reads set n | n in NodesOf(t)
    decreases t
  {
    && t.node.children == Roots(t.kids)
    && forall i | 0 <= i < |t.kids| :: Mirrors(t.kids[i])
  }

  /** No element occurs twice. */
  ghost predicate Distinct<T>(s: seq<T>) {
    forall j, k :: 0 <= j < k < |s| ==> s[j] != s[k]
  }

  lemma {:induction false} DistinctCount<T>(s: seq<T>, x: T)
    requires Distinct(s)
    ensures multiset(s)[x] <= 1
    decreases |s|
  {
    if s != [] {
      var s' := s[..|s| - 1];
      assert s == s' + [s[|s| - 1]];
      DistinctCount(s', x);
      if s[|s| - 1] == x {
        assert x !in s';
      }
    }
  }

  /** Two sequences with the same elements, counted with multiplicity, have the same members,
      and one is free of repeats when the other is. */
  lemma PermutationFacts<T>(a: seq<T>, b: seq<T>)
    requires multiset(a) == multiset(b)
    ensures forall x :: x in a ==> x in b
    ensures forall x :: x in b ==> x in a
    ensures Distinct(b) ==> Distinct(a)
  {
    forall x ensures x in a <==> x in b {
      assert x in a <==> x in multiset(a);
    }
    if Distinct(b) {
      forall j, k | 0 <= j < k < |a| ensures a[j] != a[k] {
        if a[j] == a[k] {
          var x := a[j];
          assert a == a[..k] + [x] + a[k + 1..];
          assert x in a[..k];
          assert multiset(a)[x] >= 2;
          DistinctCount(b, x);
        }
      }
    }
  }

  /** The subtrees of t, t first, in preorder. */
  function Subtrees(t: Tree): (r: seq<Tree>)
    ensures |r| >= 1 && r[0] == t
    decreases t
  {
    [t] + SubtreesAll(t.kids)
  }

  function SubtreesAll(ts: seq<Tree>): seq<Tree>
    decreases ts
  {
    if ts == [] then [] else Subtrees(ts[0]) + SubtreesAll(ts[1..])
  }

  /** Every node of t roots a subtree of t, and that subtree mirrors the heap as t does. */
  lemma {:induction false} SubtreeOf(t: Tree, n: TopicNode)
    requires n in NodesOf(t)
    ensures exists u :: u in Subtrees(t) && u.node == n
    decreases t, 1
  {
    if n != t.node {
      SubtreeOfAll(t.kids, n);
    }
  }

  lemma {:induction false} SubtreeOfAll(ts: seq<Tree>, n: TopicNode)
    requires n in NodesOfAll(ts)
    ensures exists u :: u in SubtreesAll(ts) && u.node == n
    decreases ts, 0
  {
    if n in NodesOf(ts[0]) {
      SubtreeOf(ts[0], n);
    } else {
      SubtreeOfAll(ts[1..], n);
    }
  }

  lemma {:induction false} SubtreeMirrors(t: Tree, u: Tree)
    requires Mirrors(t) && u in Subtrees(t)
    ensures Mirrors(u)
    decreases t, 1
  {
    if u != t {
      SubtreeMirrorsAll(t.kids, u);
    }
  }

  lemma {:induction false} SubtreeMirrorsAll(ts: seq<Tree>, u: Tree)
    requires (forall i | 0 <= i < |ts| :: Mirrors(ts[i])) && u in SubtreesAll(ts)
    ensures Mirrors(u)
    decreases ts, 0
  {
    if u in Subtrees(ts[0]) {
      SubtreeMirrors(ts[0], u);
    } else {
      SubtreeMirrorsAll(ts[1..], u);
    }
  }

  /** The nodes of a subtree are nodes of the tree. */
  lemma {:induction false} SubtreeNodes(t: Tree, u: Tree)
    requires u in Subtrees(t)
    ensures forall n :: n in NodesOf(u) ==> n in NodesOf(t)
    decreases t, 1
  {
    if u != t {
      SubtreeNodesAll(t.kids, u);
    }
  }

  lemma {:induction false} SubtreeNodesAll(ts: seq<Tree>, u: Tree)
    requires u in SubtreesAll(ts)
    ensures forall n :: n in NodesOf(u) ==> n in NodesOfAll(ts)
    decreases ts, 0
  {
    NodesOfAllHas(ts);
    if u in Subtrees(ts[0]) {
      SubtreeNodes(ts[0], u);
    } else {
      SubtreeNodesAll(ts[1..], u);
      assert NodesOfAll(ts) == NodesOf(ts[0]) + NodesOfAll(ts[1..]);
    }
  }

  /** The heap determines the tree below a node: two trees that both mirror it from the same
      root are the same tree. */
  lemma {:induction false} MirrorsUnique(u: Tree, v: Tree)
    requires Mirrors(u) && Mirrors(v) && u.node == v.node
    ensures u == v
    decreases u
  {
    assert Roots(u.kids) == Roots(v.kids);
    forall i | 0 <= i < |u.kids| ensures u.kids[i] == v.kids[i] {
      MirrorsUnique(u.kids[i], v.kids[i]);
    }
  }

  /** The questions of the nodes ns that start with p, as count_prefix counts them. */
  ghost function Total(ns: seq<TopicNode>, p: string): int
    reads set n | n in ns :: n.question
  {
    if ns == [] then 0 else Total(ns[..|ns| - 1], p) + Answer(ns[|ns| - 1].question.Words, p)
  }

  lemma TotalAppend(a: seq<TopicNode>, n: TopicNode, p: string)
    ensures Total(a + [n], p) == Total(a, p) + Answer(n.question.Words, p)
  {
    assert (a + [n])[..|a|] == a;
  }

  lemma {:induction false} TotalConcat(a: seq<TopicNode>, b: seq<TopicNode>, p: string)
    ensures Total(a + b, p) == Total(a, p) + Total(b, p)
    decreases |b|
  {
    if b == [] {
      assert a + b == a;
    } else {
      var b' := b[..|b| - 1];
      assert a + b == (a + b') + [b[|b| - 1]];
      assert b == b' + [b[|b| - 1]];
      TotalAppend(a + b', b[|b| - 1], p);
      TotalAppend(b', b[|b| - 1], p);
      TotalConcat(a, b', p);
    }
  }

  /** countQueries adds a sum, so the order in which the walk visits the nodes does not matter. */
  lemma {:induction false} TotalPermutation(a: seq<TopicNode>, b: seq<TopicNode>, p: string)
    requires multiset(a) == multiset(b)
    ensures Total(a, p) == Total(b, p)
    decreases |a|
  {
    if a != [] {
      var n := a[|a| - 1];
      var a' := a[..|a| - 1];
      assert a == a' + [n];
      assert n in multiset(b);
      var k :| 0 <= k < |b| && b[k] == n;
      var b' := b[..k] + b[k + 1..];
      assert b == b[..k] + [n] + b[k + 1..];
      assert multiset(a') == multiset(a) - multiset{n};
      assert multiset(b') == multiset(b) - multiset{n};
      TotalPermutation(a', b', p);
      TotalConcat(b[..k] + [n], b[k + 1..], p);
      TotalConcat(b[..k], b[k + 1..], p);
      TotalAppend(b[..k], n, p);
      TotalAppend(a', n, p);
    } else {
      assert |b| == |multiset(b)| == 0;
    }
  }
}

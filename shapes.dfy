/** How the nodes buildTree makes, numbered in the order it reads their names, form the
    tree of the flat notation: the ghost Tree of the linked nodes, and what it is as a tree
    of names. */
module Shapes {
  import opened FlatNotation
  import opened Topics

  /** The node numbers xs name the nodes ns, among the nodes made. */
  ghost predicate Denotes(made: seq<TopicNode>, xs: seq<nat>, ns: seq<TopicNode>) {
    |xs| == |ns| && forall i :: 0 <= i < |xs| ==> xs[i] < |made| && made[xs[i]] == ns[i]
  }

  lemma DenotesAppend(made: seq<TopicNode>, xs: seq<nat>, ns: seq<TopicNode>, x: nat)
    requires Denotes(made, xs, ns) && x < |made|
    ensures Denotes(made, xs + [x], ns + [made[x]])
  {
  }

  lemma DenotesPrefix(made: seq<TopicNode>, xs: seq<nat>, ns: seq<TopicNode>, k: nat)
    requires Denotes(made, xs, ns) && k <= |xs|
    ensures Denotes(made, xs[..k], ns[..k])
  {
  }

  lemma DenotesUnique(made: seq<TopicNode>, xs: seq<nat>, a: seq<TopicNode>, c: seq<TopicNode>)
    requires Denotes(made, xs, a) && Denotes(made, xs, c)
    ensures a == c
  {
  }

  /** The tree of names that a linked tree spells, reading each node's name. */
  function Erase(u: Tree): NameTree
    decreases u
  {
    Topic(u.node.topicName, EraseAll(u.kids))
  }

  function EraseAll(us: seq<Tree>): seq<NameTree>
    decreases us
  {
    if us == [] then [] else [Erase(us[0])] + EraseAll(us[1..])
  }

  lemma {:induction false} EraseAllAppend(us: seq<Tree>, u: Tree)
    ensures EraseAll(us + [u]) == EraseAll(us) + [Erase(u)]
    decreases |us|
  {
    if us == [] {
      assert [u][1..] == [];
    } else {
      assert (us + [u])[1..] == us[1..] + [u];
      EraseAllAppend(us[1..], u);
    }
  }

  /** The linked tree that buildTree makes for t when t's nodes are made[b], made[b + 1], ...
      in preorder: every node gets its subtrees' roots in reverse order. */
  function ShapeOf(t: NameTree, b: nat, made: seq<TopicNode>): Tree
    requires b + Size(t) <= |made|
    decreases t
  {
    Branch(made[b], ShapesRev(t.subs, b + 1, made))
  }

  function ShapesRev(ts: seq<NameTree>, b: nat, made: seq<TopicNode>): seq<Tree>
    requires b + SizeAll(ts) <= |made|
    decreases ts
  {
    if ts == [] then [] else ShapesRev(ts[1..], b + Size(ts[0]), made) + [ShapeOf(ts[0], b, made)]
  }

  /** Spelled out, the linked tree is t with the children of every topic reversed. */
  lemma {:induction false} ShapeErase(t: NameTree, b: nat, made: seq<TopicNode>)
    requires b + Size(t) <= |made|
    requires forall k :: 0 <= k < Size(t) ==> made[b + k].topicName == Pre(t)[k]
    ensures Erase(ShapeOf(t, b, made)) == Mirror(t)
    decreases t, 1
  {
    assert made[b + 0].topicName == Pre(t)[0];
    forall k | 0 <= k < SizeAll(t.subs)
      ensures made[b + 1 + k].topicName == PreAll(t.subs)[k]
    {
      var j := 1 + k;
      assert made[b + j].topicName == Pre(t)[j];
    }
    ShapesRevErase(t.subs, b + 1, made);
  }

  lemma {:induction false} ShapesRevErase(ts: seq<NameTree>, b: nat, made: seq<TopicNode>)
    requires b + SizeAll(ts) <= |made|
    requires forall k :: 0 <= k < SizeAll(ts) ==> made[b + k].topicName == PreAll(ts)[k]
    ensures EraseAll(ShapesRev(ts, b, made)) == MirrorAll(ts)
    decreases ts, 0
  {
    if ts != [] {
      var n := Size(ts[0]);
      forall k | 0 <= k < n ensures made[b + k].topicName == Pre(ts[0])[k] {
        assert PreAll(ts)[k] == Pre(ts[0])[k];
      }
      forall k | 0 <= k < SizeAll(ts[1..])
        ensures made[b + n + k].topicName == PreAll(ts[1..])[k]
      {
        var j := n + k;
        assert made[b + j].topicName == PreAll(ts)[j];
      }
      ShapeErase(ts[0], b, made);
      ShapesRevErase(ts[1..], b + n, made);
      EraseAllAppend(ShapesRev(ts[1..], b + n, made), ShapeOf(ts[0], b, made));
    }
  }

  lemma {:induction false} ReverseCons<T>(x: T, s: seq<T>)
    ensures Reverse([x] + s) == Reverse(s) + [x]
    decreases |s|
  {
    if s == [] {
      assert [x][..0] == [];
    } else {
      var s' := s[..|s| - 1];
      assert ([x] + s)[..|s|] == [x] + s';
      ReverseCons(x, s');
    }
  }

  lemma RootsAppend(us: seq<Tree>, u: Tree)
    ensures Roots(us + [u]) == Roots(us) + [u.node]
  {
  }

  /** The roots of the reversed subtrees are the subtrees' root numbers, reversed. */
  lemma {:induction false} ShapesRevRoots(ts: seq<NameTree>, b: nat, made: seq<TopicNode>)
    requires b + SizeAll(ts) <= |made|
    ensures Denotes(made, Reverse(RootIds(ts, b)), Roots(ShapesRev(ts, b, made)))
    decreases ts
  {
    if ts != [] {
      var n := Size(ts[0]);
      ShapesRevRoots(ts[1..], b + n, made);
      ReverseCons(b, RootIds(ts[1..], b + n));
      RootsAppend(ShapesRev(ts[1..], b + n, made), ShapeOf(ts[0], b, made));
      DenotesAppend(made, Reverse(RootIds(ts[1..], b + n)), Roots(ShapesRev(ts[1..], b + n, made)), b);
    }
  }

  /** The linked tree mirrors the heap when every node's children are the nodes its
      children numbers name. */
  lemma {:induction false} ShapeMirrors(t: NameTree, b: nat, made: seq<TopicNode>)
    requires KidsDenoted(made, KidsOf(t, b), b)
    ensures Mirrors(ShapeOf(t, b, made))
    decreases t, 1
  {
    assert Denotes(made, KidsOf(t, b)[0], made[b].children);
    ShapesRevRoots(t.subs, b + 1, made);
    DenotesUnique(made, Reverse(RootIds(t.subs, b + 1)), made[b].children,
                  Roots(ShapesRev(t.subs, b + 1, made)));
    KidsOfSubs(t, b, made);
    ShapesRevMirrors(t.subs, b + 1, made, ShapesRev(t.subs, b + 1, made));
  }

  lemma {:induction false} ShapesRevMirrors(ts: seq<NameTree>, b: nat, made: seq<TopicNode>, rs: seq<Tree>)
    requires KidsDenoted(made, KidsAll(ts, b), b) && rs == ShapesRev(ts, b, made)
    ensures forall i :: 0 <= i < |rs| ==> Mirrors(rs[i])
    decreases ts, 0
  {
    if ts != [] {
      var n := Size(ts[0]);
      KidsAllSplit(ts, b, made);
      ShapeMirrors(ts[0], b, made);
      var rest := ShapesRev(ts[1..], b + n, made);
      ShapesRevMirrors(ts[1..], b + n, made, rest);
      MirrorsAppend(rest, ShapeOf(ts[0], b, made));
    }
  }

  /** The children of made[b + k] are the nodes that ks[k] numbers, for every k. */
  ghost predicate KidsDenoted(made: seq<TopicNode>, ks: seq<seq<nat>>, b: nat)
    reads set n | n in made
  {
    b + |ks| <= |made| && forall k :: 0 <= k < |ks| ==> Denotes(made, ks[k], made[b + k].children)
  }

  /** The children numbers of the nodes below t's root are those of its subtrees. */
  lemma KidsOfSubs(t: NameTree, b: nat, made: seq<TopicNode>)
    requires KidsDenoted(made, KidsOf(t, b), b)
    ensures KidsDenoted(made, KidsAll(t.subs, b + 1), b + 1)
  {
    var all := KidsOf(t, b);
    var rest := KidsAll(t.subs, b + 1);
    assert all == [all[0]] + rest;
    forall k | 0 <= k < |rest| ensures Denotes(made, rest[k], made[b + 1 + k].children) {
      assert rest[k] == all[k + 1];
    }
  }

  /** The children numbers of a forest split into those of its first tree and of the rest. */
  lemma KidsAllSplit(ts: seq<NameTree>, b: nat, made: seq<TopicNode>)
    requires ts != [] && KidsDenoted(made, KidsAll(ts, b), b)
    ensures KidsDenoted(made, KidsOf(ts[0], b), b)
    ensures KidsDenoted(made, KidsAll(ts[1..], b + Size(ts[0])), b + Size(ts[0]))
  {
    var first := KidsOf(ts[0], b);
    var rest := KidsAll(ts[1..], b + Size(ts[0]));
    assert KidsAll(ts, b) == first + rest;
    KidsDenotedSplit(made, first, rest, b);
  }

  /** Both halves of a denoted run of children lists are denoted, the second from b + |first| on. */
  lemma KidsDenotedSplit(made: seq<TopicNode>, first: seq<seq<nat>>, rest: seq<seq<nat>>, b: nat)
    requires KidsDenoted(made, first + rest, b)
    ensures KidsDenoted(made, first, b)
    ensures KidsDenoted(made, rest, b + |first|)
  {
    forall k | 0 <= k < |first| ensures Denotes(made, first[k], made[b + k].children) {
      assert (first + rest)[k] == first[k];
    }
    forall k | 0 <= k < |rest| ensures Denotes(made, rest[k], made[b + |first| + k].children) {
      assert (first + rest)[|first| + k] == rest[k];
    }
  }

  lemma MirrorsAppend(rest: seq<Tree>, first: Tree)
    requires forall i :: 0 <= i < |rest| ==> Mirrors(rest[i])
    requires Mirrors(first)
    ensures forall i :: 0 <= i < |rest + [first]| ==> Mirrors((rest + [first])[i])
  {
  }

  /** made[lo], ..., made[hi - 1]. */
  function Span(made: seq<TopicNode>, lo: nat, hi: nat): (r: seq<TopicNode>)
    requires lo <= hi <= |made|
    ensures |r| == hi - lo
    decreases hi - lo
  {
    if lo == hi then [] else [made[lo]] + Span(made, lo + 1, hi)
  }

  lemma {:induction false} SpanSplit(made: seq<TopicNode>, lo: nat, mid: nat, hi: nat)
    requires lo <= mid <= hi <= |made|
    ensures Span(made, lo, hi) == Span(made, lo, mid) + Span(made, mid, hi)
    decreases mid - lo
  {
    if lo < mid {
      SpanSplit(made, lo + 1, mid, hi);
    }
  }

  lemma {:induction false} SpanAll(made: seq<TopicNode>, lo: nat)
    requires lo <= |made|
    ensures Span(made, lo, |made|) == made[lo..]
    decreases |made| - lo
  {
    if lo < |made| {
      SpanAll(made, lo + 1);
      assert made[lo..] == [made[lo]] + made[lo + 1..];
    }
  }

  /** The linked tree holds exactly the nodes made for t. (The sequences are passed in
      already computed, which keeps the multiset reasoning to plain variables.) */
  lemma {:induction false} ShapeNodes(t: NameTree, b: nat, made: seq<TopicNode>,
                                      ns: seq<TopicNode>, span: seq<TopicNode>)
    requires b + Size(t) <= |made|
    requires ns == NodesOf(ShapeOf(t, b, made)) && span == Span(made, b, b + Size(t))
    ensures multiset(ns) == multiset(span)
    decreases t, 2
  {
    var e := b + Size(t);
    var rest := NodesOfAll(ShapesRev(t.subs, b + 1, made));
    var tail := Span(made, b + 1, e);
    assert ns == [made[b]] + rest;
    assert span == [made[b]] + tail;
    ShapesRevNodes(t.subs, b + 1, made, rest, tail);
    SwapConcat(rest, [made[b]], [made[b]], tail);
  }

  lemma {:induction false} ShapesRevNodes(ts: seq<NameTree>, b: nat, made: seq<TopicNode>,
                                          ns: seq<TopicNode>, span: seq<TopicNode>)
    requires b + SizeAll(ts) <= |made|
    requires ns == NodesOfAll(ShapesRev(ts, b, made)) && span == Span(made, b, b + SizeAll(ts))
    ensures multiset(ns) == multiset(span)
    decreases ts, 1
  {
    if ts == [] {
      assert ns == [] && span == [];
    } else {
      ShapesRevNodesStep(ts, b, made, ns, span);
    }
  }

  lemma {:induction false} ShapesRevNodesStep(ts: seq<NameTree>, b: nat, made: seq<TopicNode>,
                                              ns: seq<TopicNode>, span: seq<TopicNode>)
    requires ts != [] && b + SizeAll(ts) <= |made|
    requires ns == NodesOfAll(ShapesRev(ts, b, made)) && span == Span(made, b, b + SizeAll(ts))
    ensures multiset(ns) == multiset(span)
    decreases ts, 0
  {
    var n := Size(ts[0]);
    var e := b + n + SizeAll(ts[1..]);
    var p := NodesOfAll(ShapesRev(ts[1..], b + n, made));
    var q := NodesOf(ShapeOf(ts[0], b, made));
    var x := Span(made, b, b + n);
    var y := Span(made, b + n, e);
    ShapesRevSplit(ts, b, made, ns, span, p, q, x, y);
    ShapesRevNodes(ts[1..], b + n, made, p, y);
    ShapeNodes(ts[0], b, made, q, x);
    SwapConcat(p, q, x, y);
  }

  /** The first subtree's nodes come last, and its span first. */
  lemma ShapesRevSplit(ts: seq<NameTree>, b: nat, made: seq<TopicNode>, ns: seq<TopicNode>,
                       span: seq<TopicNode>, p: seq<TopicNode>, q: seq<TopicNode>,
                       x: seq<TopicNode>, y: seq<TopicNode>)
    requires ts != [] && b + SizeAll(ts) <= |made|
    requires ns == NodesOfAll(ShapesRev(ts, b, made)) && span == Span(made, b, b + SizeAll(ts))
    requires p == NodesOfAll(ShapesRev(ts[1..], b + Size(ts[0]), made))
    requires q == NodesOf(ShapeOf(ts[0], b, made))
    requires x == Span(made, b, b + Size(ts[0]))
    requires y == Span(made, b + Size(ts[0]), b + SizeAll(ts))
    ensures ns == p + q && span == x + y
  {
    var n := Size(ts[0]);
    var e := b + SizeAll(ts);
    var u := ShapeOf(ts[0], b, made);
    var a := ShapesRev(ts[1..], b + n, made);
    SpanSplit(made, b, b + n, e);
    assert ShapesRev(ts, b, made) == a + [u];
    assert NodesOfAll([u]) == q by {
      assert [u][1..] == [];
    }
    NodesOfAllConcat(a, [u]);
  }

  lemma SwapConcat<T>(p: seq<T>, q: seq<T>, x: seq<T>, y: seq<T>)
    requires multiset(p) == multiset(y) && multiset(q) == multiset(x)
    ensures multiset(p + q) == multiset(x + y)
  {
  }

  /** The tree linked over the nodes made for t, one per name of t in preorder, each holding
      the children buildTree gives it: it mirrors the heap, spells t with every child list
      reversed, and has exactly the nodes made, each once when they are all different. */
  lemma MadeShape(t: NameTree, made: seq<TopicNode>, ns: seq<TopicNode>)
    requires |made| == Size(t) && ns == NodesOf(ShapeOf(t, 0, made))
    requires forall k :: 0 <= k < Size(t) ==> made[k].topicName == Pre(t)[k]
    requires forall k :: 0 <= k < Size(t) ==> Denotes(made, KidsOf(t, 0)[k], made[k].children)
    ensures Mirrors(ShapeOf(t, 0, made)) && Erase(ShapeOf(t, 0, made)) == Mirror(t)
    ensures forall n :: n in ns ==> n in made
    ensures forall n :: n in made ==> n in ns
    ensures Distinct(made) ==> Distinct(ns)
  {
    forall k | 0 <= k < Size(t) ensures Denotes(made, KidsOf(t, 0)[k], made[0 + k].children) {
    }
    ShapeMirrors(t, 0, made);
    ShapeErase(t, 0, made);
    MadeNodes(t, made, ns);
  }

  lemma MadeNodes(t: NameTree, made: seq<TopicNode>, ns: seq<TopicNode>)
    requires |made| == Size(t) && ns == NodesOf(ShapeOf(t, 0, made))
    ensures forall n :: n in ns ==> n in made
    ensures forall n :: n in made ==> n in ns
    ensures Distinct(made) ==> Distinct(ns)
  {
    SpanAll(made, 0);
    assert made[0..] == made;
    ShapeNodes(t, 0, made, ns, Span(made, 0, Size(t)));
    PermutationFacts(ns, made);
  }
}

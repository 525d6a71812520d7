/** The topic graph of ont.py (TopicGraph): the vertices sorted by hashcode, the tree that
    buildTree links together from the flat notation, and the lookups on it.

    Ghost state kept beside the fields:
     - shape: the linked tree as a Tree value (None until buildTree has run);
     - Repr:  the footprint of the vertices' tries, the tries and their nodes. */
module TopicGraphs {
  import opened Wrappers
  import opened Tries
  import opened Topics
  import opened FlatNotation
  import opened Shapes

  /** How find fails: KeyError when no vertex has the name, IndexError when the name's hash
      is above every hashcode, so that the bisection point lies past the last vertex. */
  datatype LookupError = KeyError | IndexError

  predicate NonNull(s: seq<TopicNode?>) {
    forall k :: 0 <= k < |s| ==> s[k] != null
  }

  /** Ascending by hashcode, the order that vertices.sort() leaves. */
  predicate Sorted(s: seq<TopicNode?>) {
    forall j, k :: 0 <= j < k < |s| && s[j] != null && s[k] != null ==> s[j].hashcode <= s[k].hashcode
  }

  /** One step of a stable insertion sort: x goes after every node that is not greater than
      it. The comparisons are those of list.sort: a < b is b.__gt__(a). */
  function Insort(x: TopicNode, s: seq<TopicNode?>): (r: seq<TopicNode?>)
    requires NonNull(s) && Sorted(s)
    ensures |r| == |s| + 1 && NonNull(r)
    ensures forall j :: 0 <= j < |r| ==> r[j] == x || r[j] in s
    ensures Sorted(r)
    decreases |s|
  {
    if s == [] || !s[|s| - 1].GreaterThan(x) then s + [x]
    else
      var init := s[..|s| - 1];
      assert forall j :: 0 <= j < |init| ==> init[j] == s[j];
      var r := Insort(x, init) + [s[|s| - 1]];
      assert s == init + [s[|s| - 1]];
      r
  }

  /** vertices.sort(): the vertices in ascending order of hashcode (their permutation is
      SortPermutation). */
  function SortByHash(s: seq<TopicNode?>): (r: seq<TopicNode?>)
    requires NonNull(s)
    ensures |r| == |s| && NonNull(r) && Sorted(r)
    decreases |s|
  {
    if s == [] then []
    else
      var r := Insort(s[|s| - 1], SortByHash(s[..|s| - 1]));
      assert s == s[..|s| - 1] + [s[|s| - 1]];
      r
  }

  lemma {:induction false} InsortPermutation(x: TopicNode, s: seq<TopicNode?>)
    requires NonNull(s) && Sorted(s)
    ensures multiset(Insort(x, s)) == multiset(s) + multiset{x}
    decreases |s|
  {
    if s != [] && s[|s| - 1].GreaterThan(x) {
      var init := s[..|s| - 1];
      assert forall j :: 0 <= j < |init| ==> init[j] == s[j];
      assert s == init + [s[|s| - 1]];
      InsortPermutation(x, init);
    }
  }

  /** Sorting keeps the vertices: the sorted list is a permutation of the unsorted one. */
  lemma {:induction false} SortPermutation(s: seq<TopicNode?>)
    requires NonNull(s)
    ensures multiset(SortByHash(s)) == multiset(s)
    decreases |s|
  {
    if s != [] {
      var init := s[..|s| - 1];
      assert s == init + [s[|s| - 1]];
      SortPermutation(init);
      InsortPermutation(s[|s| - 1], SortByHash(init));
    }
  }

  /** What the graph needs of the permutation: the same members, and still no repeats. */
  lemma SortMembers(s: seq<TopicNode?>, r: seq<TopicNode?>)
    requires NonNull(s) && r == SortByHash(s)
    ensures forall n :: n in r ==> n in s
    ensures forall n :: n in s ==> n in r
    ensures Distinct(s) ==> Distinct(r)
  {
    SortPermutation(s);
    PermutationFacts(r, s);
  }

  /** The position of the first vertex named name, or |vs| when no vertex has that name. */
  function FirstNamed(vs: seq<TopicNode?>, name: string): (r: nat)
    requires NonNull(vs)
    ensures r <= |vs|
    ensures forall i :: 0 <= i < r ==> vs[i].topicName != name
    ensures r < |vs| ==> vs[r].topicName == name
    decreases |vs|
  {
    if vs == [] then 0
    else if vs[0].topicName == name then 0
    else
      assert forall i :: 0 <= i < |vs| - 1 ==> vs[1..][i] == vs[i + 1];
      1 + FirstNamed(vs[1..], name)
  }

  /** bisect_left(a, probe): the first position whose vertex is not smaller than probe.
      "a[mid] < probe" has no __lt__ to call and is answered by probe.__gt__(a[mid]). */
  method BisectLeft(a: seq<TopicNode?>, probe: TopicNode) returns (lo: nat)
    requires NonNull(a) && Sorted(a)
    ensures lo <= |a|
    ensures forall i :: 0 <= i < lo ==> a[i].hashcode < probe.hashcode
    ensures forall i :: lo <= i < |a| ==> a[i].hashcode >= probe.hashcode
  {
    lo := 0;
    var hi := |a|;
    while lo < hi
      invariant 0 <= lo <= hi <= |a|
      invariant forall i :: 0 <= i < lo ==> a[i].hashcode < probe.hashcode
      invariant forall i :: hi <= i < |a| ==> a[i].hashcode >= probe.hashcode
      decreases hi - lo
    {
      var mid := (lo + hi) / 2;
      if probe.GreaterThan(a[mid]) {
        lo := mid + 1;
      } else {
        hi := mid;
      }
    }
  }

  /** A run of the parser that ends in f takes a first step, and never loses nodes. */
  lemma RunStep(s: Parse, toks: seq<string>, f: Parse)
    requires Wf(s) && toks != [] && Run(s, toks) == Some(f)
    ensures Step(s, toks[0]).Some? && Run(Step(s, toks[0]).value, toks[1..]) == Some(f)
    ensures |Step(s, toks[0]).value.names| <= |f.names|
  {
  }

  lemma DenotesGrow(made: seq<TopicNode>, xs: seq<nat>, ns: seq<TopicNode>, n: TopicNode)
    requires Denotes(made, xs, ns)
    ensures Denotes(made + [n], xs, ns)
  {
  }

  /** The loop of countQueries: count_prefix on the trie of every visited node, added up. */
  method SumCounts(order: seq<TopicNode>, sentence: string) returns (count: int)
    requires forall n :: n in order ==> n.question.Valid()
    ensures count == Total(order, sentence)
  {
    count := 0;
    var i := 0;
    while i < |order|
      invariant i <= |order|
      invariant count == Total(order[..i], sentence)
    {
      var c := order[i].question.CountPrefix(sentence);
      assert order[..i + 1][..i] == order[..i];
      count := count + c;
      i := i + 1;
    }
    assert order[..i] == order;
  }

  /** The part of Built about the links: the two stacks and current are the nodes st numbers,
      and every node's children are the nodes of its children numbers. */
  ghost predicate Wired(st: Parse, made: seq<TopicNode>, par: seq<TopicNode>,
                        child: seq<TopicNode>, current: TopicNode)
    reads set n | n in made
  {
    && Wf(st) && |made| == |st.names|
    && Denotes(made, st.par, par) && Denotes(made, st.child, child) && current == made[st.current]
    && (forall k {:trigger st.kids[k]} :: 0 <= k < |made| ==> Denotes(made, st.kids[k], made[k].children))
  }

  /** The links after a name: the new node is the current one and tops the child stack. */
  lemma MakeWired(st: Parse, nx: Parse, made: seq<TopicNode>, par: seq<TopicNode>,
                  child: seq<TopicNode>, current: TopicNode, n: TopicNode)
    requires Wired(st, made, par, child, current) && n.children == []
    requires nx == Parse(st.par, st.child + [|made|], |made|, nx.names, st.kids + [[]])
    requires |nx.names| == |made| + 1
    ensures Wired(nx, made + [n], par, child + [n], n)
  {
    var k := |made|;
    DenotesGrow(made, st.par, par, n);
    DenotesGrow(made, st.child, child, n);
    DenotesAppend(made + [n], st.child, child, k);
    forall j | 0 <= j < k ensures Denotes(made + [n], st.kids[j], made[j].children) {
      DenotesGrow(made, st.kids[j], made[j].children, n);
    }
  }

  /** The parser's ")" step, given the split of the child stack that the loop found. */
  lemma PopStep(st: Parse, pre: seq<nat>, seg: seq<nat>)
    requires Wf(st) && st.par != [] && st.child != []
    requires pre + seg == st.child[..|st.child| - 1]
    requires (pre == [] || Last(pre) == Last(st.par)) && Last(st.par) !in seg
    ensures Step(st, ")")
      == Some(st.(par := st.par[..|st.par| - 1], child := pre,
                  kids := st.kids[Last(st.par) := st.kids[Last(st.par)] + [Last(st.child)] + Reverse(seg)]))
  {
    DrainSplit(pre, seg, Last(st.par));
  }

  /** One pass of the loop of ")": the child on top of the stack moves to the parent's list. */
  lemma PopChild(made: seq<TopicNode>, pre: seq<nat>, cs: seq<TopicNode>, given: seq<nat>,
                 ch: seq<TopicNode>, seg: seq<nat>, whole: seq<nat>)
    requires pre + seg == whole && Denotes(made, pre, cs) && cs != []
    requires Denotes(made, given + Reverse(seg), ch)
    ensures pre[..|pre| - 1] + ([Last(pre)] + seg) == whole
    ensures Denotes(made, pre[..|pre| - 1], cs[..|cs| - 1])
    ensures Denotes(made, given + Reverse([Last(pre)] + seg), ch + [cs[|cs| - 1]])
    ensures made[Last(pre)] == cs[|cs| - 1]
  {
    var x := Last(pre);
    DenotesPrefix(made, pre, cs, |pre| - 1);
    DenotesAppend(made, given + Reverse(seg), ch, x);
    ReverseCons(x, seg);
    assert given + Reverse([x] + seg) == given + Reverse(seg) + [x];
    assert pre[..|pre| - 1] + ([x] + seg) == pre + seg;
  }

  /** The links after ")": the parent p gained the child on top and then the segment seg that
      the loop popped, and the child stack is what is left below it. */
  lemma CloseWired(st: Parse, nx: Parse, made: seq<TopicNode>, par: seq<TopicNode>, cs: seq<TopicNode>,
                   current: TopicNode, p: nat, added: seq<nat>)
    requires Wf(st) && Wf(nx) && |made| == |st.names| && st.par != [] && p == Last(st.par)
    requires nx == st.(par := st.par[..|st.par| - 1], child := nx.child, kids := st.kids[p := added])
    requires Denotes(made, nx.child, cs) && Denotes(made, added, made[p].children)
    requires forall k {:trigger st.kids[k]} :: 0 <= k < |made| && k != p ==>
      Denotes(made, st.kids[k], made[k].children)
    requires Denotes(made, st.par, par) && current == made[st.current]
    ensures Wired(nx, made, par[..|par| - 1], cs, current)
  {
    DenotesPrefix(made, st.par, par, |st.par| - 1);
    forall k | 0 <= k < |made| ensures Denotes(made, nx.kids[k], made[k].children) {
      if k != p {
        assert nx.kids[k] == st.kids[k];
      }
    }
  }

  class TopicGraph {
    const size: nat
    const hash: string -> int
    var vertices: seq<TopicNode?>
    ghost var shape: Option<Tree>
    ghost var Repr: set<object>

    /** __init__: N empty slots, no tree yet. */
    constructor (N: nat, hash: string -> int)
      ensures size == N && this.hash == hash && vertices == seq(N, _ => null)
      ensures shape == None && Repr == {}
    {
      size := N;
      this.hash := hash;
      vertices := seq(N, _ => null);
      shape := None;
      Repr := {};
    }

    /** Every node of vs has its trie in the footprint (which holds tries and trie nodes
        only), has the hash of its name, and has a valid trie of its own. */
    ghost predicate Stocked(vs: seq<TopicNode?>)
      reads this`Repr, Repr
    {
      && (forall n: TopicNode :: n in vs ==> n.question in Repr && n.question.Nodes <= Repr)
      && (forall n: TopicNode :: n in vs ==> n.hashcode == hash(n.topicName))
      && (forall n: TopicNode {:trigger n.question.Valid()} :: n in vs ==> n.question.Valid())
      && (forall m: TopicNode, n: TopicNode :: m in vs && n in vs && m.question == n.question ==> m == n)
      && (forall m: TopicNode, n: TopicNode, o :: m in vs && n in vs && o in m.question.Nodes && o in n.question.Nodes ==> m == n)
    }

    lemma StockedSubset(a: seq<TopicNode?>, b: seq<TopicNode?>)
      requires Stocked(b) && forall n: TopicNode :: n in a ==> n in b
      ensures Stocked(a)
    {
    }

    /** After buildTree: every slot holds a vertex whose hashcode is the hash of its name and
        whose trie is valid and its own; the vertices are sorted by hashcode; and they are
        exactly the nodes of the linked tree, each once. */
    ghost predicate Valid()
      reads this, Repr, vertices
    {
      Shaped() && Stocked(vertices)
    }

    /** The part of Valid that the tries do not affect. */
    ghost predicate Shaped()
      reads this`vertices, this`shape, vertices
    {
      && |vertices| == size
      && NonNull(vertices)
      && Sorted(vertices)
      && Distinct(vertices)
      && shape.Some?
      && (forall n: TopicNode :: n in vertices ==> n in NodesOf(shape.value))
      && (forall n :: n in NodesOf(shape.value) ==> n in vertices)
      && Distinct(NodesOf(shape.value))
      && Mirrors(shape.value)
    }

    /** The heap during buildTree agrees with the parser state st: made are the nodes made so
        far, in order, each with its name and hashcode, in the first slots of vertices, all
        different; the two stacks and current are the nodes st numbers; and every node's
        children are the nodes of its children numbers. */
    ghost predicate Built(st: Parse, made: seq<TopicNode>, par: seq<TopicNode>,
                          child: seq<TopicNode>, current: TopicNode)
      reads this`vertices, set n | n in made
    {
      Slotted(st, made) && Wired(st, made, par, child, current)
    }

    /** The part of Built about the slots of vertices and the names. */
    ghost predicate Slotted(st: Parse, made: seq<TopicNode>)
      reads this`vertices
    {
      && Wf(st) && |made| == |st.names| <= |vertices| == size
      && (forall k :: 0 <= k < |made| ==> vertices[k] == made[k])
      && Distinct(made)
      && (forall k :: 0 <= k < |made| ==> made[k].topicName == st.names[k])
    }

    /** A ")" keeps the parser state and its slots, and only adds to a kids list. */
    lemma SlottedClose(st: Parse, made: seq<TopicNode>)
      requires Slotted(st, made) && st.par != [] && st.child != []
      ensures Slotted(Step(st, ")").value, made) && Step(st, ")").value.current == st.current
    {
    }

    /** The nodes made so far are stocked, with empty tries, and are not in the footprint. */
    ghost predicate Owned(made: seq<TopicNode>)
      reads this`Repr, Repr
    {
      && Stocked(made)
      && (forall n :: n in made ==> n.question.Words == [])
      && (forall k :: 0 <= k < |made| ==> made[k] !in Repr)
    }

    /** buildTree on the words of the flat notation of t (the split of flatTree). The linked
        tree spells t with every child list reversed, and every trie is empty. */
    method BuildTree(raw: seq<string>, ghost t: NameTree)
      requires |vertices| == size && raw == Flat(t) && WellNamed(t) && Size(t) == size
      modifies this
      ensures Valid() && fresh(Repr)
      ensures shape.Some? && Erase(shape.value) == Mirror(t)
      ensures forall k :: 0 <= k < |vertices| ==> vertices[k] != null && vertices[k].question.Words == []
    {
      ParseCorrect(t);
      ghost var final := Parse([], [], Size(t) - 1, Pre(t), KidsOf(t, 0));
      var current;
      ghost var made;
      current, made := Walk(raw, final);
      BuiltFinal(t, made, current);
      Finish(t, made);
    }

    /** The loop of buildTree over the words after the first: each word takes one step of the
        parser, and the linked nodes keep following the parser's state. */
    method Walk(raw: seq<string>, ghost final: Parse)
      returns (current: TopicNode, ghost made: seq<TopicNode>)
      requires 1 <= |raw| && Run(Start(raw[0]), raw[1..]) == Some(final)
      requires |vertices| == size && |final.names| <= size && final.par == [] && final.child == []
      modifies this`vertices, this`Repr
      ensures Built(final, made, [], [], current) && Owned(made) && fresh(Repr)
    {
      var parStack: seq<TopicNode> := [];
      var childStack: seq<TopicNode> := [];
      current := Begin(raw[0]);
      var numNodeProcessed := 1;
      made := [current];
      ghost var st := Start(raw[0]);
      var idx := 1;
      while idx < |raw|
        invariant 1 <= idx <= |raw|
        invariant Built(st, made, parStack, childStack, current) && numNodeProcessed == |made|
        invariant Run(st, raw[idx..]) == Some(final)
        invariant Owned(made) && fresh(Repr)
        invariant forall i :: 0 <= i < |made| ==> fresh(made[i])
        decreases |raw| - idx
      {
        var word := raw[idx];
        assert raw[idx..][0] == word && raw[idx..][1..] == raw[idx + 1..];
        RunStep(st, raw[idx..], final);
        numNodeProcessed, parStack, childStack, current, made :=
          Advance(word, numNodeProcessed, st, made, parStack, childStack, current);
        st := Step(st, word).value;
        idx := idx + 1;
      }
      assert raw[idx..] == [];
    }

    /** The first word of the flat notation names the root, which takes the first slot. */
    method Begin(name: string) returns (current: TopicNode)
      requires |vertices| == size >= 1
      modifies this`vertices, this`Repr
      ensures fresh(current) && fresh(Repr)
      ensures Built(Start(name), [current], [], [], current) && Owned([current])
    {
      current := new TopicNode(name, hash);
      vertices := vertices[0 := current];
      Repr := {current.question} + current.question.Nodes;
    }

    /** One word of buildTree's loop: "(" pushes current on the parent stack, ")" closes the
        parent on top, and any other word is the name of a new node. */
    method Advance(word: string, num: nat, ghost st: Parse, ghost made: seq<TopicNode>,
                   par: seq<TopicNode>, childStack: seq<TopicNode>, current: TopicNode)
      returns (num': nat, par': seq<TopicNode>, childStack': seq<TopicNode>, current': TopicNode,
               ghost made': seq<TopicNode>)
      requires Built(st, made, par, childStack, current) && Owned(made) && num == |made|
      requires Step(st, word).Some? && |Step(st, word).value.names| <= size
      modifies this`vertices, this`Repr, made
      ensures Built(Step(st, word).value, made', par', childStack', current') && Owned(made')
      ensures num' == |made'|
      ensures fresh(Repr - old(Repr))
      ensures forall i :: 0 <= i < |made'| ==> (i < |made| && made'[i] == made[i]) || fresh(made'[i])
    {
      num', made' := num, made;
      par', childStack', current' := par, childStack, current;
      if word == "(" {
        DenotesAppend(made, st.par, par, st.current);
        par' := par + [current];
      } else if word == ")" {
        par', childStack' := Close(st, made, par, childStack, current);
      } else {
        num' := num + 1;
        current', childStack', made' := MakeNode(word, num, st, made, par, childStack, current);
      }
    }

    /** What the parser's final state says of the nodes made: one per name of t in preorder,
        in the slots of vertices, all different, with the children their numbers give. */
    lemma BuiltFinal(t: NameTree, made: seq<TopicNode>, current: TopicNode)
      requires Size(t) == size && Built(Parse([], [], Size(t) - 1, Pre(t), KidsOf(t, 0)), made, [], [], current)
      ensures |made| == size && vertices == made && Distinct(made)
      ensures forall k :: 0 <= k < Size(t) ==> made[k].topicName == Pre(t)[k]
      ensures forall k :: 0 <= k < Size(t) ==> Denotes(made, KidsOf(t, 0)[k], made[k].children)
    {
      assert |made| == |Pre(t)| == Size(t);
      assert forall k :: 0 <= k < |vertices| ==> vertices[k] == made[k];
    }

    /** The nodes made for t when the loop is over: one per topic of t in preorder, all
        different, with the children their numbers give, stocked and with empty tries. */
    ghost predicate Finished(t: NameTree, made: seq<TopicNode>)
      reads this`Repr, Repr, set n | n in made
    {
      && |made| == Size(t) == size && Distinct(made)
      && (forall k :: 0 <= k < Size(t) ==> made[k].topicName == Pre(t)[k])
      && (forall k :: 0 <= k < Size(t) ==> Denotes(made, KidsOf(t, 0)[k], made[k].children))
      && Owned(made)
    }

    /** The end of buildTree: the linked tree is recorded and the vertices are sorted. */
    method Finish(ghost t: NameTree, ghost made: seq<TopicNode>)
      requires vertices == made && Finished(t, made)
      modifies this`vertices, this`shape
      ensures Valid() && shape.Some? && Erase(shape.value) == Mirror(t)
      ensures forall k :: 0 <= k < |vertices| ==> vertices[k] != null && vertices[k].question.Words == []
    {
      shape := Some(ShapeOf(t, 0, made));
      vertices := SortByHash(vertices);
      SortedValid(t, made);
    }

    /** The state Finish leaves is valid: the sorted vertices are the nodes of the recorded
        tree, which spells t with reversed child lists. */
    lemma SortedValid(t: NameTree, made: seq<TopicNode>)
      requires Finished(t, made)
      requires vertices == SortByHash(made) && shape == Some(ShapeOf(t, 0, made))
      ensures Valid() && Erase(shape.value) == Mirror(t)
      ensures forall k :: 0 <= k < |vertices| ==> vertices[k] != null && vertices[k].question.Words == []
    {
      SortMembers(made, vertices);
      StockedSubset(vertices, made);
      MadeShape(t, made, NodesOf(shape.value));
      forall k | 0 <= k < |vertices| ensures vertices[k] != null && vertices[k].question.Words == [] {
        assert vertices[k] in made;
      }
    }

    /** The ")" branch of buildTree's loop: pop a parent and a child, give the child to the
        parent, then keep popping children into its list until the parent itself is on top of
        the child stack or the stack is empty. */
    method Close(ghost st: Parse, ghost made: seq<TopicNode>, par: seq<TopicNode>,
                 childStack: seq<TopicNode>, current: TopicNode)
      returns (par': seq<TopicNode>, childStack': seq<TopicNode>)
      requires Built(st, made, par, childStack, current) && st.par != [] && st.child != []
      modifies (par[|par| - 1] as TopicNode)`children
      ensures Built(Step(st, ")").value, made, par', childStack', current)
    {
      var parent := par[|par| - 1];
      par' := par[..|par| - 1];
      var child := childStack[|childStack| - 1];
      childStack' := childStack[..|childStack| - 1];
      parent.children := parent.children + [child];
      ghost var p := Last(st.par);
      ghost var top := Last(st.child);
      ghost var given := st.kids[p] + [top];
      ghost var pre := st.child[..|st.child| - 1];
      ghost var seg: seq<nat> := [];
      DenotesPrefix(made, st.child, childStack, |st.child| - 1);
      DenotesAppend(made, st.kids[p], old(parent.children), top);
      assert pre + seg == pre && given + Reverse(seg) == given;
      while childStack' != [] && childStack'[|childStack'| - 1] != parent
        invariant pre + seg == st.child[..|st.child| - 1]
        invariant Denotes(made, pre, childStack')
        invariant p !in seg
        invariant Denotes(made, given + Reverse(seg), parent.children)
        decreases |childStack'|
      {
        PopChild(made, pre, childStack', given, parent.children, seg, st.child[..|st.child| - 1]);
        parent.children := parent.children + [childStack'[|childStack'| - 1]];
        childStack' := childStack'[..|childStack'| - 1];
        seg := [Last(pre)] + seg;
        pre := pre[..|pre| - 1];
      }
      forall k | 0 <= k < |made| && k != p ensures Denotes(made, st.kids[k], made[k].children) {
        assert made[k] != parent;
      }
      SlottedClose(st, made);
      if pre != [] {
        assert made[Last(pre)] == parent;
      }
      PopStep(st, pre, seg);
      CloseWired(st, Step(st, ")").value, made, par, childStack', current, p, given + Reverse(seg));
    }

    /** A name word in buildTree's loop: a new node, which becomes current, takes the next
        slot of vertices and goes on the child stack. */
    method MakeNode(word: string, slot: nat, ghost st: Parse, ghost made: seq<TopicNode>,
                    par: seq<TopicNode>, childStack: seq<TopicNode>, current: TopicNode)
      returns (n: TopicNode, childStack': seq<TopicNode>, ghost made': seq<TopicNode>)
      requires Built(st, made, par, childStack, current) && Owned(made) && slot == |made| < size
      requires word != "(" && word != ")"
      modifies this`vertices, this`Repr
      ensures made' == made + [n] && fresh(n)
      ensures Repr == old(Repr) + {n.question} + n.question.Nodes && fresh(Repr - old(Repr))
      ensures Built(Step(st, word).value, made', par, childStack', n) && Owned(made')
    {
      n := new TopicNode(word, hash);
      vertices := vertices[slot := n];
      childStack' := childStack + [n];
      Stock(made, n);
      made' := made + [n];
      MakeWired(st, Step(st, word).value, made, par, childStack, current, n);
    }

    /** The footprint takes in the trie of a new node, which joins the owned nodes. */
    ghost method Stock(made: seq<TopicNode>, n: TopicNode)
      requires Owned(made) && n !in made && n !in Repr
      requires n.hashcode == hash(n.topicName) && n.question.Valid() && n.question.Words == []
      requires n.question !in Repr && n.question.Nodes !! Repr
      modifies this`Repr
      ensures Repr == old(Repr) + {n.question} + n.question.Nodes
      ensures Owned(made + [n])
    {
      Repr := Repr + {n.question} + n.question.Nodes;
    }

    /** find: bisect for the hash of topic, then, if the vertex there has another name, scan
        forward for the name. The answer is the first vertex with that name; the errors are
        those that find raises. */
    method Find(topic: string) returns (r: Result<nat, LookupError>)
      requires Valid()
      ensures r.Ok? ==> r.value == FirstNamed(vertices, topic) < |vertices|
      ensures r.Err? <==> FirstNamed(vertices, topic) == |vertices|
      ensures r == Err(IndexError) <==> forall i :: 0 <= i < |vertices| ==> vertices[i].hashcode < hash(topic)
    {
      var probe := new TopicNode(topic, hash);
      var idx := BisectLeft(vertices, probe);
      ghost var start := idx;
      assert forall i :: 0 <= i < start ==> vertices[i].topicName != topic by {
        forall i | 0 <= i < start ensures vertices[i].topicName != topic {
          assert vertices[i] in vertices;
        }
      }
      if idx < |vertices| && vertices[idx].topicName == topic {
        return Ok(idx);
      }
      if idx == |vertices| {
        // the while condition reads vertices[idx] and raises IndexError
        return Err(IndexError);
      }
      while vertices[idx].topicName != topic && idx < size - 1
        invariant start <= idx < |vertices|
        invariant forall i :: 0 <= i <= idx ==> vertices[i].topicName != topic
        decreases size - idx
      {
        idx := idx + 1;
        if vertices[idx].topicName == topic {
          return Ok(idx);
        }
      }
      return Err(KeyError);
    }

    /** addQuestions on the parts of "topic: question": the question goes into the trie of the
        first vertex named topic, and nothing else changes. */
    method AddQuestions(topic: string, question: string) returns (r: Result<(), LookupError>)
      requires Valid()
      modifies this`Repr, Repr
      ensures Valid() && vertices == old(vertices) && shape == old(shape) && fresh(Repr - old(Repr))
      ensures r.Err? <==> FirstNamed(vertices, topic) == |vertices|
      ensures r.Err? ==> (r.error == IndexError <==> forall i :: 0 <= i < |vertices| ==> vertices[i].hashcode < hash(topic))
      ensures forall k :: 0 <= k < |vertices| ==>
        vertices[k].question.Words
          == old(vertices[k].question.Words) + (if k == FirstNamed(vertices, topic) then [question] else [])
    {
      var f := Find(topic);
      if f.Err? {
        return Err(f.error);
      }
      assert vertices[f.value] in vertices;
      InsertAt(vertices[f.value], question);
      r := Ok(());
    }

    /** The insert into one vertex's trie: that trie gains the question, the others keep
        theirs, and every vertex stays stocked. */
    method InsertAt(v: TopicNode, question: string)
      requires v in vertices && Stocked(vertices)
      modifies this`Repr, v.question, v.question.Nodes
      ensures Stocked(vertices) && fresh(Repr - old(Repr))
      ensures v.question.Words == old(v.question.Words) + [question]
      ensures forall n: TopicNode :: n in vertices && n != v ==> n.question.Words == old(n.question.Words)
    {
      var q := v.question;
      q.Insert(question);
      Repr := Repr + q.Nodes;
    }

    /** countQueries on the parts of "topic sentence": walk the subtree of the first vertex
        named topic and add up the counts of its tries. The result is the number of questions
        starting with sentence (none when sentence is empty) over the topic and all its
        descendants in the tree buildTree linked. */
    method CountQueries(topic: string, sentence: string) returns (r: Result<int, LookupError>)
      requires Valid()
      ensures r.Err? <==> FirstNamed(vertices, topic) == |vertices|
      ensures r.Err? ==> (r.error == IndexError <==> forall i :: 0 <= i < |vertices| ==> vertices[i].hashcode < hash(topic))
      ensures r.Ok? ==> exists u :: u in Subtrees(shape.value) && u.node == vertices[FirstNamed(vertices, topic)]
      ensures r.Ok? ==> forall u :: u in Subtrees(shape.value) && u.node == vertices[FirstNamed(vertices, topic)] ==>
        r.value == Total(NodesOf(u), sentence)
    {
      var f := Find(topic);
      if f.Err? {
        return Err(f.error);
      }
      var v := vertices[f.value];
      ghost var sh := shape.value;
      assert v in vertices;
      SubtreeOf(sh, v);
      ghost var u :| u in Subtrees(sh) && u.node == v;
      SubtreeMirrors(sh, u);
      SubtreeNodes(sh, u);
      var order := v.Subtree(u);
      PermutationFacts(order, NodesOf(u));
      var count := SumCounts(order, sentence);
      TotalPermutation(order, NodesOf(u), sentence);
      forall w | w in Subtrees(sh) && w.node == v ensures count == Total(NodesOf(w), sentence) {
        SubtreeMirrors(sh, w);
        MirrorsUnique(u, w);
      }
      r := Ok(count);
    }
  }
}

/** The flat notation of a topic tree and the two-stack parser that reads it, as values.

    A tree is written in prefix form, one token per word: a topic name, followed, when the
    topic has subtopics, by "(", the subtopics in order, and ")". For example "A ( B ( D ) C )".
    The parser keeps its two stacks and the children built so far as lists of node numbers:
    node k is the k-th topic name read (the root is 0). The heap-level buildTree follows these
    states step by step; this module proves what they end in. */
module FlatNotation {
  import opened Wrappers

  datatype NameTree = Topic(name: string, subs: seq<NameTree>)

  function Last<T>(s: seq<T>): T
    requires s != []
  {
    s[|s| - 1]
  }

  function Reverse<T>(s: seq<T>): (r: seq<T>)
    ensures |r| == |s|
  {
    if s == [] then [] else [Last(s)] + Reverse(s[..|s| - 1])
  }

  /** The tokens of a tree: a leaf is its name alone; "( )" never occurs. */
  function Flat(t: NameTree): (r: seq<string>)
    ensures |r| >= 1 && r[0] == t.name
    decreases t
  {
    if t.subs == [] then [t.name] else [t.name, "("] + FlatAll(t.subs) + [")"]
  }

  function FlatAll(ts: seq<NameTree>): seq<string>
    decreases ts
  {
    if ts == [] then [] else Flat(ts[0]) + FlatAll(ts[1..])
  }

  /** Number of topics in a tree. */
  function Size(t: NameTree): (r: nat)
    ensures r >= 1
    decreases t
  {
    1 + SizeAll(t.subs)
  }

  function SizeAll(ts: seq<NameTree>): nat
    decreases ts
  {
    if ts == [] then 0 else Size(ts[0]) + SizeAll(ts[1..])
  }

  /** The names of a tree in the order the parser reads them (preorder). */
  function Pre(t: NameTree): (r: seq<string>)
    ensures |r| == Size(t) && r[0] == t.name
    decreases t
  {
    [t.name] + PreAll(t.subs)
  }

  function PreAll(ts: seq<NameTree>): (r: seq<string>)
    ensures |r| == SizeAll(ts)
    decreases ts
  {
    if ts == [] then [] else Pre(ts[0]) + PreAll(ts[1..])
  }

  /** No topic is named like a parenthesis, so every name token is read as a name. */
  predicate WellNamed(t: NameTree)
    decreases t
  {
    t.name != "(" && t.name != ")" && forall u | u in t.subs :: WellNamed(u)
  }

  /** The tree with the children of every topic in reverse order: the order in which the
      parser's child stack hands them over. */
  function Mirror(t: NameTree): (r: NameTree)
    ensures r.name == t.name && |r.subs| == |t.subs|
    decreases t
  {
    Topic(t.name, MirrorAll(t.subs))
  }

  function MirrorAll(ts: seq<NameTree>): (r: seq<NameTree>)
    ensures |r| == |ts|
    decreases ts
  {
    if ts == [] then [] else MirrorAll(ts[1..]) + [Mirror(ts[0])]
  }

  lemma {:induction false} MirrorSize(t: NameTree)
    ensures Size(Mirror(t)) == Size(t)
    decreases t
  {
    MirrorAllSize(t.subs);
  }

  lemma {:induction false} MirrorAllSize(ts: seq<NameTree>)
    ensures SizeAll(MirrorAll(ts)) == SizeAll(ts)
    decreases ts
  {
    if ts != [] {
      MirrorAllSize(ts[1..]);
      MirrorSize(ts[0]);
      SizeAllConcat(MirrorAll(ts[1..]), [Mirror(ts[0])]);
    }
  }

  lemma {:induction false} SizeAllConcat(a: seq<NameTree>, b: seq<NameTree>)
    ensures SizeAll(a + b) == SizeAll(a) + SizeAll(b)
    decreases |a|
  {
    if a == [] {
      assert a + b == b;
    } else {
      assert (a + b)[0] == a[0] && (a + b)[1..] == a[1..] + b;
      SizeAllConcat(a[1..], b);
    }
  }

  /** The parser's state after some tokens: the parent stack, the child stack, the node made
      last, the names of the nodes made so far, and the children each node has been given. */
  datatype Parse = Parse(par: seq<nat>, child: seq<nat>, current: nat,
                         names: seq<string>, kids: seq<seq<nat>>)

  /** Every node number in the state denotes a node already made. */
  predicate Wf(s: Parse) {
    && |s.kids| == |s.names| && s.current < |s.names|
    && (forall i :: 0 <= i < |s.par| ==> s.par[i] < |s.names|)
    && (forall i :: 0 <= i < |s.child| ==> s.child[i] < |s.names|)
  }

  /** The state after the first token: the root is made, and both stacks are empty. */
  function Start(name: string): (s: Parse)
    ensures Wf(s) && s.names == [name] && s.current == 0
    ensures s.par == [] && s.child == []
  {
    Parse([], [], 0, [name], [[]])
  }

  /** The inner loop of ")": pop the child stack until it is empty or its top is parent.
      Answers the rest of the stack and the popped part, as it lay on the stack (the pops
      take it from the top down). */
  function Drain(stack: seq<nat>, parent: nat): (r: (seq<nat>, seq<nat>))
    ensures r.0 + r.1 == stack
    ensures r.0 == [] || Last(r.0) == parent
    ensures parent !in r.1
    decreases |stack|
  {
    if stack == [] || Last(stack) == parent then (stack, [])
    else
      var d := Drain(stack[..|stack| - 1], parent);
      (d.0, d.1 + [Last(stack)])
  }

  /** The pieces of a drain: what lies above the last occurrence of parent is popped. */
  lemma {:induction false} DrainSplit(pre: seq<nat>, seg: seq<nat>, parent: nat)
    requires pre == [] || Last(pre) == parent
    requires parent !in seg
    ensures Drain(pre + seg, parent) == (pre, seg)
    decreases |seg|
  {
    if seg == [] {
      assert pre + seg == pre;
    } else {
      var s := pre + seg;
      var init := seg[..|seg| - 1];
      assert Last(s) == Last(seg) && Last(seg) in seg;
      assert s[..|s| - 1] == pre + init;
      DrainSplit(pre, init, parent);
      var d := Drain(pre + init, parent);
      assert Drain(s, parent) == (d.0, d.1 + [Last(s)]);
      assert seg == init + [Last(seg)];
    }
  }

  /** One token of buildTree. "(" pushes the current node as a parent. ")" pops a parent,
      gives it the child on top of the child stack and then every child above the parent
      itself (or the whole stack). Any other token makes a node, which becomes current and
      is pushed on the child stack. None when a pop would find an empty stack. */
  function Step(s: Parse, tok: string): (r: Option<Parse>)
    requires Wf(s)
    ensures r.Some? ==> Wf(r.value) && |r.value.names| >= |s.names|
    ensures r.None? <==> tok == ")" && (s.par == [] || s.child == [])
  {
    if tok == "(" then
      Some(s.(par := s.par + [s.current]))
    else if tok == ")" then
      if s.par == [] || s.child == [] then None
      else
        var parent := Last(s.par);
        var d := Drain(s.child[..|s.child| - 1], parent);
        assert forall i :: 0 <= i < |d.0| ==> d.0[i] == s.child[i];
        Some(s.(par := s.par[..|s.par| - 1], child := d.0,
                kids := s.kids[parent := s.kids[parent] + [Last(s.child)] + Reverse(d.1)]))
    else
      var k := |s.names|;
      Some(Parse(s.par, s.child + [k], k, s.names + [tok], s.kids + [[]]))
  }

  /** A run of tokens; None as soon as one step fails. */
  function Run(s: Parse, toks: seq<string>): (r: Option<Parse>)
    requires Wf(s)
    ensures r.Some? ==> Wf(r.value) && |r.value.names| >= |s.names|
    decreases |toks|
  {
    if toks == [] then Some(s)
    else
      match Step(s, toks[0])
      case None => None
      case Some(s') => Run(s', toks[1..])
  }

  /** A run never renames a node: the names read so far stay, in order, at the front. */
  lemma {:induction false} RunKeepsNames(s: Parse, toks: seq<string>)
    requires Wf(s) && Run(s, toks).Some?
    ensures s.names <= Run(s, toks).value.names
    decreases |toks|
  {
    if toks != [] {
      var s' := Step(s, toks[0]).value;
      assert s.names <= s'.names;
      RunKeepsNames(s', toks[1..]);
    }
  }

  lemma {:induction false} RunConcat(s: Parse, a: seq<string>, b: seq<string>)
    requires Wf(s)
    ensures Run(s, a + b) == match Run(s, a) case None => None case Some(s') => Run(s', b)
    decreases |a|
  {
    if a == [] {
      assert a + b == b;
    } else {
      assert (a + b)[0] == a[0] && (a + b)[1..] == a[1..] + b;
      match Step(s, a[0])
      case None =>
      case Some(s') => RunConcat(s', a[1..], b);
    }
  }

  /** The numbers of the roots of ts when their nodes are numbered from b on, in order. */
  function RootIds(ts: seq<NameTree>, b: nat): (r: seq<nat>)
    ensures |r| == |ts|
    ensures forall i :: 0 <= i < |r| ==> b <= r[i] < b + SizeAll(ts)
    decreases ts
  {
    if ts == [] then [] else [b] + RootIds(ts[1..], b + Size(ts[0]))
  }

  /** The children lists that parsing t, numbered from b on, gives its nodes (in preorder):
      each node's children in reverse order. */
  function KidsOf(t: NameTree, b: nat): (r: seq<seq<nat>>)
    ensures |r| == Size(t)
    decreases t
  {
    [Reverse(RootIds(t.subs, b + 1))] + KidsAll(t.subs, b + 1)
  }

  function KidsAll(ts: seq<NameTree>, b: nat): (r: seq<seq<nat>>)
    ensures |r| == SizeAll(ts)
    decreases ts
  {
    if ts == [] then [] else KidsOf(ts[0], b) + KidsAll(ts[1..], b + Size(ts[0]))
  }

  /** The state after the tokens of a non-root tree t are read from s: its nodes are made,
      exactly its root is left on the child stack, and every node of it has its children. */
  function Parsed(t: NameTree, s: Parse): Parse {
    var b := |s.names|;
    Parse(s.par, s.child + [b], b + Size(t) - 1, s.names + Pre(t), s.kids + KidsOf(t, b))
  }

  /** The state after the tokens of a forest ts are read from s: their roots are pushed on the
      child stack. */
  function ForestParsed(ts: seq<NameTree>, s: Parse): Parse {
    var b := |s.names|;
    Parse(s.par, s.child + RootIds(ts, b), if ts == [] then s.current else b + SizeAll(ts) - 1,
          s.names + PreAll(ts), s.kids + KidsAll(ts, b))
  }

  /** The state after the name and the "(" of a tree with subtopics. */
  function Opened(t: NameTree, s: Parse): Parse {
    var b := |s.names|;
    Parse(s.par + [b], s.child + [b], b, s.names + [t.name], s.kids + [[]])
  }

  lemma {:induction false} ParseTree(t: NameTree, s: Parse)
    requires Wf(s) && WellNamed(t)
    ensures Run(s, Flat(t)) == Some(Parsed(t, s))
    decreases t, 2
  {
    if t.subs == [] {
      ParseLeaf(t, s);
    } else {
      ParseBranch(t, s);
    }
  }

  lemma ParseLeaf(t: NameTree, s: Parse)
    requires Wf(s) && WellNamed(t) && t.subs == []
    ensures Run(s, Flat(t)) == Some(Parsed(t, s))
  {
    var b := |s.names|;
    var s1 := Parse(s.par, s.child + [b], b, s.names + [t.name], s.kids + [[]]);
    assert Flat(t) == [t.name];
    RunSingle(s, t.name);
    assert Step(s, t.name) == Some(s1);
    assert s1 == Parsed(t, s) by {
      assert PreAll(t.subs) == PreAll([]) == [];
      assert Size(t) == 1 && Pre(t) == [t.name] + [] == [t.name];
      assert KidsOf(t, b) == [[]] by {
        assert RootIds(t.subs, b + 1) == [];
      }
    }
  }

  lemma {:induction false} ParseBranch(t: NameTree, s: Parse)
    requires Wf(s) && WellNamed(t) && t.subs != []
    ensures Run(s, Flat(t)) == Some(Parsed(t, s))
    decreases t, 1
  {
    var o := Opened(t, s);
    var x := FlatAll(t.subs);
    BranchOpen(t, s);
    ParseForest(t.subs, o);
    RunConcat(o, x, [")"]);
    RunSingle(ForestParsed(t.subs, o), ")");
    BranchClose(t, s);
  }

  /** The name and "(" of a tree with subtopics: the new node is pushed on both stacks. */
  lemma BranchOpen(t: NameTree, s: Parse)
    requires Wf(s) && WellNamed(t) && t.subs != []
    ensures Wf(Opened(t, s)) && Run(s, Flat(t)) == Run(Opened(t, s), FlatAll(t.subs) + [")"])
  {
    var x := FlatAll(t.subs);
    assert Flat(t) == [t.name, "("] + (x + [")"]) by {
      AppendAssoc([t.name, "("], x, [")"]);
    }
    RunOpen(s, t.name, x + [")"]);
  }

  /** The ")" of a tree with subtopics: the roots of the subtopics, on top of the child stack,
      become the children of the tree's root, in reverse order. */
  lemma BranchClose(t: NameTree, s: Parse)
    requires Wf(s) && t.subs != [] && Wf(ForestParsed(t.subs, Opened(t, s)))
    ensures Step(ForestParsed(t.subs, Opened(t, s)), ")") == Some(Parsed(t, s))
  {
    var b := |s.names|;
    var o := Opened(t, s);
    var c := ForestParsed(t.subs, o);
    var ids := RootIds(t.subs, b + 1);
    var rest := KidsAll(t.subs, b + 1);
    assert c.par == s.par + [b] && c.current == b + SizeAll(t.subs) by {
      assert |o.names| == b + 1;
    }
    assert c.names == s.names + [t.name] + PreAll(t.subs) && c.child == s.child + [b] + ids
        && c.kids == s.kids + [[]] + rest by {
      assert |o.names| == b + 1 && o.child == s.child + [b] && o.kids == s.kids + [[]];
    }
    CloseStep(c, s.child + [b], ids, b);
    ClosedParsed(t, s, c, ids, rest);
  }

  /** The state CloseStep describes, for the ")" of a tree with subtopics, is Parsed. */
  lemma ClosedParsed(t: NameTree, s: Parse, c: Parse, ids: seq<nat>, rest: seq<seq<nat>>)
    requires Wf(s) && t.subs != [] && ids == RootIds(t.subs, |s.names| + 1)
    requires rest == KidsAll(t.subs, |s.names| + 1)
    requires c.par == s.par + [|s.names|] && c.current == |s.names| + SizeAll(t.subs)
    requires c.names == s.names + [t.name] + PreAll(t.subs) && c.kids == s.kids + [[]] + rest
    ensures c.(par := c.par[..|c.par| - 1], child := s.child + [|s.names|],
               kids := c.kids[|s.names| := c.kids[|s.names|] + [Last(ids)] + Reverse(ids[..|ids| - 1])])
         == Parsed(t, s)
  {
    var b := |s.names|;
    assert c.kids[b] == [];
    assert c.par[..|c.par| - 1] == s.par;
    PutKids(s.kids, rest, ids);
    AppendAssoc(s.names, [t.name], PreAll(t.subs));
  }

  lemma RunSingle(s: Parse, tok: string)
    requires Wf(s)
    ensures Run(s, [tok]) == Step(s, tok)
  {
    match Step(s, tok)
    case None =>
    case Some(s') => assert [tok][1..] == [];
  }

  /** A name followed by "(": the new node is pushed on both stacks. */
  lemma RunOpen(s: Parse, name: string, rest: seq<string>)
    requires Wf(s) && name != "(" && name != ")"
    ensures Run(s, [name, "("] + rest)
         == Run(Parse(s.par + [|s.names|], s.child + [|s.names|], |s.names|, s.names + [name], s.kids + [[]]), rest)
  {
    var b := |s.names|;
    var s1 := Parse(s.par, s.child + [b], b, s.names + [name], s.kids + [[]]);
    var s2 := Parse(s.par + [b], s.child + [b], b, s.names + [name], s.kids + [[]]);
    assert [name, "("] + rest == [name] + (["("] + rest);
    assert Run(s, [name] + (["("] + rest)) == Run(s1, ["("] + rest) by {
      assert Step(s, name) == Some(s1);
      RunHead(s, name, ["("] + rest, s1);
    }
    assert Run(s1, ["("] + rest) == Run(s2, rest) by {
      assert Step(s1, "(") == Some(s2);
      RunHead(s1, "(", rest, s2);
    }
  }

  /** A run that starts with a token whose step succeeds goes on from that step's state. */
  lemma RunHead(s: Parse, tok: string, rest: seq<string>, s1: Parse)
    requires Wf(s) && Step(s, tok) == Some(s1)
    ensures Run(s, [tok] + rest) == Run(s1, rest)
  {
    assert ([tok] + rest)[0] == tok && ([tok] + rest)[1..] == rest;
  }

  lemma AppendAssoc<T>(a: seq<T>, b: seq<T>, c: seq<T>)
    ensures a + b + c == a + (b + c)
  {
  }

  /** The kids update of the ")" that closes node |k|: its empty list becomes its children. */
  lemma PutKids(k: seq<seq<nat>>, rest: seq<seq<nat>>, ids: seq<nat>)
    requires ids != []
    ensures (k + [[]] + rest)[|k| := [] + [Last(ids)] + Reverse(ids[..|ids| - 1])] == k + ([Reverse(ids)] + rest)
  {
    ReverseLast(ids);
    PutAt(k, rest, [], [] + [Last(ids)] + Reverse(ids[..|ids| - 1]), Reverse(ids));
  }

  lemma ReverseLast<T>(s: seq<T>)
    requires s != []
    ensures [] + [Last(s)] + Reverse(s[..|s| - 1]) == Reverse(s)
  {
  }

  lemma PutAt<T>(k: seq<T>, rest: seq<T>, z: T, x: T, y: T)
    requires x == y
    ensures (k + [z] + rest)[|k| := x] == k + ([y] + rest)
  {
  }

  lemma {:induction false} ParseForest(ts: seq<NameTree>, s: Parse)
    requires Wf(s) && forall u | u in ts :: WellNamed(u)
    ensures Run(s, FlatAll(ts)) == Some(ForestParsed(ts, s))
    decreases ts, 0
  {
    if ts == [] {
      assert s.child + [] == s.child && s.names + [] == s.names && s.kids + [] == s.kids;
    } else {
      assert ts[0] in ts;
      ParseTree(ts[0], s);
      RunConcat(s, Flat(ts[0]), FlatAll(ts[1..]));
      assert forall u | u in ts[1..] :: u in ts;
      ParseForest(ts[1..], Parsed(ts[0], s));
      ForestStep(ts, s);
    }
  }

  lemma ForestStep(ts: seq<NameTree>, s: Parse)
    requires ts != []
    ensures ForestParsed(ts[1..], Parsed(ts[0], s)) == ForestParsed(ts, s)
  {
    var b := |s.names|;
    AppendAssoc(s.child, [b], RootIds(ts[1..], b + Size(ts[0])));
    AppendAssoc(s.names, Pre(ts[0]), PreAll(ts[1..]));
    AppendAssoc(s.kids, KidsOf(ts[0], b), KidsAll(ts[1..], b + Size(ts[0])));
  }

  /** The ")" that closes the children ids of node b: they all go to b, in reverse order, and the
      child stack returns to pre, which is empty or has b on top. */
  lemma CloseStep(s: Parse, pre: seq<nat>, ids: seq<nat>, b: nat)
    requires Wf(s) && s.par != [] && Last(s.par) == b && s.child == pre + ids
    requires pre == [] || Last(pre) == b
    requires ids != [] && forall i :: 0 <= i < |ids| ==> ids[i] != b
    ensures Step(s, ")") == Some(s.(par := s.par[..|s.par| - 1], child := pre,
                                    kids := s.kids[b := s.kids[b] + [Last(ids)] + Reverse(ids[..|ids| - 1])]))
  {
    var init := ids[..|ids| - 1];
    var d := Drain(s.child[..|s.child| - 1], b);
    assert d == (pre, init) by {
      assert s.child[..|s.child| - 1] == pre + init;
      assert b !in init;
      DrainSplit(pre, init, b);
    }
    assert Last(s.child) == Last(ids);
    assert Step(s, ")") == Some(s.(par := s.par[..|s.par| - 1], child := d.0,
                kids := s.kids[b := s.kids[b] + [Last(s.child)] + Reverse(d.1)]));
  }

  /** buildTree on the tokens of a well-named tree: both stacks end empty, the nodes are its
      topics in preorder, and each node has exactly the children the notation gives it. */
  lemma ParseCorrect(t: NameTree)
    requires WellNamed(t)
    ensures Run(Start(t.name), Flat(t)[1..]) == Some(Parse([], [], Size(t) - 1, Pre(t), KidsOf(t, 0)))
  {
    if t.subs == [] {
      assert Flat(t)[1..] == [];
      assert Pre(t) == [t.name] && KidsOf(t, 0) == [[]] by {
        assert PreAll(t.subs) == [] && RootIds(t.subs, 1) == [];
      }
    } else {
      RootParse(t);
    }
  }

  /** The whole notation of a tree with subtopics: "(", the subtopics, and the last ")". */
  lemma RootParse(t: NameTree)
    requires WellNamed(t) && t.subs != []
    ensures Run(Start(t.name), Flat(t)[1..]) == Some(Parse([], [], Size(t) - 1, Pre(t), KidsOf(t, 0)))
  {
    var o := Parse([0], [], 0, [t.name], [[]]);
    var x := FlatAll(t.subs);
    assert Run(Start(t.name), Flat(t)[1..]) == Run(o, x + [")"]) by {
      assert Flat(t)[1..] == ["("] + (x + [")"]);
      assert Start(t.name).par + [Start(t.name).current] == [0];
      assert Step(Start(t.name), "(") == Some(o);
    }
    ParseForest(t.subs, o);
    RunConcat(o, x, [")"]);
    RunSingle(ForestParsed(t.subs, o), ")");
    RootClose(t);
  }

  /** The last ")" of the notation: the roots of the root's subtopics, the whole child stack,
      become the root's children, and both stacks are left empty. */
  lemma RootClose(t: NameTree)
    requires t.subs != []
    requires Wf(ForestParsed(t.subs, Parse([0], [], 0, [t.name], [[]])))
    ensures Step(ForestParsed(t.subs, Parse([0], [], 0, [t.name], [[]])), ")")
         == Some(Parse([], [], Size(t) - 1, Pre(t), KidsOf(t, 0)))
  {
    var c := ForestParsed(t.subs, Parse([0], [], 0, [t.name], [[]]));
    var ids := RootIds(t.subs, 1);
    assert c.par == [0] && c.child == ids && c.current == Size(t) - 1 && c.names == Pre(t)
        && c.kids == [[]] + KidsAll(t.subs, 1);
    CloseStep(c, [], ids, 0);
    RootClosed(t, c, ids);
  }

  /** The state CloseStep describes, for the last ")", is the final state of ParseCorrect. */
  lemma RootClosed(t: NameTree, c: Parse, ids: seq<nat>)
    requires t.subs != [] && ids == RootIds(t.subs, 1)
    requires c.par == [0] && c.current == Size(t) - 1 && c.names == Pre(t)
    requires c.kids == [[]] + KidsAll(t.subs, 1)
    ensures c.(par := c.par[..|c.par| - 1], child := [],
               kids := c.kids[0 := c.kids[0] + [Last(ids)] + Reverse(ids[..|ids| - 1])])
         == Parse([], [], Size(t) - 1, Pre(t), KidsOf(t, 0))
  {
    assert c.par[..0] == [];
    PutFirst(KidsAll(t.subs, 1), ids);
  }

  /** The kids update of the last ")": the root's empty list becomes its children. */
  lemma PutFirst(rest: seq<seq<nat>>, ids: seq<nat>)
    requires ids != []
    ensures ([[]] + rest)[0 := [] + [Last(ids)] + Reverse(ids[..|ids| - 1])] == [Reverse(ids)] + rest
  {
    ReverseLast(ids);
    UpdateHead([], rest, [] + [Last(ids)] + Reverse(ids[..|ids| - 1]));
  }

  lemma UpdateHead<T>(z: T, rest: seq<T>, x: T)
    ensures ([z] + rest)[0 := x] == [x] + rest
  {
  }
}

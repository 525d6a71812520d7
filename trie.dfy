/**
 * The per-topic prefix-count trie of ont.py (TrieNode and Trie).
 *
 * Every node is a heap object with a `pointers` map and a `downWords` counter.
 * The abstraction kept beside them is ghost state of the Trie:
 *  - Words: every string inserted so far, in insertion order (its multiset is what matters);
 *  - At:    the node reached from the root by each path string;
 *  - Nodes: the footprint, all nodes of this trie.
 */
module Tries {

  /** p is a prefix of w (the empty string is a prefix of everything). */
  predicate IsPrefix(p: string, w: string) {
    |p| <= |w| && w[..|p|] == p
  }

  /** The number of strings of ws that start with p, duplicates counted. */
  function PrefixCount(ws: seq<string>, p: string): (r: nat)
    ensures r <= |ws|
  {
    if ws == [] then 0
    else PrefixCount(ws[..|ws| - 1], p) + (if IsPrefix(p, ws[|ws| - 1]) then 1 else 0)
  }

  /** What count_prefix answers: the prefix count, except for the empty query,
      which reaches the root, whose counter is never incremented. */
  function Answer(ws: seq<string>, p: string): nat {
    if p == [] then 0 else PrefixCount(ws, p)
  }

  lemma PrefixCountAppend(ws: seq<string>, w: string, p: string)
    ensures PrefixCount(ws + [w], p) == PrefixCount(ws, p) + (if IsPrefix(p, w) then 1 else 0)
  {
    assert (ws + [w])[..|ws|] == ws;
  }

  lemma {:induction false} PrefixCountConcat(a: seq<string>, b: seq<string>, p: string)
    ensures PrefixCount(a + b, p) == PrefixCount(a, p) + PrefixCount(b, p)
    decreases |b|
  {
    if b == [] {
      assert a + b == a;
    } else {
      var b' := b[..|b| - 1];
      assert a + b == (a + b') + [b[|b| - 1]];
      assert b == b' + [b[|b| - 1]];
      PrefixCountAppend(a + b', b[|b| - 1], p);
      PrefixCountAppend(b', b[|b| - 1], p);
      PrefixCountConcat(a, b', p);
    }
  }

  /** The count depends only on the multiset of inserted strings, not on their order. */
  lemma {:induction false} PrefixCountPermutation(a: seq<string>, b: seq<string>, p: string)
    requires multiset(a) == multiset(b)
    ensures PrefixCount(a, p) == PrefixCount(b, p)
    decreases |a|
  {
    if a != [] {
      var w := a[|a| - 1];
      var a' := a[..|a| - 1];
      assert a == a' + [w];
      assert w in multiset(b);
      var k :| 0 <= k < |b| && b[k] == w;
      var b' := b[..k] + b[k + 1..];
      assert b == b[..k] + [w] + b[k + 1..];
      assert multiset(a') == multiset(a) - multiset{w};
      assert multiset(b') == multiset(b) - multiset{w};
      PrefixCountPermutation(a', b', p);
      PrefixCountConcat(b[..k] + [w], b[k + 1..], p);
      PrefixCountConcat(b[..k], b[k + 1..], p);
      PrefixCountAppend(b[..k], w, p);
      PrefixCountAppend(a', w, p);
    } else {
      assert |b| == |multiset(b)| == 0;
    }
  }

  /** No string of ws starts with p exactly when the count is zero. */
  lemma {:induction false} PrefixCountZero(ws: seq<string>, p: string)
    ensures PrefixCount(ws, p) == 0 <==> forall i :: 0 <= i < |ws| ==> !IsPrefix(p, ws[i])
    decreases |ws|
  {
    if ws != [] {
      var ws' := ws[..|ws| - 1];
      PrefixCountZero(ws', p);
      assert forall i :: 0 <= i < |ws'| ==> ws'[i] == ws[i];
    }
  }

  /** Counting with a longer prefix never counts more: a child's counter never exceeds its parent's. */
  lemma {:induction false} PrefixCountMonotone(ws: seq<string>, p: string, q: string)
    requires IsPrefix(p, q)
    ensures PrefixCount(ws, q) <= PrefixCount(ws, p)
    decreases |ws|
  {
    if ws != [] {
      PrefixCountMonotone(ws[..|ws| - 1], p, q);
      var w := ws[|ws| - 1];
      if IsPrefix(q, w) {
        assert w[..|p|] == q[..|p|];
      }
    }
  }

  /** The empty string is a prefix of every string: the true count of "" is the number of
      insertions, while count_prefix answers 0. */
  lemma {:induction false} PrefixCountEmpty(ws: seq<string>)
    ensures PrefixCount(ws, []) == |ws|
    ensures Answer(ws, []) == 0
    decreases |ws|
  {
    if ws != [] {
      PrefixCountEmpty(ws[..|ws| - 1]);
    }
  }

  /** Inserting the empty string changes no answer of count_prefix. */
  lemma AnswerEmptyInsert(ws: seq<string>, p: string)
    ensures Answer(ws + [""], p) == Answer(ws, p)
  {
    PrefixCountAppend(ws, "", p);
  }

  /** A path that has no node in the trie is a prefix of no inserted string. */
  lemma UnreachedPrefixCount(ws: seq<string>, at: map<string, TrieNode>, p: string)
    requires forall j, k :: 0 <= j < |ws| && 0 <= k <= |ws[j]| ==> ws[j][..k] in at
    requires p !in at
    ensures PrefixCount(ws, p) == 0
  {
    assert forall j :: 0 <= j < |ws| ==> !IsPrefix(p, ws[j]);
    PrefixCountZero(ws, p);
  }

  class TrieNode {
    var pointers: map<char, TrieNode>
    var downWords: int

    constructor ()
      ensures pointers == map[] && downWords == 0
    {
      pointers := map[];
      downWords := 0;
    }
  }

  class Trie {
    const root: TrieNode
    ghost var Words: seq<string>
    ghost var At: map<string, TrieNode>
    ghost var Nodes: set<TrieNode>

    /** The shape of the trie: the node of every path is in the footprint, the root is the node
        of the empty path, distinct paths have distinct nodes (no sharing), and edges and paths
        agree in both directions. It reads only the edges. */
    ghost predicate Linked()
      reads this`At, this`Nodes, Nodes`pointers
    {
      && (forall p {:trigger At[p]} :: p in At ==> At[p] in Nodes)
      && [] in At && At[[]] == root
      && (forall p, q {:trigger At[p], At[q]} :: p in At && q in At && p != q ==> At[p] != At[q])
      && (forall p, c {:trigger c in At[p].pointers} ::
            p in At && c in At[p].pointers ==> p + [c] in At && At[p].pointers[c] == At[p + [c]])
      && (forall p, c {:trigger p + [c]} :: p + [c] in At ==> p in At && c in At[p].pointers)
    }

    /** Every prefix of an inserted string has a node. */
    ghost predicate Covers(ws: seq<string>)
      reads this`At
    {
      forall j, k :: 0 <= j < |ws| && 0 <= k <= |ws[j]| ==> ws[j][..k] in At
    }

    /** The trie holds Words: below the root every counter is the number of inserted strings
        through its node (at least one), and the root's counter stays 0. */
    ghost predicate Valid()
      reads this, Nodes
    {
      && Linked() && Covers(Words)
      && root in Nodes && root.downWords == 0
      && (forall p {:trigger At[p]} :: p in At && p != [] ==> At[p].downWords == PrefixCount(Words, p) >= 1)
    }

    /** p is one of the first i+1 prefixes of s: a path that insert has walked after i characters. */
    static predicate Walked(p: string, s: string, i: nat) {
      |p| <= i && |p| <= |s| && s[..|p|] == p
    }

    /** The state of insert after the first i characters of s, with ws inserted before: the
        nodes of ws and of s[..i] exist, and every counter is the count for ws plus one on the
        walked path. */
    ghost predicate Partial(ws: seq<string>, s: string, i: nat)
      reads this`At, this`Nodes, Nodes`pointers, Nodes`downWords
    {
      && i <= |s| && Linked() && Covers(ws)
      && root in Nodes && root.downWords == 0
      && (forall k :: 0 <= k <= i ==> s[..k] in At)
      && (forall p {:trigger At[p]} :: p in At && p != [] ==>
            At[p].downWords == PrefixCount(ws, p) + (if Walked(p, s, i) then 1 else 0))
    }

    constructor ()
      ensures Valid() && Words == [] && fresh(Nodes)
    {
      root := new TrieNode();
      Words := [];
      At := map[[] := root];
      Nodes := {root};
      new;
      assert forall p :: p in At ==> p == [];
    }

    /** insert: walk down the characters of sentence, creating the missing children with a
        count of 1 and incrementing the count of the children that exist. */
    method Insert(sentence: string)
      requires Valid()
      modifies this, Nodes
      ensures Valid() && Words == old(Words) + [sentence]
      ensures old(Nodes) <= Nodes && fresh(Nodes - old(Nodes))
      ensures forall p :: p in old(At) ==> p in At && At[p] == old(At[p])
      ensures forall p :: p in At && p !in old(At) ==> p != [] && IsPrefix(p, sentence)
    {
      ghost var W0 := Words;
      ghost var A0 := At;
      assert forall p :: p in A0 && p != [] ==> PrefixCount(W0, p) >= 1;
      WalkPath(sentence);
      Words := W0 + [sentence];
      Completed(W0, sentence);
    }

    /** The loop of insert: every node on the path of s counts one more string, and the
        missing nodes of the path are created. */
    method WalkPath(s: string)
      requires Valid()
      modifies this`At, this`Nodes, Nodes`downWords, Nodes`pointers
      ensures Words == old(Words) && Partial(Words, s, |s|)
      ensures old(Nodes) <= Nodes && fresh(Nodes - old(Nodes))
      ensures forall p :: p in old(At) ==> p in At && At[p] == old(At[p])
      ensures forall p :: p in At && p !in old(At) ==> p != [] && Walked(p, s, |s|)
    {
      assert forall p :: !Walked(p, s, 0) || p == [];
      var cur := root;
      var i := 0;
      while i < |s|
        invariant Partial(Words, s, i)
        invariant cur == At[s[..i]]
        invariant old(Nodes) <= Nodes && fresh(Nodes - old(Nodes))
        invariant forall p :: p in old(At) ==> p in At && At[p] == old(At[p])
        invariant forall p :: p in At && p !in old(At) ==> p != [] && Walked(p, s, i)
      {
        cur := Descend(cur, Words, s, i);
        i := i + 1;
      }
    }

    /** Below the root, a child's counter never exceeds its parent's. */
    lemma CountsDescend(p: string, c: char)
      requires Valid() && p != [] && p + [c] in At
      ensures p in At && At[p + [c]].downWords <= At[p].downWords
    {
      assert (p + [c])[..|p|] == p;
      PrefixCountMonotone(Words, p, p + [c]);
    }

    /** Once all of s is walked, the counters are those of ws followed by s. */
    lemma Completed(ws: seq<string>, s: string)
      requires Partial(ws, s, |s|) && Words == ws + [s]
      requires forall p :: p in At && p != [] ==> PrefixCount(ws, p) >= 1 || Walked(p, s, |s|)
      ensures Valid()
    {
      forall p | p in At && p != []
        ensures At[p].downWords == PrefixCount(Words, p) >= 1
      {
        PrefixCountAppend(ws, s, p);
      }
      assert s[..|s|] == s;
      assert forall k :: 0 <= k <= |s| ==> Words[|ws|][..k] in At;
    }

    /** One step of insert: follow (or create) the edge for s[i] below cur and count one more
        string through the node reached. */
    method Descend(cur: TrieNode, ghost ws: seq<string>, s: string, i: nat) returns (n: TrieNode)
      requires Partial(ws, s, i) && i < |s| && cur == At[s[..i]]
      modifies this`At, this`Nodes, Nodes`downWords, cur`pointers
      ensures Partial(ws, s, i + 1) && n == At[s[..i + 1]]
      ensures old(Nodes) <= Nodes && fresh(Nodes - old(Nodes))
      ensures forall p :: p in old(At) ==> p in At && At[p] == old(At[p])
      ensures forall p :: p in At && p !in old(At) ==> p == s[..i + 1]
    {
      PrefixStep(s, i);
      ghost var next := s[..i + 1];
      ghost var at0 := At;
      var c := s[i];
      if c !in cur.pointers {
        UnreachedPrefixCount(ws, At, next);
        n := Link(cur, s[..i], c);
        n.downWords := 1;
      } else {
        n := cur.pointers[c];
        assert n == At[next];
        n.downWords := n.downWords + 1;
      }
      forall p | p in At && p != []
        ensures At[p].downWords == PrefixCount(ws, p) + (if Walked(p, s, i + 1) then 1 else 0)
      {
        WalkedStep(p, s, i);
        if p != next {
          assert p in at0 && At[p] == at0[p] && At[p] != n;
        }
      }
    }

    /** One more character walked adds exactly the path s[..i + 1]. */
    static lemma WalkedStep(p: string, s: string, i: nat)
      requires i < |s|
      ensures Walked(p, s, i + 1) <==> Walked(p, s, i) || p == s[..i + 1]
    {
    }

    /** s[..i + 1] extends s[..i] by the character s[i]. */
    static lemma PrefixStep(s: string, i: nat)
      requires i < |s|
      ensures s[..i + 1][..i] == s[..i] && s[..i + 1][i] == s[i] && s[..i] + [s[i]] == s[..i + 1]
    {
    }

    /** The missing edge below the node of path p0: a new empty node for p0 + [c0]. Only the
        shape changes; no counter is touched. */
    method Link(cur: TrieNode, ghost p0: string, c0: char) returns (n: TrieNode)
      requires Linked() && p0 in At && cur == At[p0] && c0 !in cur.pointers
      modifies this`At, this`Nodes, cur`pointers
      ensures Linked()
      ensures fresh(n) && n.downWords == 0 && Nodes == old(Nodes) + {n}
      ensures p0 + [c0] !in old(At) && At == old(At)[p0 + [c0] := n]
      ensures cur.pointers == old(cur.pointers)[c0 := n]
    {
      ghost var next := p0 + [c0];
      ghost var at0 := At;
      assert next !in At;
      n := new TrieNode();
      cur.pointers := cur.pointers[c0 := n];
      At := At[next := n];
      Nodes := Nodes + {n};
      forall p, c | p in At && c in At[p].pointers
        ensures p + [c] in At && At[p].pointers[c] == At[p + [c]]
      {
        if p == next {
          assert false;
        } else if p == p0 {
          if c != c0 {
            assert c in old(cur.pointers);
          }
        } else {
          assert p in at0 && At[p] == at0[p] && at0[p] != cur && at0[p] != n;
          assert At[p].pointers == old(at0[p].pointers);
          assert p + [c] in at0;
        }
      }
      forall p, c | p + [c] in At ensures p in At && c in At[p].pointers {
        if p + [c] == next {
          AppendInjective(p, c, p0, c0);
        }
      }
    }

    static lemma AppendInjective(p: string, c: char, q: string, d: char)
      requires p + [c] == q + [d]
      ensures p == q && c == d
    {
      assert p == (p + [c])[..|p|];
      assert q == (q + [d])[..|q|];
    }

    /** count_prefix: follow the characters of q_text from the root; a missing edge answers 0,
        otherwise the counter of the node reached. It changes nothing. */
    method CountPrefix(q_text: string) returns (n: nat)
      requires Valid()
      ensures q_text != [] ==> n == PrefixCount(Words, q_text)
      ensures q_text == [] ==> n == 0
      ensures q_text !in At ==> n == 0
    {
      var cur := root;
      var i := 0;
      while i < |q_text|
        invariant 0 <= i <= |q_text|
        invariant q_text[..i] in At && cur == At[q_text[..i]]
      {
        var c := q_text[i];
        ghost var next := q_text[..i + 1];
        assert q_text[..i] + [c] == next;
        if c !in cur.pointers {
          assert next !in At;
          UnreachedPrefixCount(Words, At, next);
          PrefixCountMonotone(Words, next, q_text);
          return 0;
        }
        cur := cur.pointers[c];
        i := i + 1;
      }
      assert q_text[..i] == q_text;
      n := cur.downWords;
    }
  }
}

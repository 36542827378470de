/**
 * The dictionary trie as the vector of nodes it is stored in: each node has
 * 26 child indices (-1 for no child) and an end-of-word flag, node 0 is the
 * root, and a node's children are always appended after it.
 *
 * This module gives the meaning of such a vector: following a word from a
 * node (`Walk`), the words it stores (`Stored`), the words below a node in
 * the order a depth-first search visits them (`Enum`), and how the vector
 * may grow while keeping every stored word (`EdgesGrow`, `FlagsKept`).
 */
module TrieNodes {
  import opened Strings

  /** No child along this letter. */
  const Absent := -1

  datatype Node = Node(next: seq<int>, flag: bool)

  /** A node with no children that ends no word. */
  function EmptyNode(): (n: Node)
    ensures |n.next| == 26 && !n.flag && forall c :: 0 <= c < 26 ==> n.next[c] == Absent
  {
    Node(seq(26, _ => Absent), false)
  }

  /**
   * The vector is a trie: it has a root, every node has 26 slots, and every
   * child index lies after its parent and inside the vector.
   */
  ghost predicate WellFormed(nodes: seq<Node>)
  {
    && |nodes| >= 1
    && (forall i :: 0 <= i < |nodes| ==> |nodes[i].next| == 26)
    && (forall i, c :: 0 <= i < |nodes| && 0 <= c < 26 ==>
          nodes[i].next[c] == Absent || i < nodes[i].next[c] < |nodes|)
  }

  /** The node reached from node `x` by following the letters of `t`, or -1 when an edge is missing. */
  ghost function Walk(nodes: seq<Node>, x: int, t: string): (r: int)
    requires WellFormed(nodes) && 0 <= x < |nodes| && IsLower(t)
    ensures -1 <= r < |nodes| && (r == -1 || r >= x)
    decreases |t|
  {
    if |t| == 0 then x
    else
      var p := Walk(nodes, x, t[..|t| - 1]);
      if p == -1 then -1 else nodes[p].next[Index(t[|t| - 1])]
  }

  /** `t` is a word of the dictionary: its walk from the root ends on a flagged node. */
  ghost predicate Stored(nodes: seq<Node>, t: string)
    requires WellFormed(nodes)
  {
    IsLower(t) && Walk(nodes, 0, t) >= 0 && nodes[Walk(nodes, 0, t)].flag
  }

  /** Walking `t + u` is walking `t` and then `u`. */
  lemma {:induction false} WalkAppend(nodes: seq<Node>, x: int, t: string, u: string)
    requires WellFormed(nodes) && 0 <= x < |nodes| && IsLower(t) && IsLower(u)
    ensures IsLower(t + u)
    ensures Walk(nodes, x, t + u) == (if Walk(nodes, x, t) == -1 then -1 else Walk(nodes, Walk(nodes, x, t), u))
    decreases |u|
  {
    if |u| == 0 {
      EmptySuffix(t);
    } else {
      var v := u[..|u| - 1];
      WalkAppend(nodes, x, t, v);
      assert (t + u)[..|t + u| - 1] == t + v;
    }
  }

  /** Walking a word that starts with `ch` is taking the `ch` edge and walking the rest. */
  lemma WalkFront(nodes: seq<Node>, x: int, ch: char, u: string)
    requires WellFormed(nodes) && 0 <= x < |nodes| && 'a' <= ch <= 'z' && IsLower(u)
    ensures IsLower([ch] + u)
    ensures Walk(nodes, x, [ch] + u) ==
      (if nodes[x].next[Index(ch)] == Absent then -1 else Walk(nodes, nodes[x].next[Index(ch)], u))
  {
    assert [ch][..0] == [];
    WalkAppend(nodes, x, [ch], u);
  }

  /** Once a prefix of `t` has no walk, neither has `t`. */
  lemma WalkBroken(nodes: seq<Node>, x: int, t: string, k: nat)
    requires WellFormed(nodes) && 0 <= x < |nodes| && IsLower(t) && k <= |t|
    requires Walk(nodes, x, t[..k]) == -1
    ensures Walk(nodes, x, t) == -1
  {
    assert t[..k] + t[k..] == t;
    WalkAppend(nodes, x, t[..k], t[k..]);
  }

  /** One more letter of `t`: the walk takes that letter's edge. */
  lemma WalkStep(nodes: seq<Node>, x: int, t: string, k: nat)
    requires WellFormed(nodes) && 0 <= x < |nodes| && IsLower(t) && k < |t|
    ensures Walk(nodes, x, t[..k + 1]) ==
      (if Walk(nodes, x, t[..k]) == -1 then -1 else nodes[Walk(nodes, x, t[..k])].next[Index(t[k])])
  {
    assert t[..k + 1][..k] == t[..k];
  }

  // Depth-first enumeration

  /** The word ending at node `x` itself, as a one-element list, if `x` is flagged. */
  ghost function Here(nodes: seq<Node>, x: int): seq<string>
    requires 0 <= x < |nodes|
  {
    if nodes[x].flag then [[]] else []
  }

  /** The node's own word after path `p` is `p` itself. */
  lemma PrefixedHere(nodes: seq<Node>, x: int, p: string)
    requires 0 <= x < |nodes|
    ensures Prefixed(p, Here(nodes, x)) == (if nodes[x].flag then [p] else [])
  {
    EmptySuffix(p);
  }

  /**
   * The words below node `x`, relative to it, in the order the depth-first
   * search reports them: the node's own word, then the subtrees of its
   * children from 'a' to 'z'.
   */
  ghost function Enum(nodes: seq<Node>, x: int): seq<string>
    requires WellFormed(nodes) && 0 <= x < |nodes|
    decreases |nodes| - x, 1
  {
    Here(nodes, x) + Groups(nodes, x, 26)
  }

  /** The subtrees of the first `i` children of node `x`. */
  ghost function Groups(nodes: seq<Node>, x: int, i: int): seq<string>
    requires WellFormed(nodes) && 0 <= x < |nodes| && 0 <= i <= 26
    decreases |nodes| - x, 0, i
  {
    if i == 0 then [] else Groups(nodes, x, i - 1) + Group(nodes, x, i - 1)
  }

  /** The subtree of child `c` of node `x`, each word led by letter `c`. */
  ghost function Group(nodes: seq<Node>, x: int, c: int): seq<string>
    requires WellFormed(nodes) && 0 <= x < |nodes| && 0 <= c < 26
    decreases |nodes| - x, 0, 0
  {
    var child := nodes[x].next[c];
    if child == Absent then [] else Prefixed([Letter(c)], Enum(nodes, child))
  }

  /** The words of child `c`'s group start with letter `c` and continue with a word below the child. */
  lemma GroupMembers(nodes: seq<Node>, x: int, c: int, u: string)
    requires WellFormed(nodes) && 0 <= x < |nodes| && 0 <= c < 26
    ensures u in Group(nodes, x, c) <==>
      |u| >= 1 && u[0] == Letter(c) && nodes[x].next[c] != Absent && u[1..] in Enum(nodes, nodes[x].next[c])
  {
    var child := nodes[x].next[c];
    if child != Absent {
      PrefixedMembers([Letter(c)], Enum(nodes, child), u);
      if |u| >= 1 {
        assert u[..1] == [Letter(c)] <==> u[0] == Letter(c);
      }
    }
  }

  /** A word lies among the first `i` groups exactly when it lies in the group of its first letter, below `i`. */
  lemma {:induction false} GroupsMembers(nodes: seq<Node>, x: int, i: int, u: string)
    requires WellFormed(nodes) && 0 <= x < |nodes| && 0 <= i <= 26
    ensures u in Groups(nodes, x, i) <==>
      |u| >= 1 && 'a' <= u[0] && Index(u[0]) < i && u in Group(nodes, x, Index(u[0]))
    decreases i
  {
    if i > 0 {
      GroupsMembers(nodes, x, i - 1, u);
      GroupMembers(nodes, x, i - 1, u);
      if |u| >= 1 && 'a' <= u[0] && Index(u[0]) < i - 1 {
        GroupMembers(nodes, x, Index(u[0]), u);
      }
    }
  }

  /**
   * The enumeration below node `x` holds exactly the words whose walk from
   * `x` ends on a flagged node.
   */
  lemma {:induction false} EnumMembers(nodes: seq<Node>, x: int, u: string)
    requires WellFormed(nodes) && 0 <= x < |nodes|
    ensures u in Enum(nodes, x) <==> IsLower(u) && Walk(nodes, x, u) >= 0 && nodes[Walk(nodes, x, u)].flag
    decreases |u|
  {
    GroupsMembers(nodes, x, 26, u);
    if |u| >= 1 {
      var ch, rest := u[0], u[1..];
      assert u == [ch] + rest;
      assert IsLower(u) <==> 'a' <= ch <= 'z' && IsLower(rest);
      if 'a' <= ch <= 'z' {
        LetterOfIndex(ch);
        GroupMembers(nodes, x, Index(ch), u);
        var child := nodes[x].next[Index(ch)];
        if child != Absent {
          EnumMembers(nodes, child, rest);
        }
        if IsLower(rest) {
          WalkFront(nodes, x, ch, rest);
        }
      }
    }
  }

  /**
   * The words stored under prefix `p` are `p` followed by the words below the
   * node `p` walks to; there are none when that walk breaks off.
   */
  lemma Below(nodes: seq<Node>, p: string, w: string)
    requires WellFormed(nodes) && IsLower(p)
    ensures Walk(nodes, 0, p) == -1 ==> !(Stored(nodes, w) && |p| <= |w| && w[..|p|] == p)
    ensures Walk(nodes, 0, p) >= 0 ==>
      (w in Prefixed(p, Enum(nodes, Walk(nodes, 0, p))) <==> Stored(nodes, w) && |p| <= |w| && w[..|p|] == p)
  {
    var x := Walk(nodes, 0, p);
    if x >= 0 {
      PrefixedMembers(p, Enum(nodes, x), w);
    }
    if |p| <= |w| && w[..|p|] == p {
      var u := w[|p|..];
      assert p + u == w;
      assert IsLower(w) ==> IsLower(u);
      if x >= 0 {
        EnumMembers(nodes, x, u);
      }
      if IsLower(u) {
        WalkAppend(nodes, 0, p, u);
      }
    }
  }

  /** The words of the first `i` groups come out strictly sorted. */
  lemma {:induction false} GroupsSorted(nodes: seq<Node>, x: int, i: int)
    requires WellFormed(nodes) && 0 <= x < |nodes| && 0 <= i <= 26
    ensures StrictlySorted(Groups(nodes, x, i))
    decreases |nodes| - x, 0, i
  {
    if i > 0 {
      GroupsSorted(nodes, x, i - 1);
      var child := nodes[x].next[i - 1];
      if child != Absent {
        EnumSorted(nodes, child);
        PrefixedSorted([Letter(i - 1)], Enum(nodes, child));
      }
      forall v, w | v in Groups(nodes, x, i - 1) && w in Group(nodes, x, i - 1)
        ensures Less(v, w)
      {
        GroupsMembers(nodes, x, i - 1, v);
        GroupMembers(nodes, x, i - 1, w);
      }
      SortedConcat(Groups(nodes, x, i - 1), Group(nodes, x, i - 1));
    }
  }

  /** The words below a node come out strictly sorted: lexicographic order, each once. */
  lemma {:induction false} EnumSorted(nodes: seq<Node>, x: int)
    requires WellFormed(nodes) && 0 <= x < |nodes|
    ensures StrictlySorted(Enum(nodes, x))
    decreases |nodes| - x, 1
  {
    GroupsSorted(nodes, x, 26);
    forall v, w | v in Here(nodes, x) && w in Groups(nodes, x, 26)
      ensures Less(v, w)
    {
      GroupsMembers(nodes, x, 26, w);
    }
    SortedConcat(Here(nodes, x), Groups(nodes, x, 26));
  }

  // Growth by insertion

  /**
   * `b` extends `a`: it is at least as long, and each edge of `a` is kept,
   * except that a missing edge may be set to a node appended after `a`.
   */
  ghost predicate EdgesGrow(a: seq<Node>, b: seq<Node>)
    requires WellFormed(a) && WellFormed(b)
  {
    |a| <= |b| &&
    forall i, c :: 0 <= i < |a| && 0 <= c < 26 ==>
      b[i].next[c] == a[i].next[c] || (a[i].next[c] == Absent && b[i].next[c] >= |a|)
  }

  /** The flags of `a`'s nodes are unchanged in `b`, and the nodes appended after them are unflagged. */
  ghost predicate FlagsKept(a: seq<Node>, b: seq<Node>)
  {
    |a| <= |b| &&
    (forall i :: 0 <= i < |a| ==> b[i].flag == a[i].flag) &&
    (forall i :: |a| <= i < |b| ==> !b[i].flag)
  }

  lemma GrowTrans(a: seq<Node>, b: seq<Node>, c: seq<Node>)
    requires WellFormed(a) && WellFormed(b) && WellFormed(c)
    requires EdgesGrow(a, b) && EdgesGrow(b, c) && FlagsKept(a, b) && FlagsKept(b, c)
    ensures EdgesGrow(a, c) && FlagsKept(a, c)
  {
  }

  /** A walk that exists in `a` is the same walk in a grown `b`. */
  lemma {:induction false} WalkKept(a: seq<Node>, b: seq<Node>, x: int, t: string)
    requires WellFormed(a) && WellFormed(b) && EdgesGrow(a, b) && 0 <= x < |a| && IsLower(t)
    requires Walk(a, x, t) >= 0
    ensures Walk(b, x, t) == Walk(a, x, t)
    decreases |t|
  {
    if |t| > 0 {
      WalkKept(a, b, x, t[..|t| - 1]);
    }
  }

  /** A walk in a grown `b` that ends on one of `a`'s nodes is the same walk in `a`. */
  lemma {:induction false} WalkBack(a: seq<Node>, b: seq<Node>, x: int, t: string)
    requires WellFormed(a) && WellFormed(b) && EdgesGrow(a, b) && 0 <= x < |a| && IsLower(t)
    requires 0 <= Walk(b, x, t) < |a|
    ensures Walk(a, x, t) == Walk(b, x, t)
    decreases |t|
  {
    if |t| > 0 {
      WalkBack(a, b, x, t[..|t| - 1]);
    }
  }

  /** Growth that keeps the flags keeps the stored words, no more and no fewer. */
  lemma GrowthKeepsWords(a: seq<Node>, b: seq<Node>, t: string)
    requires WellFormed(a) && WellFormed(b) && EdgesGrow(a, b) && FlagsKept(a, b)
    ensures Stored(b, t) <==> Stored(a, t)
  {
    if IsLower(t) {
      if Walk(a, 0, t) >= 0 {
        WalkKept(a, b, 0, t);
      }
      if 0 <= Walk(b, 0, t) < |a| {
        WalkBack(a, b, 0, t);
      }
    }
  }

  /** The vector after giving node `x` a new child along letter `c`, appended at the end. */
  function Attach(nodes: seq<Node>, x: int, c: int): seq<Node>
    requires 0 <= x < |nodes| && 0 <= c < |nodes[x].next|
  {
    nodes[x := nodes[x].(next := nodes[x].next[c := |nodes|])] + [EmptyNode()]
  }

  /** Attaching a child to a missing edge is growth that keeps the flags. */
  lemma AttachGrows(nodes: seq<Node>, x: int, c: int)
    requires WellFormed(nodes) && 0 <= x < |nodes| && 0 <= c < 26 && nodes[x].next[c] == Absent
    ensures WellFormed(Attach(nodes, x, c))
    ensures EdgesGrow(nodes, Attach(nodes, x, c)) && FlagsKept(nodes, Attach(nodes, x, c))
    ensures Attach(nodes, x, c)[x].next[c] == |nodes|
  {
  }

  // Labels: the word spelled by the path to each node

  /** `labels[i]` is the word along the edges from the root to node `i`. */
  ghost predicate Labelled(nodes: seq<Node>, labels: seq<string>)
    requires WellFormed(nodes)
  {
    |labels| == |nodes| && labels[0] == [] &&
    forall i, c :: 0 <= i < |nodes| && 0 <= c < 26 && nodes[i].next[c] != Absent ==>
      labels[nodes[i].next[c]] == labels[i] + [Letter(c)]
  }

  /** The walk of `t` from the root ends on the node labelled `t`: no two words share a node. */
  lemma {:induction false} WalkLabel(nodes: seq<Node>, labels: seq<string>, t: string)
    requires WellFormed(nodes) && Labelled(nodes, labels) && IsLower(t) && Walk(nodes, 0, t) >= 0
    ensures labels[Walk(nodes, 0, t)] == t
    decreases |t|
  {
    if |t| > 0 {
      var prev := t[..|t| - 1];
      WalkLabel(nodes, labels, prev);
      LetterOfIndex(t[|t| - 1]);
      assert prev + [t[|t| - 1]] == t;
    }
  }

  /** The new node's label is its parent's label and the edge's letter. */
  lemma AttachLabelled(nodes: seq<Node>, labels: seq<string>, x: int, c: int)
    requires WellFormed(nodes) && Labelled(nodes, labels)
    requires 0 <= x < |nodes| && 0 <= c < 26 && nodes[x].next[c] == Absent
    ensures WellFormed(Attach(nodes, x, c))
    ensures Labelled(Attach(nodes, x, c), labels + [labels[x] + [Letter(c)]])
  {
    AttachGrows(nodes, x, c);
  }

  /**
   * Insertion's step along `s`: the walk of s[..k] reaches node `x`, which
   * has no edge for s[k], and `grown` attaches one. The result is a grown
   * trie whose new node is labelled s[..k + 1], where the walk of s[..k + 1]
   * now ends.
   */
  lemma AttachAlong(nodes: seq<Node>, labels: seq<string>, s: string, k: nat, x: int, grown: seq<Node>)
    requires WellFormed(nodes) && Labelled(nodes, labels) && IsLower(s) && k < |s|
    requires Walk(nodes, 0, s[..k]) == x >= 0 && nodes[x].next[Index(s[k])] == Absent
    requires grown == Attach(nodes, x, Index(s[k]))
    ensures WellFormed(grown) && Labelled(grown, labels + [s[..k + 1]])
    ensures EdgesGrow(nodes, grown) && FlagsKept(nodes, grown)
    ensures Walk(grown, 0, s[..k]) == x
  {
    WalkLabel(nodes, labels, s[..k]);
    LetterOfIndex(s[k]);
    SliceStep(s, k);
    AttachGrows(nodes, x, Index(s[k]));
    AttachLabelled(nodes, labels, x, Index(s[k]));
    WalkKept(nodes, grown, 0, s[..k]);
  }

  /** The vector after flagging node `x` as the end of a word. */
  function Mark(nodes: seq<Node>, x: int): seq<Node>
    requires 0 <= x < |nodes|
  {
    nodes[x := nodes[x].(flag := true)]
  }

  /** Flagging the node that `s` walks to adds `s` to the stored words and nothing else. */
  lemma MarkAdds(nodes: seq<Node>, labels: seq<string>, s: string, t: string)
    requires WellFormed(nodes) && Labelled(nodes, labels) && IsLower(s) && Walk(nodes, 0, s) >= 0
    ensures WellFormed(Mark(nodes, Walk(nodes, 0, s)))
    ensures Labelled(Mark(nodes, Walk(nodes, 0, s)), labels)
    ensures Stored(Mark(nodes, Walk(nodes, 0, s)), t) <==> Stored(nodes, t) || t == s
  {
    var marked := Mark(nodes, Walk(nodes, 0, s));
    if IsLower(t) {
      SameEdgesSameWalk(nodes, marked, t);
      if Walk(nodes, 0, t) >= 0 {
        WalkLabel(nodes, labels, t);
        WalkLabel(nodes, labels, s);
      }
    }
  }

  /** Walks depend on the edges only. */
  lemma {:induction false} SameEdgesSameWalk(a: seq<Node>, b: seq<Node>, t: string)
    requires WellFormed(a) && WellFormed(b) && |a| == |b| && IsLower(t)
    requires forall i :: 0 <= i < |a| ==> a[i].next == b[i].next
    ensures Walk(a, 0, t) == Walk(b, 0, t)
    decreases |t|
  {
    if |t| > 0 {
      SameEdgesSameWalk(a, b, t[..|t| - 1]);
    }
  }

  /** The trie of a single empty root stores no word. */
  lemma {:induction false} EmptyStoresNothing(t: string)
    requires IsLower(t)
    ensures WellFormed([EmptyNode()])
    ensures Walk([EmptyNode()], 0, t) == (if |t| == 0 then 0 else -1)
    ensures !Stored([EmptyNode()], t)
    decreases |t|
  {
    if |t| > 1 {
      EmptyStoresNothing(t[..|t| - 1]);
    }
  }
}

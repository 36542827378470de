/**
 * The dictionary: a trie kept in a growing vector of nodes, with insertion,
 * spell check, prefix completion and correction within edit distance 3.
 * The two searches are depth-first and share one mutable path and one
 * result list between their recursive calls.
 */
module Dictionary {
  import opened Strings
  import opened TrieNodes
  import opened Levenshtein

  /** The state a search threads through its recursion: the path so far and the words found. */
  class Search {
    var path: string
    var results: seq<string>

    constructor(start: string)
      ensures path == start && results == []
    {
      path := start;
      results := [];
    }
  }

  class Trie {
    /** The node vector; node 0 is the root. */
    var nodes: seq<Node>
    /** The word spelled by the path to each node. */
    ghost var Labels: seq<string>
    /** The words inserted so far. */
    ghost var Words: set<string>

    ghost predicate Valid()
      reads this
    {
      WellFormed(nodes) && Labelled(nodes, Labels) && forall t :: t in Words <==> Stored(nodes, t)
    }

    /** A trie holding only the root, which stores no word. */
    constructor()
      ensures Valid() && Words == {} && nodes == [EmptyNode()]
    {
      nodes := [EmptyNode()];
      Labels := [[]];
      Words := {};
      new;
      EmptyStoresNothing([]);
      forall t
        ensures !Stored(nodes, t)
      {
        if IsLower(t) {
          EmptyStoresNothing(t);
        }
      }
    }

    /**
     * Adds `s`, appending a node for each missing edge along its path and
     * flagging the last one. Existing edges are kept, no flag but the end
     * node's changes, the appended nodes end no word, and inserting a word
     * that is already stored changes nothing.
     */
    method Insert(s: string)
      requires Valid() && IsLower(s)
      modifies this
      ensures Valid() && Words == old(Words) + {s}
      ensures EdgesGrow(old(nodes), nodes)
      ensures 0 <= Walk(nodes, 0, s) < |nodes|
      ensures forall i :: 0 <= i < |nodes| && i != Walk(nodes, 0, s) ==>
                nodes[i].flag == (i < |old(nodes)| && old(nodes)[i].flag)
      ensures s in old(Words) ==> nodes == old(nodes)
    {
      var node := Extend(s);
      ghost var before := nodes;
      nodes := nodes[node := nodes[node].(flag := true)];
      forall t
        ensures Stored(nodes, t) <==> Stored(old(nodes), t) || t == s
      {
        MarkAdds(before, Labels, s, t);
        GrowthKeepsWords(old(nodes), before, t);
      }
      Words := Words + {s};
      SameEdgesSameWalk(before, nodes, s);
    }

    /**
     * The walk along `s` in `Insert`: appends a node for every missing edge
     * and returns the node where `s` ends. Nothing changes when the whole
     * path is already there.
     */
    method Extend(s: string) returns (node: int)
      requires WellFormed(nodes) && Labelled(nodes, Labels) && IsLower(s)
      modifies this
      ensures WellFormed(nodes) && Labelled(nodes, Labels) && Words == old(Words)
      ensures EdgesGrow(old(nodes), nodes) && FlagsKept(old(nodes), nodes)
      ensures 0 <= node < |nodes| && Walk(nodes, 0, s) == node
      ensures Walk(old(nodes), 0, s) >= 0 ==> nodes == old(nodes)
    {
      node := 0;
      for k := 0 to |s|
        invariant WellFormed(nodes) && Labelled(nodes, Labels) && Words == old(Words)
        invariant EdgesGrow(old(nodes), nodes) && FlagsKept(old(nodes), nodes)
        invariant IsLower(s[..k]) && 0 <= node < |nodes| && Walk(nodes, 0, s[..k]) == node
        invariant Walk(old(nodes), 0, s) >= 0 ==> nodes == old(nodes)
      {
        var index := Index(s[k]);
        if nodes[node].next[index] == Absent {
          WalkStep(nodes, 0, s, k);
          WalkBroken(nodes, 0, s, k + 1);
          ghost var before := nodes;
          AddChild(node, index, s, k);
          GrowTrans(old(nodes), before, nodes);
        }
        WalkStep(nodes, 0, s, k);
        node := nodes[node].next[index];
      }
      assert s[..|s|] == s;
    }

    /**
     * Gives `node` a new child along letter `index`: the edge is set to the
     * vector's size and an empty node is appended. `node` is where the walk
     * of s[..k] ends, so the new node is labelled s[..k + 1].
     */
    method AddChild(node: int, index: int, ghost s: string, ghost k: nat)
      requires WellFormed(nodes) && Labelled(nodes, Labels) && IsLower(s) && k < |s|
      requires Walk(nodes, 0, s[..k]) == node >= 0 && index == Index(s[k]) && nodes[node].next[index] == Absent
      modifies this
      ensures nodes == Attach(old(nodes), node, index) && Words == old(Words)
      ensures WellFormed(nodes) && Labelled(nodes, Labels)
      ensures EdgesGrow(old(nodes), nodes) && FlagsKept(old(nodes), nodes)
      ensures Walk(nodes, 0, s[..k]) == node
    {
      ghost var before := nodes;
      nodes := nodes[node := nodes[node].(next := nodes[node].next[index := |nodes|])];
      nodes := nodes + [EmptyNode()];
      AttachAlong(before, Labels, s, k, node, nodes);
      Labels := Labels + [s[..k + 1]];
    }

    /** 1 when `t` is a stored word, 0 when its path breaks off or ends on an unflagged node. */
    method SpellCheck(t: string) returns (r: int)
      requires Valid() && IsLower(t)
      ensures r == (if t in Words then 1 else 0)
    {
      var node := 0;
      for k := 0 to |t|
        invariant IsLower(t[..k]) && 0 <= node < |nodes| && Walk(nodes, 0, t[..k]) == node
      {
        var index := Index(t[k]);
        WalkStep(nodes, 0, t, k);
        if nodes[node].next[index] == Absent {
          WalkBroken(nodes, 0, t, k + 1);
          return 0;
        }
        node := nodes[node].next[index];
      }
      assert t[..|t|] == t;
      return if nodes[node].flag then 1 else 0;
    }

    /**
     * Appends every word below `node` to the results, each after the current
     * path, in lexicographic order; the path is restored on return.
     */
    method Dfs(node: int, search: Search)
      requires WellFormed(nodes) && 0 <= node < |nodes|
      modifies search
      ensures search.path == old(search.path)
      ensures search.results == old(search.results) + Prefixed(old(search.path), Enum(nodes, node))
      decreases |nodes| - node, 1
    {
      EmptySuffix(search.path);
      if nodes[node].flag {
        search.results := search.results + [search.path];
      }
      PrefixedHere(nodes, node, old(search.path));
      assert search.results == old(search.results) + Prefixed(old(search.path), Here(nodes, node));
      DfsChildren(node, search);
      PrefixedConcat(old(search.path), Here(nodes, node), Groups(nodes, node, 26));
      Assoc(old(search.results), Prefixed(old(search.path), Here(nodes, node)),
            Prefixed(old(search.path), Groups(nodes, node, 26)));
    }

    /** The loop of `Dfs` over the children of `node`, from 'a' to 'z'. */
    method DfsChildren(node: int, search: Search)
      requires WellFormed(nodes) && 0 <= node < |nodes|
      modifies search
      ensures search.path == old(search.path)
      ensures search.results == old(search.results) + Prefixed(old(search.path), Groups(nodes, node, 26))
      decreases |nodes| - node, 0
    {
      ghost var path := search.path;
      EmptySuffix(search.results);
      for i := 0 to 26
        invariant search.path == path
        invariant search.results == old(search.results) + Prefixed(path, Groups(nodes, node, i))
      {
        ghost var before := search.results;
        var child := nodes[node].next[i];
        if child != Absent {
          search.path := search.path + [Letter(i)];
          Dfs(child, search);
          search.path := search.path[..|search.path| - 1];
          PrefixedTwice(path, [Letter(i)], Enum(nodes, child));
        }
        Joined(old(search.results), path, Groups(nodes, node, i), Group(nodes, node, i), before, search.results);
      }
    }

    /**
     * The words stored with prefix `prefix`, in lexicographic order, each
     * once; none when the prefix's path breaks off.
     */
    method Autocomplete(prefix: string) returns (results: seq<string>)
      requires Valid() && IsLower(prefix)
      ensures StrictlySorted(results)
      ensures forall w :: w in results <==> w in Words && |prefix| <= |w| && w[..|prefix|] == prefix
    {
      var node := 0;
      for k := 0 to |prefix|
        invariant IsLower(prefix[..k]) && 0 <= node < |nodes| && Walk(nodes, 0, prefix[..k]) == node
      {
        var index := Index(prefix[k]);
        WalkStep(nodes, 0, prefix, k);
        if nodes[node].next[index] == Absent {
          WalkBroken(nodes, 0, prefix, k + 1);
          forall w
            ensures !(Stored(nodes, w) && |prefix| <= |w| && w[..|prefix|] == prefix)
          {
            Below(nodes, prefix, w);
          }
          return [];
        }
        node := nodes[node].next[index];
      }
      assert prefix[..|prefix|] == prefix;
      var search := new Search(prefix);
      Dfs(node, search);
      results := search.results;
      EnumSorted(nodes, node);
      PrefixedSorted(prefix, Enum(nodes, node));
      forall w
        ensures w in results <==> Stored(nodes, w) && |prefix| <= |w| && w[..|prefix|] == prefix
      {
        Below(nodes, prefix, w);
      }
    }

    /**
     * The DP row of `path`, filled from the row of its parent path: the first
     * cell is one more than the parent's, every further cell the cheapest of
     * insert, delete and replace against the prefix of `word`.
     */
    method NextRow(word: string, prevRow: array<int>, ghost parent: string, last: char)
      returns (currentRow: array<int>)
      requires IsRow(prevRow[..], parent, word)
      ensures fresh(currentRow) && IsRow(currentRow[..], parent + [last], word)
    {
      var m := |word|;
      ghost var path := parent + [last];
      currentRow := new int[m + 1];
      currentRow[0] := prevRow[0] + 1;
      RowStart(parent, last, word);
      for j := 1 to m + 1
        invariant forall k {:trigger currentRow[k]} :: 0 <= k < j ==> currentRow[k] == Lev(path, word[..k])
      {
        var insertCost := currentRow[j - 1] + 1;
        var deleteCost := prevRow[j] + 1;
        var replaceCost := prevRow[j - 1] + (if word[j - 1] == last then 0 else 1);
        CellStep(prevRow[..], parent, last, word, j, currentRow[j - 1]);
        currentRow[j] := Min(insertCost, Min(deleteCost, replaceCost));
      }
    }

    /** The smallest cell of the row. */
    method RowMin(row: array<int>) returns (minValue: int)
      requires row.Length >= 1
      ensures minValue == MinOf(row[..])
    {
      minValue := row[0];
      for j := 1 to row.Length
        invariant minValue == MinOf(row[..j])
      {
        assert row[..j + 1][..j] == row[..j];
        if row[j] < minValue {
          minValue := row[j];
        }
      }
      assert row[..row.Length] == row[..];
    }

    /**
     * Continues the edit-distance search one level down: `search.path` ends
     * with the letter of the edge into `node`, and `prevRow` is the row of the
     * path without that letter. Appends the words below `node` within the
     * distance limit, in lexicographic order; the path is restored on return.
     */
    method DfsDP(node: int, word: string, prevRow: array<int>, search: Search)
      requires WellFormed(nodes) && 0 <= node < |nodes|
      requires |search.path| >= 1 && IsRow(prevRow[..], search.path[..|search.path| - 1], word)
      modifies search
      ensures search.path == old(search.path)
      ensures search.results ==
        old(search.results) + Within(Prefixed(old(search.path), Enum(nodes, node)), word)
      decreases |nodes| - node, 2
    {
      ghost var path := search.path;
      ghost var parent := path[..|path| - 1];
      assert parent + [path[|path| - 1]] == path;
      var currentRow := NextRow(word, prevRow, parent, search.path[|search.path| - 1]);
      var m := |word|;
      assert word[..m] == word;
      PrefixedHere(nodes, node, path);
      WithinSingle(path, word);
      if nodes[node].flag && currentRow[m] <= MaxDistance {
        search.results := search.results + [search.path];
      }
      ghost var mid := search.results;
      assert mid == old(search.results) + Within(Prefixed(path, Here(nodes, node)), word);

      var minValue := RowMin(currentRow);
      if minValue > MaxDistance {
        RowFloor(currentRow[..], path, word);
        Pruned(path, word, Groups(nodes, node, 26));
        EmptySuffix(search.results);
      } else {
        DfsDPChildren(node, word, currentRow, search);
      }
      WithinJoined(old(search.results), path, Here(nodes, node), Groups(nodes, node, 26), word,
                   mid, search.results);
    }

    /**
     * The loop of `DfsDP` over the children of `node`, from 'a' to 'z';
     * `currentRow` is the row of the current path.
     */
    method DfsDPChildren(node: int, word: string, currentRow: array<int>, search: Search)
      requires WellFormed(nodes) && 0 <= node < |nodes|
      requires IsRow(currentRow[..], search.path, word)
      modifies search
      ensures search.path == old(search.path)
      ensures search.results ==
        old(search.results) + Within(Prefixed(old(search.path), Groups(nodes, node, 26)), word)
      decreases |nodes| - node, 1
    {
      ghost var path := search.path;
      EmptySuffix(search.results);
      for i := 0 to 26
        invariant search.path == path
        invariant search.results == old(search.results) + Within(Prefixed(path, Groups(nodes, node, i)), word)
      {
        ghost var before := search.results;
        DfsDPChild(node, i, word, currentRow, search);
        WithinJoined(old(search.results), path, Groups(nodes, node, i), Group(nodes, node, i), word,
                     before, search.results);
      }
    }

    /** One step of that loop: the search below the child along letter `i`, if there is one. */
    method DfsDPChild(node: int, i: int, word: string, currentRow: array<int>, search: Search)
      requires WellFormed(nodes) && 0 <= node < |nodes| && 0 <= i < 26
      requires IsRow(currentRow[..], search.path, word)
      modifies search
      ensures search.path == old(search.path)
      ensures search.results ==
        old(search.results) + Within(Prefixed(old(search.path), Group(nodes, node, i)), word)
      decreases |nodes| - node, 0
    {
      ghost var path := search.path;
      var child := nodes[node].next[i];
      if child != Absent {
        search.path := search.path + [Letter(i)];
        assert search.path[..|search.path| - 1] == path;
        DfsDP(child, word, currentRow, search);
        search.path := search.path[..|search.path| - 1];
        PrefixedTwice(path, [Letter(i)], Enum(nodes, child));
      } else {
        WithinSingle(path, word);
        EmptySuffix(search.results);
      }
    }

    /**
     * The non-empty stored words within edit distance 3 of `word`, in
     * lexicographic order, each once.
     */
    method Autocorrect(word: string) returns (results: seq<string>)
      requires Valid()
      ensures StrictlySorted(results)
      ensures forall w :: w in results <==> w in Words && |w| >= 1 && Lev(w, word) <= MaxDistance
    {
      var m := |word|;
      var initRow := new int[m + 1];
      for j := 0 to m + 1
        invariant forall k :: 0 <= k < j ==> initRow[k] == k
      {
        initRow[j] := j;
      }
      InitialRow(initRow[..], word);
      var search := new Search([]);
      DfsDPChildren(0, word, initRow, search);
      results := search.results;
      PrefixedEmpty(Groups(nodes, 0, 26));
      EmptyPrefix(results);
      GroupsSorted(nodes, 0, 26);
      WithinSorted(Groups(nodes, 0, 26), word);
      forall w
        ensures w in results <==> Stored(nodes, w) && |w| >= 1 && Lev(w, word) <= MaxDistance
      {
        GroupsMembers(nodes, 0, 26, w);
        EnumMembers(nodes, 0, w);
      }
    }
  }

  /** One loop step of the completion search: the results grow by the prefixed group. */
  lemma Joined(start: seq<string>, p: string, groups: seq<string>, group: seq<string>,
               before: seq<string>, after: seq<string>)
    requires before == start + Prefixed(p, groups)
    requires after == before + Prefixed(p, group)
    ensures after == start + Prefixed(p, groups + group)
  {
    PrefixedConcat(p, groups, group);
    Assoc(start, Prefixed(p, groups), Prefixed(p, group));
  }

  /** One loop step of the correction search: the results grow by the filtered, prefixed group. */
  lemma WithinJoined(start: seq<string>, p: string, groups: seq<string>, group: seq<string>,
                     word: string, before: seq<string>, after: seq<string>)
    requires before == start + Within(Prefixed(p, groups), word)
    requires after == before + Within(Prefixed(p, group), word)
    ensures after == start + Within(Prefixed(p, groups + group), word)
  {
    PrefixedConcat(p, groups, group);
    WithinConcat(Prefixed(p, groups), Prefixed(p, group), word);
    Assoc(start, Within(Prefixed(p, groups), word), Within(Prefixed(p, group), word));
  }
}

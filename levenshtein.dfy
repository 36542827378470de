/**
 * Edit distance between a trie path and the word being corrected, the DP
 * row the autocorrect search carries from a node to its children, the
 * pruning bound on that row, and the filter that keeps the words within
 * the distance limit.
 */
module Levenshtein {
  import opened Strings

  /** The largest edit distance autocorrect accepts. */
  const MaxDistance := 3

  function Min(x: int, y: int): int
  {
    if x <= y then x else y
  }

  /**
   * The cheapest of the three edits that end an alignment: insert (one more
   * than `ins`), delete (one more than `del`) or replace (free when the two
   * last characters are the `same`).
   */
  function Cheapest(ins: int, del: int, rep: int, same: bool): int
  {
    Min(ins + 1, Min(del + 1, rep + (if same then 0 else 1)))
  }

  /**
   * Levenshtein distance between `a` and `b`, by the recurrence on their last
   * characters: insert the last of `b`, delete the last of `a`, or replace
   * the last of `a` by the last of `b`.
   */
  function Lev(a: string, b: string): nat
    decreases |a| + |b|
  {
    if |a| == 0 then |b|
    else if |b| == 0 then |a|
    else
      Cheapest(Lev(a, b[..|b| - 1]), Lev(a[..|a| - 1], b), Lev(a[..|a| - 1], b[..|b| - 1]),
               a[|a| - 1] == b[|b| - 1])
  }

  /** Every string is at distance 0 from itself. */
  lemma {:induction false} LevSelf(a: string)
    ensures Lev(a, a) == 0
    decreases |a|
  {
    if |a| > 0 {
      LevSelf(a[..|a| - 1]);
    }
  }

  /** The distance is at least the difference of the lengths. */
  lemma {:induction false} LevLengthGap(a: string, b: string)
    ensures Lev(a, b) >= |a| - |b| && Lev(a, b) >= |b| - |a|
    decreases |a| + |b|
  {
    if |a| > 0 && |b| > 0 {
      LevLengthGap(a, b[..|b| - 1]);
      LevLengthGap(a[..|a| - 1], b);
      LevLengthGap(a[..|a| - 1], b[..|b| - 1]);
    }
  }

  /** `row` holds the distances from `a` to every prefix of `word`. */
  ghost predicate IsRow(row: seq<int>, a: string, word: string)
  {
    |row| == |word| + 1 && forall j {:trigger row[j]} :: 0 <= j <= |word| ==> row[j] == Lev(a, word[..j])
  }

  /** The row for the empty path counts the characters of each prefix. */
  lemma {:induction false} InitialRow(row: seq<int>, word: string)
    requires |row| == |word| + 1 && forall j :: 0 <= j < |row| ==> row[j] == j
    ensures IsRow(row, [], word)
  {
  }

  /** The first cell of the row of `a + [c]` is one more than the parent's. */
  lemma {:induction false} RowStart(a: string, c: char, word: string)
    ensures Lev(a + [c], word[..0]) == Lev(a, word[..0]) + 1
  {
    assert |word[..0]| == 0;
  }

  /**
   * The recurrence that fills the rest of the row of `a + [c]` from the row
   * of `a`: each cell is the cheapest of insert, delete and replace.
   */
  lemma {:induction false} RowStep(a: string, c: char, word: string, j: nat)
    requires 1 <= j <= |word|
    ensures Lev(a + [c], word[..j]) ==
      Cheapest(Lev(a + [c], word[..j - 1]), Lev(a, word[..j]), Lev(a, word[..j - 1]), c == word[j - 1])
  {
    var path := a + [c];
    var b := word[..j];
    assert path[..|path| - 1] == a && path[|path| - 1] == c;
    assert b[..|b| - 1] == word[..j - 1] && b[|b| - 1] == word[j - 1];
  }

  /** One cell of the next row, from its left neighbour and the two cells above. */
  lemma {:induction false} CellStep(prev: seq<int>, a: string, c: char, word: string, j: nat, left: int)
    requires IsRow(prev, a, word) && 1 <= j <= |word|
    requires left == Lev(a + [c], word[..j - 1])
    ensures Min(left + 1, Min(prev[j] + 1, prev[j - 1] + (if word[j - 1] == c then 0 else 1)))
      == Lev(a + [c], word[..j])
  {
    RowStep(a, c, word, j);
  }

  /** The smallest element of a non-empty sequence. */
  function MinOf(s: seq<int>): (m: int)
    requires |s| > 0
    ensures m in s && forall k :: 0 <= k < |s| ==> m <= s[k]
  {
    if |s| == 1 then s[0]
    else
      var rest := MinOf(s[..|s| - 1]);
      assert s[..|s| - 1][0] == s[0];
      Min(rest, s[|s| - 1])
  }

  /** Every prefix of `word` is at distance at least `floor` from `a`. */
  ghost predicate RowAtLeast(a: string, word: string, floor: int)
  {
    forall j :: 0 <= j <= |word| ==> Lev(a, word[..j]) >= floor
  }

  /** Every cell of a row is at least the row's minimum. */
  lemma {:induction false} RowFloor(row: seq<int>, a: string, word: string)
    requires IsRow(row, a, word)
    ensures RowAtLeast(a, word, MinOf(row))
  {
    forall j | 0 <= j <= |word|
      ensures Lev(a, word[..j]) >= MinOf(row)
    {
      assert row[j] == Lev(a, word[..j]);
    }
  }

  /** One more path character cannot bring a prefix closer than the parent row's floor. */
  lemma {:induction false} FloorStep(a: string, c: char, word: string, floor: int, j: nat)
    requires RowAtLeast(a, word, floor) && j <= |word|
    ensures Lev(a + [c], word[..j]) >= floor
  {
    if j == 0 {
      RowStart(a, c, word);
    } else {
      RowStep(a, c, word, j);
      FloorStep(a, c, word, floor, j - 1);
    }
  }

  /** So no extension of the path can come closer than the floor either. */
  lemma {:induction false} FloorExtends(a: string, u: string, word: string, floor: int)
    requires RowAtLeast(a, word, floor)
    ensures RowAtLeast(a + u, word, floor)
    decreases |u|
  {
    if |u| == 0 {
      EmptySuffix(a);
    } else {
      var v := u[..|u| - 1];
      FloorExtends(a, v, word, floor);
      forall j | 0 <= j <= |word|
        ensures Lev((a + v) + [u[|u| - 1]], word[..j]) >= floor
      {
        FloorStep(a + v, u[|u| - 1], word, floor, j);
      }
      Assoc(a, v, [u[|u| - 1]]);
      assert v + [u[|u| - 1]] == u;
    }
  }

  /** The words of `ws` within `MaxDistance` of `word`, in their order. */
  function Within(ws: seq<string>, word: string): (out: seq<string>)
    ensures forall x :: x in out <==> x in ws && Lev(x, word) <= MaxDistance
  {
    if ws == [] then []
    else
      var rest := Within(ws[1..], word);
      assert forall x :: x in ws <==> x == ws[0] || x in ws[1..];
      (if Lev(ws[0], word) <= MaxDistance then [ws[0]] else []) + rest
  }

  /** A single word is kept exactly when it is within the limit. */
  lemma {:induction false} WithinSingle(w: string, word: string)
    ensures Within([w], word) == (if Lev(w, word) <= MaxDistance then [w] else [])
    ensures Within([], word) == []
  {
    assert [w][1..] == [];
    EmptySuffix(if Lev(w, word) <= MaxDistance then [w] else []);
  }

  /** Filtering distributes over concatenation. */
  lemma {:induction false} WithinConcat(a: seq<string>, b: seq<string>, word: string)
    ensures Within(a + b, word) == Within(a, word) + Within(b, word)
    decreases |a|
  {
    if a == [] {
      assert a + b == b;
    } else {
      assert (a + b)[0] == a[0] && (a + b)[1..] == a[1..] + b;
      WithinConcat(a[1..], b, word);
    }
  }

  /** Filtering keeps a list strictly sorted. */
  lemma {:induction false} WithinSorted(ws: seq<string>, word: string)
    requires StrictlySorted(ws)
    ensures StrictlySorted(Within(ws, word))
    decreases |ws|
  {
    if ws != [] {
      var rest := ws[1..];
      assert StrictlySorted(rest) by {
        forall i, j | 0 <= i < j < |rest|
          ensures Less(rest[i], rest[j])
        {
          assert rest[i] == ws[i + 1] && rest[j] == ws[j + 1];
        }
      }
      WithinSorted(rest, word);
      var head := if Lev(ws[0], word) <= MaxDistance then [ws[0]] else [];
      forall x, y | x in head && y in Within(rest, word)
        ensures Less(x, y)
      {
        var k :| 0 <= k < |rest| && rest[k] == y;
        assert ws[k + 1] == y;
      }
      SortedConcat(head, Within(rest, word));
    }
  }

  /**
   * Pruning loses nothing: when every cell of the row of `a` exceeds the
   * limit, no word extending `a` is within it.
   */
  lemma Pruned(a: string, word: string, ws: seq<string>)
    requires RowAtLeast(a, word, MaxDistance + 1)
    ensures Within(Prefixed(a, ws), word) == []
  {
    forall x | x in Prefixed(a, ws)
      ensures Lev(x, word) > MaxDistance
    {
      var i :| 0 <= i < |ws| && Prefixed(a, ws)[i] == x;
      FloorExtends(a, ws[i], word, MaxDistance + 1);
      assert word[..|word|] == word;
    }
  }
}

/**
 * Words over 'a'..'z', their letter indices, the lexicographic order the
 * dictionary's results come out in, and prefixing a list of words with a
 * common path.
 */
module Strings {

  /** Every character of `s` is a lower-case letter. */
  predicate IsLower(s: string)
  {
    forall i :: 0 <= i < |s| ==> 'a' <= s[i] <= 'z'
  }

  /** Position of a letter in the alphabet ('a' is 0). */
  function Index(ch: char): int
  {
    ch as int - 'a' as int
  }

  /** The letter at alphabet position c. */
  function Letter(c: int): (ch: char)
    requires 0 <= c < 26
    ensures 'a' <= ch <= 'z' && Index(ch) == c
  {
    ('a' as int + c) as char
  }

  /** A lower-case letter's index is in range and leads back to the letter. */
  lemma LetterOfIndex(ch: char)
    requires 'a' <= ch <= 'z'
    ensures 0 <= Index(ch) < 26 && Letter(Index(ch)) == ch
  {
  }

  /**
   * Strict lexicographic order on strings, comparing characters from the
   * front; a proper prefix comes before the longer string.
   */
  predicate Less(a: string, b: string)
    decreases |a|
  {
    |b| > 0 && (|a| == 0 || a[0] < b[0] || (a[0] == b[0] && Less(a[1..], b[1..])))
  }

  /** No string comes before itself. */
  lemma {:induction false} LessIrreflexive(a: string)
    ensures !Less(a, a)
    decreases |a|
  {
    if |a| > 0 {
      LessIrreflexive(a[1..]);
    }
  }

  /** A common first letter does not change the order. */
  lemma LessPrepend(c: char, a: string, b: string)
    ensures Less([c] + a, [c] + b) <==> Less(a, b)
  {
    assert ([c] + a)[1..] == a && ([c] + b)[1..] == b;
  }

  /** A common prefix does not change the order. */
  lemma {:induction false} LessPrefix(p: string, a: string, b: string)
    ensures Less(p + a, p + b) <==> Less(a, b)
    decreases |p|
  {
    if |p| > 0 {
      Assoc([p[0]], p[1..], a);
      Assoc([p[0]], p[1..], b);
      assert [p[0]] + p[1..] == p;
      LessPrefix(p[1..], a, b);
      LessPrepend(p[0], p[1..] + a, p[1..] + b);
    } else {
      EmptyPrefix(a);
      EmptyPrefix(b);
    }
  }

  /** The empty sequence in front changes nothing. */
  lemma EmptyPrefix<T>(s: seq<T>)
    ensures [] + s == s
  {
  }

  /** The empty sequence at the end changes nothing. */
  lemma EmptySuffix<T>(s: seq<T>)
    ensures s + [] == s
  {
  }

  /** A prefix one element longer. */
  lemma SliceStep<T>(s: seq<T>, k: nat)
    requires k < |s|
    ensures s[..k] + [s[k]] == s[..k + 1]
  {
  }

  /** Concatenation is associative. */
  lemma Assoc<T>(p: seq<T>, q: seq<T>, r: seq<T>)
    ensures p + (q + r) == (p + q) + r
  {
  }

  /** Every element comes before every later element: sorted, with no repeats. */
  ghost predicate StrictlySorted(ws: seq<string>)
  {
    forall i, j :: 0 <= i < j < |ws| ==> Less(ws[i], ws[j])
  }

  /** A strictly sorted list holds each word once. */
  lemma SortedDistinct(ws: seq<string>)
    requires StrictlySorted(ws)
    ensures forall i, j :: 0 <= i < j < |ws| ==> ws[i] != ws[j]
  {
    forall i, j | 0 <= i < j < |ws|
      ensures ws[i] != ws[j]
    {
      LessIrreflexive(ws[i]);
    }
  }

  /** Two sorted lists, every word of the first before every word of the second, join sorted. */
  lemma SortedConcat(a: seq<string>, b: seq<string>)
    requires StrictlySorted(a) && StrictlySorted(b)
    requires forall x, y :: x in a && y in b ==> Less(x, y)
    ensures StrictlySorted(a + b)
  {
    forall i, j | 0 <= i < j < |a + b|
      ensures Less((a + b)[i], (a + b)[j])
    {
      if j < |a| {
        assert (a + b)[i] == a[i] && (a + b)[j] == a[j];
      } else if i >= |a| {
        assert (a + b)[i] == b[i - |a|] && (a + b)[j] == b[j - |a|];
      } else {
        assert (a + b)[i] == a[i] && (a + b)[j] == b[j - |a|];
        assert a[i] in a && b[j - |a|] in b;
      }
    }
  }

  /** Each word of `ws` with `p` in front, in the same order. */
  function Prefixed(p: string, ws: seq<string>): (out: seq<string>)
    ensures |out| == |ws|
    ensures forall i :: 0 <= i < |ws| ==> out[i] == p + ws[i]
  {
    if ws == [] then [] else [p + ws[0]] + Prefixed(p, ws[1..])
  }

  /** Prefixing with the empty string changes nothing. */
  lemma PrefixedEmpty(ws: seq<string>)
    ensures Prefixed([], ws) == ws
  {
    forall i | 0 <= i < |ws|
      ensures Prefixed([], ws)[i] == ws[i]
    {
      EmptyPrefix(ws[i]);
    }
  }

  /** Prefixing distributes over concatenation. */
  lemma PrefixedConcat(p: string, a: seq<string>, b: seq<string>)
    ensures Prefixed(p, a + b) == Prefixed(p, a) + Prefixed(p, b)
  {
    var l, r := Prefixed(p, a + b), Prefixed(p, a) + Prefixed(p, b);
    forall i | 0 <= i < |l|
      ensures l[i] == r[i]
    {
      if i < |a| {
        assert (a + b)[i] == a[i];
      } else {
        assert (a + b)[i] == b[i - |a|];
      }
    }
  }

  /** Prefixing with q and then with p is prefixing with p + q. */
  lemma PrefixedTwice(p: string, q: string, ws: seq<string>)
    ensures Prefixed(p, Prefixed(q, ws)) == Prefixed(p + q, ws)
  {
    var l, r := Prefixed(p, Prefixed(q, ws)), Prefixed(p + q, ws);
    forall i | 0 <= i < |ws|
      ensures l[i] == r[i]
    {
      Assoc(p, q, ws[i]);
    }
  }

  /** Prefixing keeps a list strictly sorted. */
  lemma PrefixedSorted(p: string, ws: seq<string>)
    requires StrictlySorted(ws)
    ensures StrictlySorted(Prefixed(p, ws))
  {
    forall i, j | 0 <= i < j < |ws|
      ensures Less(p + ws[i], p + ws[j])
    {
      LessPrefix(p, ws[i], ws[j]);
    }
  }

  /** The words of `Prefixed(p, ws)` are those that start with `p` and continue with a word of `ws`. */
  lemma PrefixedMembers(p: string, ws: seq<string>, x: string)
    ensures x in Prefixed(p, ws) <==> |p| <= |x| && x[..|p|] == p && x[|p|..] in ws
  {
    var out := Prefixed(p, ws);
    if x in out {
      var i :| 0 <= i < |out| && out[i] == x;
      assert x == p + ws[i];
      assert x[..|p|] == p && x[|p|..] == ws[i];
    }
    if |p| <= |x| && x[..|p|] == p && x[|p|..] in ws {
      var i :| 0 <= i < |ws| && ws[i] == x[|p|..];
      assert x == p + ws[i];
      assert out[i] == x;
    }
  }
}

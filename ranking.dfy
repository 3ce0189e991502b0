/** The order in which the jumble solver reports its answers: longest words
    first and, among words of equal length, ascending alphabetical order.
    `jumble.py` obtains it with two stable sorts (alphabetical, then by length
    descending); this module states the order they produce and proves that
    it is a strict total order, so the sorted list is fully determined by the
    answers it holds. */
module Ranking {

  /** Python's `<=` on `str`: lexicographic by code point, with a proper
      prefix before any of its extensions. */
  predicate LexLe(a: string, b: string)
    ensures a <= b ==> LexLe(a, b)
  {
    if a == [] then true
    else if b == [] then false
    else if a[0] != b[0] then a[0] < b[0]
    else LexLe(a[1..], b[1..])
  }

  lemma {:induction false} LexLeTotal(a: string, b: string)
    ensures LexLe(a, b) || LexLe(b, a)
  {
    if a != [] && b != [] && a[0] == b[0] {
      LexLeTotal(a[1..], b[1..]);
    }
  }

  lemma {:induction false} LexLeAntisymmetric(a: string, b: string)
    requires LexLe(a, b) && LexLe(b, a)
    ensures a == b
  {
    if a != [] && b != [] {
      LexLeAntisymmetric(a[1..], b[1..]);
      assert a == [a[0]] + a[1..] && b == [b[0]] + b[1..];
    }
  }

  lemma {:induction false} LexLeTransitive(a: string, b: string, c: string)
    requires LexLe(a, b) && LexLe(b, c)
    ensures LexLe(a, c)
  {
    if a != [] && b != [] && c != [] && a[0] == b[0] && b[0] == c[0] {
      LexLeTransitive(a[1..], b[1..], c[1..]);
    }
  }

  /** `a` may stand before `b` in the answer list: it is longer, or of equal
      length and alphabetically no later. */
  predicate Precedes(a: string, b: string)
  {
    |a| > |b| || (|a| == |b| && LexLe(a, b))
  }

  lemma PrecedesTotal(a: string, b: string)
    ensures Precedes(a, b) || Precedes(b, a)
  {
    LexLeTotal(a, b);
  }

  lemma PrecedesAntisymmetric(a: string, b: string)
    requires Precedes(a, b) && Precedes(b, a)
    ensures a == b
  {
    LexLeAntisymmetric(a, b);
  }

  lemma PrecedesTransitive(a: string, b: string, c: string)
    requires Precedes(a, b) && Precedes(b, c)
    ensures Precedes(a, c)
  {
    if |a| == |b| == |c| {
      LexLeTransitive(a, b, c);
    }
  }

  /** The list is in answer order: longest first, ties alphabetical. */
  predicate Ranked(s: seq<string>)
  {
    forall i, j :: 0 <= i < j < |s| ==> Precedes(s[i], s[j])
  }

  /** No word occurs twice in the list. */
  predicate NoDuplicates(s: seq<string>)
  {
    forall i, j :: 0 <= i < j < |s| ==> s[i] != s[j]
  }

  /** A list has no duplicates exactly when every word occurs in it at most
      once. */
  lemma {:induction false} NoDuplicatesCounts(s: seq<string>)
    ensures NoDuplicates(s) <==> forall w :: multiset(s)[w] <= 1
  {
    if s != [] {
      NoDuplicatesCounts(s[1..]);
      assert s == [s[0]] + s[1..];
      assert multiset(s) == multiset{s[0]} + multiset(s[1..]);
      if NoDuplicates(s) {
        assert s[0] !in s[1..];
      }
      if forall w :: multiset(s)[w] <= 1 {
        assert multiset(s)[s[0]] <= 1;
        assert multiset(s[1..])[s[0]] == 0;
        assert forall w :: multiset(s[1..])[w] <= multiset(s)[w];
        assert NoDuplicates(s[1..]);
        forall i, j | 0 <= i < j < |s| ensures s[i] != s[j] {
          if i == 0 {
            assert s[j] in s[1..];
          } else {
            assert s[i] == s[1..][i - 1] && s[j] == s[1..][j - 1];
          }
        }
      }
    }
  }

  /** `x` put into its place in a ranked list. */
  function Insert(x: string, s: seq<string>): (r: seq<string>)
    requires Ranked(s)
    ensures Ranked(r)
    ensures multiset(r) == multiset(s) + multiset{x}
  {
    if s == [] then [x]
    else if Precedes(x, s[0]) then
      assert forall j :: 0 <= j < |s| ==> Precedes(x, s[j]) by {
        forall j | 0 <= j < |s| ensures Precedes(x, s[j]) {
          if j > 0 {
            PrecedesTransitive(x, s[0], s[j]);
          }
        }
      }
      [x] + s
    else
      PrecedesTotal(x, s[0]);
      var rest := Insert(x, s[1..]);
      assert s == [s[0]] + s[1..];
      assert forall j :: 0 <= j < |rest| ==> Precedes(s[0], rest[j]) by {
        forall j | 0 <= j < |rest| ensures Precedes(s[0], rest[j]) {
          assert rest[j] in multiset(rest);
          if rest[j] != x {
            assert rest[j] in s[1..];
          }
        }
      }
      [s[0]] + rest
  }

  /** Sorts the answers into answer order, as the two successive
      stable sorts of `jumble.py` do: the result is ranked and holds exactly the same words
      with the same multiplicities. */
  method SortAnswers(answers: seq<string>) returns (sorted: seq<string>)
    ensures Ranked(sorted)
    ensures multiset(sorted) == multiset(answers)
  {
    sorted := [];
    var i := 0;
    while i < |answers|
      invariant 0 <= i <= |answers|
      invariant Ranked(sorted)
      invariant multiset(sorted) == multiset(answers[..i])
    {
      assert answers[..i + 1] == answers[..i] + [answers[i]];
      sorted := Insert(answers[i], sorted);
      i := i + 1;
    }
    assert answers[..i] == answers;
  }

  /** The first word of a non-empty ranked list precedes every word of it. */
  lemma RankedHead(s: seq<string>, w: string)
    requires Ranked(s) && w in s
    ensures Precedes(s[0], w)
  {
    var i :| 0 <= i < |s| && s[i] == w;
    if i == 0 {
      LexLeTotal(w, w);
    }
  }

  /** Dropping the first word of a list drops one occurrence of it. */
  lemma MultisetTail(s: seq<string>)
    requires s != []
    ensures multiset(s[1..]) == multiset(s) - multiset{s[0]}
  {
    assert s == [s[0]] + s[1..];
  }

  /** Two ranked lists that hold the same words with the same multiplicities
      are equal: the answer order leaves no choice. */
  lemma {:induction false} RankedUnique(s: seq<string>, t: seq<string>)
    requires Ranked(s) && Ranked(t)
    requires multiset(s) == multiset(t)
    ensures s == t
  {
    if s == [] {
      assert |multiset(t)| == 0;
    } else {
      assert t != [] by { assert s[0] in multiset(t); }
      assert s[0] in multiset(t) && t[0] in multiset(s);
      RankedHead(s, t[0]);
      RankedHead(t, s[0]);
      PrecedesAntisymmetric(s[0], t[0]);
      MultisetTail(s);
      MultisetTail(t);
      RankedUnique(s[1..], t[1..]);
      assert s == [s[0]] + s[1..] && t == [t[0]] + t[1..];
    }
  }
}

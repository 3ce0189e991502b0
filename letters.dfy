/** Letter bookkeeping shared by the two matching strategies of the jumble
    solver: the distinct-letter signature of a string, per-letter counts, the
    constructibility test, and the ordered arrangements of k query letters
    that the permutation strategy enumerates. */
module LetterCounts {

  /** The fixed lower-case alphabet the signature strategy complements against. */
  const Alphabet: set<char> := set c | c in "abcdefghijklmnopqrstuvwxyz"

  /** The signature of a string: the set of its distinct characters. */
  function Letters(s: string): set<char>
  {
    set c | c in s
  }

  /** How often `c` occurs in `s`, as Python's `str.count` of one character. */
  function Count(s: string, c: char): (n: nat)
    ensures n <= |s|
    ensures n > 0 <==> c in s
  {
    multiset(s)[c]
  }

  /** `w` can be spelled from the letters of `q`: no letter occurs more often
      in `w` than in `q`. */
  predicate Fits(w: string, q: string)
  {
    multiset(w) <= multiset(q)
  }

  /** `s` with the character at position `i` taken out. */
  function RemoveAt(s: string, i: nat): (r: string)
    requires i < |s|
    ensures |r| == |s| - 1
    ensures multiset(r) == multiset(s) - multiset{s[i]}
  {
    assert s == s[..i] + [s[i]] + s[i + 1..];
    s[..i] + s[i + 1..]
  }

  /** A word that fits the query is no longer than the query. */
  lemma {:induction false} FitsLength(w: string, q: string)
    requires Fits(w, q)
    ensures |w| <= |q|
  {
    if w != [] {
      assert w[0] in multiset(q);
      var i :| 0 <= i < |q| && q[i] == w[0];
      assert w == [w[0]] + w[1..];
      assert multiset(w) == multiset{w[0]} + multiset(w[1..]);
      FitsLength(w[1..], RemoveAt(q, i));
    }
  }

  /** `c` put in front of every string of `ps`. */
  function Prefixed(c: char, ps: set<string>): set<string>
  {
    set p | p in ps :: [c] + p
  }

  /** Every ordered arrangement of `k` characters of `s` taken at distinct
      positions, as strings: what `permutations(s, k)` yields, joined. */
  function Arrangements(s: string, k: nat): (r: set<string>)
    ensures forall w :: w in r ==> |w| == k
    decreases k, 1, 0
  {
    if k == 0 then {[]} else ArrangementsFrom(s, k, 0)
  }

  /** The arrangements of `k` characters of `s` whose first character is
      taken from position `i` or later. */
  function ArrangementsFrom(s: string, k: nat, i: nat): (r: set<string>)
    requires 0 < k
    ensures forall w :: w in r ==> |w| == k
    decreases k, 0, |s| - i
  {
    if i >= |s| then {}
    else Prefixed(s[i], Arrangements(RemoveAt(s, i), k - 1)) + ArrangementsFrom(s, k, i + 1)
  }

  lemma PrefixedMember(c: char, ps: set<string>, w: string)
    ensures w in Prefixed(c, ps) <==> w != [] && w[0] == c && w[1..] in ps
  {
    if w != [] && w[0] == c && w[1..] in ps {
      assert w == [c] + w[1..];
    }
  }

  /** Taking one occurrence of a word's first letter out of the query leaves
      room for the rest of the word exactly when the whole word fits. */
  lemma FitsTail(s: string, i: nat, w: string)
    requires i < |s| && w != [] && w[0] == s[i]
    ensures Fits(w[1..], RemoveAt(s, i)) <==> Fits(w, s)
  {
    assert w == [w[0]] + w[1..];
    assert multiset(w) == multiset{w[0]} + multiset(w[1..]);
  }

  /** The k-arrangements of `s` are exactly the strings of length `k` that
      fit `s`. */
  lemma {:induction false} ArrangementsExact(s: string, k: nat, w: string)
    ensures w in Arrangements(s, k) <==> |w| == k && Fits(w, s)
    decreases k, 1, 0
  {
    if k != 0 {
      if w in Arrangements(s, k) {
        ArrangementsFromSound(s, k, 0, w);
      }
      if |w| == k && Fits(w, s) {
        assert w[0] in multiset(s);
        ArrangementsFromComplete(s, k, 0, w);
      }
    }
  }

  /** One step of `ArrangementsFrom`: an arrangement starts with the letter at
      position `i`, or its first letter is taken from a later position. */
  lemma ArrangementsFromStep(s: string, k: nat, i: nat, w: string)
    requires 0 < k && i < |s|
    ensures w in ArrangementsFrom(s, k, i) <==>
      (w != [] && w[0] == s[i] && w[1..] in Arrangements(RemoveAt(s, i), k - 1))
      || w in ArrangementsFrom(s, k, i + 1)
  {
    PrefixedMember(s[i], Arrangements(RemoveAt(s, i), k - 1), w);
  }

  /** A letter occurs in `s` from position `i` on when it is the letter at `i`
      or occurs from position `i + 1` on. */
  lemma SuffixMember(s: string, i: nat, c: char)
    requires i < |s|
    ensures c in s[i..] <==> c == s[i] || c in s[i + 1..]
  {
  }

  /** The letter at position `i` of `s` followed by an arrangement of the
      other letters has length `k` and fits `s`. */
  lemma {:induction false} PrefixedSound(s: string, k: nat, i: nat, w: string)
    requires 0 < k && i < |s|
    requires w != [] && w[0] == s[i] && w[1..] in Arrangements(RemoveAt(s, i), k - 1)
    ensures |w| == k && Fits(w, s)
    decreases k, 0, 0
  {
    var rest := RemoveAt(s, i);
    assert |w[1..]| == k - 1 && Fits(w[1..], rest) by {
      ArrangementsExact(rest, k - 1, w[1..]);
    }
    FitsTail(s, i, w);
  }

  /** An arrangement whose first letter is taken from position `i` or later
      has length `k`, fits `s`, and starts with a letter of `s[i..]`. */
  lemma {:induction false} ArrangementsFromSound(s: string, k: nat, i: nat, w: string)
    requires 0 < k && i <= |s| && w in ArrangementsFrom(s, k, i)
    ensures |w| == k && Fits(w, s) && w[0] in s[i..]
    decreases k, 0, |s| - i
  {
    assert i < |s|;
    ArrangementsFromStep(s, k, i, w);
    if w != [] && w[0] == s[i] && w[1..] in Arrangements(RemoveAt(s, i), k - 1) {
      PrefixedSound(s, k, i, w);
    } else {
      ArrangementsFromSound(s, k, i + 1, w);
    }
    SuffixMember(s, i, w[0]);
  }

  /** A string of length `k` that fits `s` and starts with the letter at
      position `i` continues with an arrangement of the other letters. */
  lemma {:induction false} PrefixedComplete(s: string, k: nat, i: nat, w: string)
    requires 0 < k && i < |s| && |w| == k && Fits(w, s) && w[0] == s[i]
    ensures w[1..] in Arrangements(RemoveAt(s, i), k - 1)
    decreases k, 0, 0
  {
    FitsTail(s, i, w);
    ArrangementsExact(RemoveAt(s, i), k - 1, w[1..]);
  }

  /** A string of length `k` that fits `s` and starts with a letter of
      `s[i..]` is an arrangement whose first letter is taken from position
      `i` or later. */
  lemma {:induction false} ArrangementsFromComplete(s: string, k: nat, i: nat, w: string)
    requires 0 < k && i <= |s| && |w| == k && Fits(w, s) && w[0] in s[i..]
    ensures w in ArrangementsFrom(s, k, i)
    decreases k, 0, |s| - i
  {
    assert i < |s|;
    SuffixMember(s, i, w[0]);
    ArrangementsFromStep(s, k, i, w);
    if w[0] == s[i] {
      PrefixedComplete(s, k, i, w);
    } else {
      ArrangementsFromComplete(s, k, i + 1, w);
    }
  }

  /** The per-key test of the signature strategy, for a word `w` filed under
      key `key`: the key has no alphabet letter missing from `q`, and no
      letter of the key occurs more often in `w` than in `q`. */
  predicate Accepts(q: string, key: set<char>, w: string)
    ensures Letters(w) <= key && Accepts(q, key, w) ==> Fits(w, q)
  {
    assert forall c :: multiset(w)[c] > 0 ==> c in Letters(w);
    (Alphabet - Letters(q)) * key == {} && CountsFit(q, key, w)
  }

  /** No letter of `key` occurs more often in `w` than in `q`. */
  predicate CountsFit(q: string, key: set<char>, w: string)
  {
    forall c :: c in key ==> Count(w, c) <= Count(q, c)
  }

  /** Filed under its own signature, a word passes the signature strategy's
      test exactly when it fits the query; a single over-used letter
      excludes it. */
  lemma AcceptsIffFits(q: string, w: string)
    ensures Accepts(q, Letters(w), w) <==> Fits(w, q)
  {
    if Accepts(q, Letters(w), w) {
      forall c ensures multiset(w)[c] <= multiset(q)[c] {
        if c in w {
          assert c in Letters(w);
        }
      }
    }
    if Fits(w, q) {
      forall c | c in Letters(w) ensures c in Letters(q) {
        assert multiset(w)[c] > 0;
      }
    }
  }
}

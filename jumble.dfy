/** The jumble solver: given query letters and a word list, find every word
    of the list that can be spelled from the letters. Two strategies are
    modelled, each over the dictionary structure it uses: enumerating the
    ordered arrangements of 2..n query letters against a flat word set, and
    filtering a dictionary grouped by distinct-letter signature by per-letter
    counts. A selector cleans the query and picks one strategy by length. */
module Jumble {
  import opened LetterCounts
  import opened Ranking

  /** Cleaned-query length from which the signature strategy replaces the
      permutation strategy: an empirical, tunable crossover point. */
  const Threshold: nat := 9

  /** The signature-grouped dictionary: each distinct-letter set is mapped to
      the words that have exactly that set, in word-list order. */
  type Groups = map<set<char>, seq<string>>

  // ---------------------------------------------------------------------
  // Dictionary construction (the word list is given as stripped lines)
  // ---------------------------------------------------------------------

  /** The flat dictionary: every line becomes a member; repeated lines
      collapse into one. */
  method OpenDictionary(lines: seq<string>) returns (dictionary: set<string>)
    ensures forall w :: w in dictionary <==> w in lines
  {
    dictionary := {};
    for i := 0 to |lines|
      invariant forall w :: w in dictionary <==> w in lines[..i]
    {
      assert lines[..i + 1] == lines[..i] + [lines[i]];
      dictionary := dictionary + {lines[i]};
    }
    assert lines[..|lines|] == lines;
  }

  /** The lines whose signature is `key`, in their original order. */
  function WithSignature(lines: seq<string>, key: set<char>): seq<string>
  {
    if lines == [] then []
    else
      var last := lines[|lines| - 1];
      WithSignature(lines[..|lines| - 1], key) + (if Letters(last) == key then [last] else [])
  }

  /** The signatures that occur in the word list. */
  function Signatures(lines: seq<string>): set<set<char>>
  {
    set w | w in lines :: Letters(w)
  }

  /** The grouping `create_set_dictionary` builds: one group per occurring signature,
      holding every line with that signature, repeats included. */
  function GroupedDictionary(lines: seq<string>): Groups
  {
    map key | key in Signatures(lines) :: WithSignature(lines, key)
  }

  /** Every word of a group is filed under its own signature. */
  predicate WellFormed(dictionary: Groups)
  {
    forall key, w :: key in dictionary && w in dictionary[key] ==> Letters(w) == key
  }

  /** How often `w` occurs in the group of its own signature. */
  function GroupCount(dictionary: Groups, w: string): nat
  {
    if Letters(w) in dictionary then multiset(dictionary[Letters(w)])[w] else 0
  }

  /** A group holds each line with its signature as often as the word list
      does, and no other word. */
  lemma {:induction false} WithSignatureCount(lines: seq<string>, key: set<char>, w: string)
    ensures multiset(WithSignature(lines, key))[w] == if Letters(w) == key then multiset(lines)[w] else 0
  {
    if lines != [] {
      var init, last := lines[..|lines| - 1], lines[|lines| - 1];
      WithSignatureCount(init, key, w);
      assert lines == init + [last];
    }
  }

  /** The group of a signature that does not occur is empty. */
  lemma {:induction false} WithSignatureAbsent(lines: seq<string>, key: set<char>)
    requires key !in Signatures(lines)
    ensures WithSignature(lines, key) == []
  {
    if lines != [] {
      var init, last := lines[..|lines| - 1], lines[|lines| - 1];
      assert lines == init + [last];
      assert Signatures(init) <= Signatures(lines);
      assert Letters(last) in Signatures(lines);
      WithSignatureAbsent(init, key);
    }
  }

  /** The grouped dictionary files every word under its signature, and each
      word occurs in its group exactly as often as in the word list. */
  lemma GroupedDictionaryShape(lines: seq<string>)
    ensures WellFormed(GroupedDictionary(lines))
    ensures forall w :: multiset(lines)[w] == GroupCount(GroupedDictionary(lines), w)
  {
    var groups := GroupedDictionary(lines);
    forall key, w | key in groups && w in groups[key] ensures Letters(w) == key {
      WithSignatureCount(lines, key, w);
    }
    forall w ensures multiset(lines)[w] == GroupCount(groups, w) {
      WithSignatureCount(lines, Letters(w), w);
      if w in lines {
        assert Letters(w) in Signatures(lines);
      }
    }
  }

  /** With no repeated line, no group repeats a word. */
  lemma GroupedDictionaryDistinct(lines: seq<string>)
    requires NoDuplicates(lines)
    ensures forall key :: key in GroupedDictionary(lines) ==> NoDuplicates(GroupedDictionary(lines)[key])
  {
    NoDuplicatesCounts(lines);
    forall key | key in GroupedDictionary(lines)
      ensures NoDuplicates(GroupedDictionary(lines)[key])
    {
      forall w ensures multiset(WithSignature(lines, key))[w] <= 1 {
        WithSignatureCount(lines, key, w);
      }
      NoDuplicatesCounts(WithSignature(lines, key));
    }
  }

  /** Appending one line to the word list appends it to the group of its
      signature, creating that group if needed. */
  lemma GroupedAppend(lines: seq<string>, word: string)
    ensures var groups := GroupedDictionary(lines);
      GroupedDictionary(lines + [word]) ==
        groups[Letters(word) := (if Letters(word) in groups then groups[Letters(word)] else []) + [word]]
  {
    var groups := GroupedDictionary(lines);
    var longer := lines + [word];
    var newKey := Letters(word);
    var expected := groups[newKey := (if newKey in groups then groups[newKey] else []) + [word]];
    assert longer[..|longer| - 1] == lines;
    assert Signatures(longer) == Signatures(lines) + {newKey};
    if newKey !in Signatures(lines) {
      WithSignatureAbsent(lines, newKey);
    }
    forall key | key in Signatures(longer)
      ensures GroupedDictionary(longer)[key] == expected[key]
    {
      assert WithSignature(longer, key) ==
        WithSignature(lines, key) + (if newKey == key then [word] else []);
    }
    assert GroupedDictionary(longer).Keys == expected.Keys;
  }

  /** The grouped dictionary, built line by line into a map of lists. */
  method CreateSetDictionary(lines: seq<string>) returns (dictionary: Groups)
    ensures dictionary == GroupedDictionary(lines)
  {
    dictionary := map[];
    for i := 0 to |lines|
      invariant dictionary == GroupedDictionary(lines[..i])
    {
      var word := lines[i];
      var key := Letters(word);
      var group := if key in dictionary then dictionary[key] else [];
      GroupedAppend(lines[..i], word);
      assert lines[..i + 1] == lines[..i] + [word];
      dictionary := dictionary[key := group + [word]];
    }
    assert lines[..|lines|] == lines;
  }

  // ---------------------------------------------------------------------
  // Permutation strategy
  // ---------------------------------------------------------------------

  /** What the permutation strategy reports: a dictionary word of at least
      two letters that fits a query of at least two letters. */
  predicate PermutationMatch(letters: string, dictionary: set<string>, w: string)
  {
    2 <= |letters| && w in dictionary && 2 <= |w| && Fits(w, letters)
  }

  /** The words of a set, listed once each in some order. */
  method ListOf(words: set<string>) returns (listed: seq<string>)
    ensures forall w :: w in listed <==> w in words
    ensures NoDuplicates(listed)
  {
    listed := [];
    var pending := words;
    while pending != {}
      invariant pending <= words
      invariant forall w :: w in listed <==> w in words && w !in pending
      invariant NoDuplicates(listed)
    {
      var w :| w in pending;
      listed := listed + [w];
      pending := pending - {w};
    }
  }

  /** Tries every ordered arrangement of 2..n query letters against the flat
      dictionary and returns the hits, once each, in answer order. */
  method SolvePermutation(letters: string, dictionary: set<string>) returns (answers: seq<string>)
    ensures |letters| < 2 ==> answers == []
    ensures forall w :: w in answers <==> PermutationMatch(letters, dictionary, w)
    ensures forall w :: w in answers ==> 2 <= |w| <= |letters|
    ensures Ranked(answers) && NoDuplicates(answers)
  {
    if |letters| < 2 {
      return [];
    }
    var found: set<string> := {};
    var i := 2;
    while i <= |letters|
      invariant 2 <= i <= |letters| + 1
      invariant forall w :: w in found <==> w in dictionary && 2 <= |w| < i && Fits(w, letters)
    {
      var arrangements := Arrangements(letters, i);
      var pending := arrangements;
      while pending != {}
        invariant pending <= arrangements
        invariant forall w :: w in found <==>
          w in dictionary && ((2 <= |w| < i && Fits(w, letters)) || (w in arrangements && w !in pending))
      {
        var potentialWord :| potentialWord in pending;
        if potentialWord !in found {
          if potentialWord in dictionary {
            found := found + {potentialWord};
          }
        }
        pending := pending - {potentialWord};
      }
      forall w ensures w in arrangements <==> |w| == i && Fits(w, letters) {
        ArrangementsExact(letters, i, w);
      }
      i := i + 1;
    }
    forall w | Fits(w, letters) ensures |w| <= |letters| {
      FitsLength(w, letters);
    }
    var listed := ListOf(found);
    answers := SortAnswers(listed);
    forall w ensures w in answers <==> w in listed {
      assert w in answers <==> w in multiset(answers);
      assert w in listed <==> w in multiset(listed);
    }
    NoDuplicatesCounts(listed);
    NoDuplicatesCounts(answers);
  }

  // ---------------------------------------------------------------------
  // Signature strategy
  // ---------------------------------------------------------------------

  /** What the signature strategy reports: for a query of at least two
      letters, a word of some group that passes that group's test. */
  predicate SignatureMatch(query: string, dictionary: Groups, w: string)
  {
    2 <= |query| && exists key :: key in dictionary && w in dictionary[key] && Accepts(query, key, w)
  }

  /** Some group among `keys` holds `w` and admits it. */
  predicate MatchedIn(query: string, dictionary: Groups, keys: set<set<char>>, w: string)
  {
    exists key :: key in keys && key in dictionary && w in dictionary[key] && Accepts(query, key, w)
  }

  /** The words of `words` whose counts of the letters of `key` fit the
      query, in order and with repeats. */
  function Admitted(query: string, key: set<char>, words: seq<string>): seq<string>
  {
    if words == [] then []
    else
      var last := words[|words| - 1];
      Admitted(query, key, words[..|words| - 1]) + (if CountsFit(query, key, last) then [last] else [])
  }

  /** A word is kept by the group scan as often as it occurs in the group
      when its letter counts fit, and never otherwise. */
  lemma {:induction false} AdmittedCount(query: string, key: set<char>, words: seq<string>, w: string)
    ensures multiset(Admitted(query, key, words))[w] == if CountsFit(query, key, w) then multiset(words)[w] else 0
  {
    if words != [] {
      var init, last := words[..|words| - 1], words[|words| - 1];
      AdmittedCount(query, key, init, w);
      assert words == init + [last];
    }
  }

  /** The inner check of the signature strategy: every letter of the group's
      signature occurs in the word no more often than in the query; the scan
      stops at the first letter that does not. */
  method LetterCountsFit(word: string, query: string, letterSet: set<char>) returns (valid: bool)
    ensures valid <==> CountsFit(query, letterSet, word)
  {
    valid := true;
    var remaining := letterSet;
    while remaining != {}
      invariant remaining <= letterSet
      invariant forall c :: c in letterSet && c !in remaining ==> Count(word, c) <= Count(query, c)
    {
      var letter :| letter in remaining;
      if Count(word, letter) > Count(query, letter) {
        valid := false;
        break;
      }
      remaining := remaining - {letter};
    }
  }

  /** Scans the groups whose signature has no alphabet letter missing from
      the query, keeps each word whose letter counts fit, and returns the
      kept words in answer order. */
  method SolveIteration(query: string, dictionary: Groups) returns (answers: seq<string>)
    ensures |query| < 2 ==> answers == []
    ensures forall w :: w in answers <==> SignatureMatch(query, dictionary, w)
    ensures Ranked(answers)
    ensures WellFormed(dictionary) ==>
              forall w :: multiset(answers)[w] == if 2 <= |query| && Fits(w, query) then GroupCount(dictionary, w) else 0
    ensures WellFormed(dictionary) && (forall key :: key in dictionary ==> NoDuplicates(dictionary[key]))
      ==> NoDuplicates(answers)
  {
    if |query| < 2 {
      return [];
    }
    var nonQuerySet := Alphabet - Letters(query);
    var found: seq<string> := [];
    var pending := dictionary.Keys;
    while pending != {}
      invariant pending <= dictionary.Keys
      invariant forall w :: w in found <==> MatchedIn(query, dictionary, dictionary.Keys - pending, w)
      invariant WellFormed(dictionary) ==>
                  forall w :: multiset(found)[w] == if Letters(w) !in pending && Fits(w, query) then GroupCount(dictionary, w) else 0
    {
      var letterSet :| letterSet in pending;
      var wordList := dictionary[letterSet];
      ghost var before := found;
      if nonQuerySet * letterSet == {} {
        for j := 0 to |wordList|
          invariant found == before + Admitted(query, letterSet, wordList[..j])
        {
          var word := wordList[j];
          var valid := LetterCountsFit(word, query, letterSet);
          assert wordList[..j + 1] == wordList[..j] + [word];
          if valid {
            found := found + [word];
          }
        }
        assert wordList[..|wordList|] == wordList;
      }
      ScanStep(query, dictionary, pending, letterSet, before, found);
      pending := pending - {letterSet};
    }
    answers := SortAnswers(found);
    forall w ensures w in answers <==> SignatureMatch(query, dictionary, w) {
      assert w in answers <==> w in multiset(answers);
      assert w in found <==> w in multiset(found);
      assert dictionary.Keys - pending == dictionary.Keys;
    }
    if WellFormed(dictionary) && (forall key :: key in dictionary ==> NoDuplicates(dictionary[key])) {
      forall w ensures multiset(answers)[w] <= 1 {
        if Letters(w) in dictionary {
          NoDuplicatesCounts(dictionary[Letters(w)]);
        }
      }
      NoDuplicatesCounts(answers);
    }
  }

  /** Scanning one more group keeps the scan's two invariants: the kept
      words are those some scanned group admits, and, for a well-formed
      dictionary, each fitting word of a scanned group is kept as often as
      its group holds it. */
  lemma ScanStep(query: string, dictionary: Groups, pending: set<set<char>>, key: set<char>,
                 before: seq<string>, after: seq<string>)
    requires key in pending && pending <= dictionary.Keys
    requires forall w :: w in before <==> MatchedIn(query, dictionary, dictionary.Keys - pending, w)
    requires WellFormed(dictionary) ==>
               forall w :: multiset(before)[w] == if Letters(w) !in pending && Fits(w, query) then GroupCount(dictionary, w) else 0
    requires after == if (Alphabet - Letters(query)) * key == {}
      then before + Admitted(query, key, dictionary[key]) else before
    ensures forall w :: w in after <==> MatchedIn(query, dictionary, dictionary.Keys - (pending - {key}), w)
    ensures WellFormed(dictionary) ==>
              forall w :: multiset(after)[w] == if Letters(w) !in pending - {key} && Fits(w, query) then GroupCount(dictionary, w) else 0
  {
    var words := dictionary[key];
    var admitted := (Alphabet - Letters(query)) * key == {};
    assert dictionary.Keys - (pending - {key}) == (dictionary.Keys - pending) + {key};
    forall w ensures w in after <==> MatchedIn(query, dictionary, dictionary.Keys - (pending - {key}), w) {
      AdmittedCount(query, key, words, w);
      if MatchedIn(query, dictionary, dictionary.Keys - (pending - {key}), w) {
        var k :| k in dictionary.Keys - (pending - {key}) && k in dictionary && w in dictionary[k] && Accepts(query, k, w);
        if k != key {
          assert MatchedIn(query, dictionary, dictionary.Keys - pending, w);
        }
      }
      if w in after && w !in before {
        assert admitted && w in words && CountsFit(query, key, w);
      }
    }
    if WellFormed(dictionary) {
      forall w ensures multiset(after)[w] ==
        if Letters(w) !in pending - {key} && Fits(w, query) then GroupCount(dictionary, w) else 0
      {
        AdmittedCount(query, key, words, w);
        if Letters(w) == key {
          AcceptsIffFits(query, w);
        } else {
          assert w !in words;
        }
      }
    }
  }

  // ---------------------------------------------------------------------
  // The two strategies compared
  // ---------------------------------------------------------------------

  /** On a word list whose words all have at least two letters, the
      signature strategy over the grouped dictionary reports exactly the
      words the permutation strategy reports over the flat dictionary. */
  lemma StrategiesAgree(query: string, lines: seq<string>, dictionary: set<string>, w: string)
    requires forall l :: l in lines ==> 2 <= |l|
    requires forall x :: x in dictionary <==> x in lines
    ensures SignatureMatch(query, GroupedDictionary(lines), w) <==> PermutationMatch(query, dictionary, w)
  {
    var groups := GroupedDictionary(lines);
    GroupedDictionaryShape(lines);
    AcceptsIffFits(query, w);
    if SignatureMatch(query, groups, w) {
      var key :| key in groups && w in groups[key] && Accepts(query, key, w);
      assert Letters(w) == key;
      assert GroupCount(groups, w) > 0;
      assert w in lines;
    }
    if PermutationMatch(query, dictionary, w) {
      assert multiset(lines)[w] > 0;
      assert GroupCount(groups, w) > 0;
      assert w in groups[Letters(w)];
      assert Accepts(query, Letters(w), w);
    }
  }

  /** A word of fewer than two letters that fits the query is reported by
      the signature strategy but never by the permutation strategy. */
  lemma ShortWordsDiverge(query: string, lines: seq<string>, dictionary: set<string>, w: string)
    requires forall x :: x in dictionary <==> x in lines
    requires w in lines && |w| < 2 && 2 <= |query| && Fits(w, query)
    ensures SignatureMatch(query, GroupedDictionary(lines), w)
    ensures !PermutationMatch(query, dictionary, w)
  {
    GroupedDictionaryShape(lines);
    AcceptsIffFits(query, w);
    assert multiset(lines)[w] > 0;
  }

  // ---------------------------------------------------------------------
  // Query cleaning and strategy choice
  // ---------------------------------------------------------------------

  /** A letter, in the ASCII sense. */
  predicate IsAlpha(c: char)
    ensures c in Alphabet ==> IsAlpha(c)
  {
    'a' <= c <= 'z' || 'A' <= c <= 'Z'
  }

  /** The query with everything but letters dropped, order kept. */
  function CleanQuery(raw: string): (query: string)
    ensures |query| <= |raw|
    ensures forall i :: 0 <= i < |query| ==> IsAlpha(query[i])
  {
    if raw == [] then []
    else (if IsAlpha(raw[0]) then [raw[0]] else []) + CleanQuery(raw[1..])
  }

  /** Cleaning keeps every letter of the query, as often as it occurs, and
      nothing else. */
  lemma {:induction false} CleanQueryCounts(raw: string, c: char)
    ensures multiset(CleanQuery(raw))[c] == if IsAlpha(c) then multiset(raw)[c] else 0
  {
    if raw != [] {
      CleanQueryCounts(raw[1..], c);
      assert raw == [raw[0]] + raw[1..];
    }
  }

  /** Cleaning a string that starts with `c` keeps `c` exactly when it is a
      letter. */
  lemma CleanQueryCons(c: char, rest: string)
    ensures CleanQuery([c] + rest) == (if IsAlpha(c) then [c] else []) + CleanQuery(rest)
  {
  }

  /** Cleaning keeps the order of the letters: it distributes over
      concatenation. */
  lemma {:induction false} CleanQueryAppend(a: string, b: string)
    ensures CleanQuery(a + b) == CleanQuery(a) + CleanQuery(b)
  {
    if a == [] {
      assert a + b == b;
    } else {
      var c, rest := a[0], a[1..];
      var head := if IsAlpha(c) then [c] else [];
      assert a == [c] + rest;
      assert a + b == [c] + (rest + b);
      CleanQueryAppend(rest, b);
      CleanQueryCons(c, rest);
      CleanQueryCons(c, rest + b);
      assert head + (CleanQuery(rest) + CleanQuery(b)) == (head + CleanQuery(rest)) + CleanQuery(b);
    }
  }

  /** A query made of letters only is left as it is. */
  lemma {:induction false} CleanQueryLettersOnly(raw: string)
    requires forall i :: 0 <= i < |raw| ==> IsAlpha(raw[i])
    ensures CleanQuery(raw) == raw
  {
    if raw != [] {
      CleanQueryLettersOnly(raw[1..]);
    }
  }

  /** How often `w` is reported for a cleaned query: by the permutation
      strategy (short queries) once if it is a word of at least two letters
      that fits; by the signature strategy (long queries) once per line
      holding it if it fits. */
  function ExpectedCount(query: string, lines: seq<string>, w: string): nat
  {
    if |query| < 2 || !Fits(w, query) then 0
    else if |query| < Threshold then (if w in lines && 2 <= |w| then 1 else 0)
    else multiset(lines)[w]
  }

  /** Cleans the query, picks the strategy by the cleaned length, builds the
      dictionary that strategy needs, and returns its answers. */
  method Solve(raw: string, lines: seq<string>) returns (usedPermutation: bool, answer: seq<string>)
    ensures usedPermutation <==> |CleanQuery(raw)| < Threshold
    ensures Ranked(answer)
    ensures forall w :: multiset(answer)[w] == ExpectedCount(CleanQuery(raw), lines, w)
    ensures (forall l :: l in lines ==> 2 <= |l|) ==>
              forall w :: w in answer <==> 2 <= |CleanQuery(raw)| && w in lines && Fits(w, CleanQuery(raw))
    ensures (usedPermutation || NoDuplicates(lines)) ==> NoDuplicates(answer)
  {
    var queryLetters := CleanQuery(raw);
    usedPermutation := |queryLetters| < Threshold;
    if usedPermutation {
      var dictionary := OpenDictionary(lines);
      answer := SolvePermutation(queryLetters, dictionary);
      PermutationAnswers(queryLetters, lines, dictionary, answer);
    } else {
      var dictionary := CreateSetDictionary(lines);
      GroupedDictionaryShape(lines);
      if NoDuplicates(lines) {
        GroupedDictionaryDistinct(lines);
      }
      answer := SolveIteration(queryLetters, dictionary);
      SignatureAnswers(queryLetters, lines, answer);
    }
  }

  /** The permutation strategy's answers, counted per word. */
  lemma PermutationAnswers(query: string, lines: seq<string>, dictionary: set<string>, answer: seq<string>)
    requires |query| < Threshold
    requires forall x :: x in dictionary <==> x in lines
    requires forall w :: w in answer <==> PermutationMatch(query, dictionary, w)
    requires NoDuplicates(answer)
    ensures forall w :: multiset(answer)[w] == ExpectedCount(query, lines, w)
  {
    NoDuplicatesCounts(answer);
    forall w ensures multiset(answer)[w] == ExpectedCount(query, lines, w) {
      assert w in answer <==> w in multiset(answer);
    }
  }

  /** The signature strategy's answers over the grouped word list, counted
      per word. */
  lemma SignatureAnswers(query: string, lines: seq<string>, answer: seq<string>)
    requires Threshold <= |query|
    requires forall w :: multiset(lines)[w] == GroupCount(GroupedDictionary(lines), w)
    requires forall w :: multiset(answer)[w] == if Fits(w, query) then GroupCount(GroupedDictionary(lines), w) else 0
    ensures forall w :: multiset(answer)[w] == ExpectedCount(query, lines, w)
  {
  }

  /** Running the pipeline twice on the same inputs gives the same answer
      list: answers that are ranked and have the expected multiplicities are
      unique. */
  lemma SolveDeterministic(raw: string, lines: seq<string>, first: seq<string>, second: seq<string>)
    requires Ranked(first) && Ranked(second)
    requires forall w :: multiset(first)[w] == ExpectedCount(CleanQuery(raw), lines, w)
    requires forall w :: multiset(second)[w] == ExpectedCount(CleanQuery(raw), lines, w)
    ensures first == second
  {
    assert multiset(first) == multiset(second);
    RankedUnique(first, second);
  }
}

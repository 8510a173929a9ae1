/**
 * The examples of the NGramMatcher documentation, and one input that shows
 * how the scan ends, stated over the model.
 */
module Examples {
  import opened Trie
  import opened Matching
  import opened NGramMatching

  /** The trie that stores "programming language" and then "Python". */
  function Sample(): Node<string>
  {
    Insert(Insert(Empty(), ["programming", "language"], "programming language"), ["Python"], "Python")
  }

  /** The class example: both stored ngrams are found in a sentence, in order. */
  lemma SampleScan()
    ensures Scan(Sample(), ["Python", "is", "a", "programming", "language"], 0) ==
      [Match("Python", 0, 1), Match("programming language", 3, 5)]
    ensures ValuesOf(Scan(Sample(), ["Python", "is", "a", "programming", "language"], 0)) == ["Python", "programming language"]
  {
    var t, w := Sample(), ["Python", "is", "a", "programming", "language"];
    assert Scan(t, w, 3) == [Match("programming language", 3, 5)];
    assert Scan(t, w, 1) == Scan(t, w, 2) == Scan(t, w, 3);
    assert ValuesOf([Match("Python", 0, 1), Match("programming language", 3, 5)]) == ["Python", "programming language"];
  }

  /** Inserting two ngrams and matching a sentence gives both payloads, in order. */
  method MatchingExample() returns (r: Matches<string>)
    ensures r == Values(["Python", "programming language"])
  {
    var ngm := new NGramMatcher<string>();
    ngm.InsertNgram(["programming", "language"], "programming language");
    ngm.InsertNgram(["Python"], "Python");
    assert ngm.trie == Sample();
    SampleScan();
    r := ngm.MatchNgrams(["Python", "is", "a", "programming", "language"], false);
  }

  /** Looking up and counting after one insertion. */
  method LookupExample() returns (value: Option<string>, present: bool, absent: bool, count: nat)
    ensures value == Some("programming language")
    ensures present && !absent
    ensures count == 1
  {
    var ngm := new NGramMatcher<string>();
    var ngram := ["programming", "language"];
    ngm.InsertNgram(ngram, "programming language");
    value := ngm.Get(ngram);
    present := ngm.Contains(ngram);
    absent := ngm.Contains(["Python"]);
    count := ngm.Len();
  }

  /** Listing after one insertion: the one ngram, alone or with its payload. */
  method ListingExample() returns (keys: Listing<string>, pairs: Listing<string>)
    ensures keys == KeyList([["programming", "language"]])
    ensures pairs == PairList([(["programming", "language"], "programming language")])
  {
    var ngm := new NGramMatcher<string>();
    var ngram := ["programming", "language"];
    ngm.InsertNgram(ngram, "programming language");
    keys := ngm.GetAllNgrams(true);
    pairs := ngm.GetAllNgrams(false);
    OnlyOne(keys.keys, ngram);
    OnlyOne(KeysOf(pairs.pairs), ngram);
    assert pairs.pairs[0].0 == ngram;
  }

  /** A sequence holding exactly one copy of `x` and nothing else is `[x]`. */
  lemma OnlyOne<T>(s: seq<T>, x: T)
    requires multiset(s) == multiset{x}
    ensures s == [x]
  {
    assert |s| == |multiset(s)| == 1;
    assert s[0] in multiset(s);
  }

  /** Deleting a stored ngram removes it; deleting it again reports false. */
  method DeleteExample() returns (before: bool, deleted: bool, after: bool, again: bool, count: nat)
    ensures before && deleted && !after && !again
    ensures count == 0
  {
    var ngm := new NGramMatcher<string>();
    var ngram := ["programming", "language"];
    ngm.InsertNgram(ngram, "programming language");
    before := ngm.Contains(ngram);
    deleted := ngm.DeleteNgram(ngram);
    after := ngm.Contains(ngram);
    again := ngm.DeleteNgram(ngram);
    count := ngm.Len();
  }

  /**
   * When the input runs out inside a candidate that has found nothing, the
   * scan stops there: "b" is stored and occurs at index 1 of ["a", "b"], yet
   * nothing is reported, since the candidate from index 0 follows "a b" into
   * the trie (towards "a b c") and no later start is tried.
   */
  lemma RunningOutEndsTheScan()
    ensures var t := Insert(Insert(Empty(), ["a", "b", "c"], 1), ["b"], 2);
      && Lookup(t, ["a", "b"][1..2]) == Some(2)
      && Scan(t, ["a", "b"], 0) == []
  {
    var t := Insert(Insert(Empty(), ["a", "b", "c"], 1), ["b"], 2);
    assert ["a", "b"][1..2] == ["b"];
    assert Extend(t, ["a", "b"], 0, 0, None) == Candidate(None, true);
  }

  /** Longest match wins: with "a" and "a b" stored, `["a", "b"]` gives "a b" alone, at span 0-2. */
  lemma LongestMatchWins()
    ensures Scan(Insert(Insert(Empty(), ["a"], "X"), ["a", "b"], "Y"), ["a", "b"], 0) == [Match("Y", 0, 2)]
  {
    var t := Insert(Insert(Empty(), ["a"], "X"), ["a", "b"], "Y");
    assert Extend(t, ["a", "b"], 0, 0, None) == Candidate(Some(Match("Y", 0, 2)), true);
  }

  /**
   * A failed candidate does not hide a later match: with "a b" and "c" stored,
   * the candidate from "a" leaves the trie at "c", and the scan restarts at index 1.
   */
  lemma FailedCandidateRestarts()
    ensures Scan(Insert(Insert(Empty(), ["a", "b"], "X"), ["c"], "Y"), ["a", "c"], 0) == [Match("Y", 1, 2)]
  {
    var t := Insert(Insert(Empty(), ["a", "b"], "X"), ["c"], "Y");
    assert Extend(t, ["a", "c"], 0, 0, None) == Candidate(None, false);
    assert Extend(t, ["a", "c"], 1, 1, None) == Candidate(Some(Match("Y", 1, 2)), true);
  }
}

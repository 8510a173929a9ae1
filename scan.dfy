/**
 * What match_ngrams computes, as recursive functions over the trie, and what
 * that result means: every match is a stored ngram, the longest one at its
 * start, matches come left to right without overlapping, and no stored ngram
 * starts in the gaps between them.
 *
 * The scan tries one candidate start at a time. A candidate follows the trie
 * token by token and remembers the last terminal node it passed (the longest
 * ngram so far). When a token leaves the trie, the best match, if any, is
 * emitted and scanning resumes at its end; without a match, scanning resumes
 * one token after the candidate's start. When the input runs out during a
 * candidate, the best match, if any, is emitted and the scan stops: no later
 * start is tried.
 */
module Matching {
  import opened Trie

  /** One match: the payload of the stored ngram and its span `[start, end)` in the input. */
  datatype Match<V> = Match(value: V, start: nat, end: nat)

  /** How a candidate ended: the longest match found, and whether the input ran out (rather than the trie path). */
  datatype Candidate<V> = Candidate(best: Option<Match<V>>, ranOut: bool)

  /** Python's truth value of `not_end`: unset and index 0 are both false. */
  function Truthy(o: Option<nat>): (r: bool)
    ensures r ==> o.Some?
    ensures o == Some(0) ==> !r
  {
    o.Some? && o.value != 0
  }

  /** The end of the best match so far, or the start when there is none. */
  function Reach<V>(best: Option<Match<V>>, start: nat): nat
  {
    if best.Some? then best.value.end else start
  }

  /**
   * Continues the candidate that began at `start` from node `n`, which it
   * reached after consuming `words[start..i]`; `best` is its longest match so far.
   */
  function Extend<V>(n: Node<V>, words: seq<string>, start: nat, i: nat, best: Option<Match<V>>): (r: Candidate<V>)
    requires i <= |words|
    ensures r.best.Some? ==> r.best == best || (r.best.value.start == start && i < r.best.value.end <= |words|)
    decreases |words| - i
  {
    if i == |words| then Candidate(best, true)
    else if words[i] !in n.children then Candidate(best, false)
    else
      var c := n.children[words[i]];
      Extend(c, words, start, i + 1, if c.val.Some? then Some(Match(c.val.value, start, i + 1)) else best)
  }

  /** The matches from the candidate at `pos` onwards, once that candidate has ended as `c`. */
  function Resume<V>(root: Node<V>, words: seq<string>, pos: nat, c: Candidate<V>): (r: seq<Match<V>>)
    requires pos < |words|
    requires c.best.Some? ==> c.best.value.start == pos && pos < c.best.value.end <= |words|
    ensures forall j :: 0 <= j < |r| ==> pos <= r[j].start < r[j].end <= |words|
    ensures c.best.Some? ==> |r| > 0 && r[0] == c.best.value
    ensures c.ranOut ==> |r| <= 1
    decreases |words| - pos, 0
  {
    match c.best
    case None => if c.ranOut then [] else Scan(root, words, pos + 1)
    case Some(m) => [m] + (if c.ranOut then [] else Scan(root, words, m.end))
  }

  /** The matches that match_ngrams reports when it starts a candidate at `pos`. */
  function Scan<V>(root: Node<V>, words: seq<string>, pos: nat): (r: seq<Match<V>>)
    requires pos <= |words|
    ensures forall j :: 0 <= j < |r| ==> pos <= r[j].start < r[j].end <= |words|
    decreases |words| - pos, 1
  {
    if pos == |words| then [] else Resume(root, words, pos, Extend(root, words, pos, pos, None))
  }

  /** The payloads of `ms` in order: the result without span information. */
  function ValuesOf<V>(ms: seq<Match<V>>): (r: seq<V>)
    ensures |r| == |ms| && forall j :: 0 <= j < |ms| ==> r[j] == ms[j].value
  {
    seq(|ms|, j requires 0 <= j < |ms| => ms[j].value)
  }

  /** No stored ngram occurs in `words` starting at `q`. */
  ghost predicate NoMatchAt<V>(root: Node<V>, words: seq<string>, q: nat)
    requires q <= |words|
  {
    forall e :: q < e <= |words| ==> Lookup(root, words[q..e]).None?
  }

  // ---------------------------------------------------------------------------
  // One candidate

  /** Once a token leaves the trie, no longer span from the same start is stored. */
  lemma LeavesTrie<V>(root: Node<V>, n: Node<V>, words: seq<string>, start: nat, i: nat)
    requires start <= i < |words|
    requires Subtrie(root, words[start..i]) == Some(n) && words[i] !in n.children
    ensures forall e :: i < e <= |words| ==> Lookup(root, words[start..e]).None?
  {
    forall e | i < e <= |words|
      ensures Lookup(root, words[start..e]).None?
    {
      assert words[start..e] == words[start..i] + words[i..e];
      SubtrieAppend(root, words[start..i], words[i..e]);
    }
  }

  /** One more token inside the trie: the candidate's node and best match so far stay what ExtendFindsLongest needs. */
  lemma LongestSoFar<V>(root: Node<V>, n: Node<V>, words: seq<string>, start: nat, i: nat, best: Option<Match<V>>)
    requires start <= i < |words| && words[i] in n.children
    requires Subtrie(root, words[start..i]) == Some(n)
    requires best.Some? ==> best.value.start == start && start < best.value.end <= i
    requires best.Some? ==> Lookup(root, words[start..best.value.end]) == Some(best.value.value)
    requires forall e :: Reach(best, start) < e <= i ==> Lookup(root, words[start..e]).None?
    ensures var c := n.children[words[i]];
      var best' := if c.val.Some? then Some(Match(c.val.value, start, i + 1)) else best;
      && Subtrie(root, words[start..i + 1]) == Some(c)
      && (best'.Some? ==> best'.value.start == start && start < best'.value.end <= i + 1)
      && (best'.Some? ==> Lookup(root, words[start..best'.value.end]) == Some(best'.value.value))
      && (forall e :: Reach(best', start) < e <= i + 1 ==> Lookup(root, words[start..e]).None?)
  {
    var c := n.children[words[i]];
    assert words[start..i + 1] == words[start..i] + [words[i]];
    SubtrieStep(root, words[start..i], words[i]);
    assert Lookup(root, words[start..i + 1]) == c.val;
    var best' := if c.val.Some? then Some(Match(c.val.value, start, i + 1)) else best;
    forall e | Reach(best', start) < e <= i + 1
      ensures Lookup(root, words[start..e]).None?
    {
      if e <= i {
        assert Reach(best, start) < e;
      }
    }
  }

  /**
   * A candidate's best match is stored in the trie, and no longer stored ngram
   * starting at the candidate's start fits in the input; with no best match,
   * no stored ngram starts there at all.
   */
  lemma {:induction false} ExtendFindsLongest<V>(root: Node<V>, n: Node<V>, words: seq<string>, start: nat, i: nat, best: Option<Match<V>>)
    requires start <= i <= |words|
    requires Subtrie(root, words[start..i]) == Some(n)
    requires best.Some? ==> best.value.start == start && start < best.value.end <= i
    requires best.Some? ==> Lookup(root, words[start..best.value.end]) == Some(best.value.value)
    requires forall e :: Reach(best, start) < e <= i ==> Lookup(root, words[start..e]).None?
    ensures var r := Extend(n, words, start, i, best);
      && (r.best.Some? ==> r.best.value.start == start && start < r.best.value.end <= |words|)
      && (r.best.Some? ==> Lookup(root, words[start..r.best.value.end]) == Some(r.best.value.value))
      && (forall e :: Reach(r.best, start) < e <= |words| ==> Lookup(root, words[start..e]).None?)
    decreases |words| - i
  {
    if i == |words| {
    } else if words[i] !in n.children {
      assert Extend(n, words, start, i, best) == Candidate(best, false);
      LeavesTrie(root, n, words, start, i);
    } else {
      var c := n.children[words[i]];
      LongestSoFar(root, n, words, start, i, best);
      var best' := if c.val.Some? then Some(Match(c.val.value, start, i + 1)) else best;
      assert Extend(n, words, start, i, best) == Extend(c, words, start, i + 1, best');
      ExtendFindsLongest(root, c, words, start, i + 1, best');
    }
  }

  /** The candidate that starts at `pos` from the root, with what ExtendFindsLongest says of it. */
  lemma CandidateAt<V>(root: Node<V>, words: seq<string>, pos: nat)
    requires pos < |words|
    ensures var r := Extend(root, words, pos, pos, None);
      && (r.best.Some? ==> r.best.value.start == pos && pos < r.best.value.end <= |words|)
      && (r.best.Some? ==> Lookup(root, words[pos..r.best.value.end]) == Some(r.best.value.value))
      && (forall e :: Reach(r.best, pos) < e <= |words| ==> Lookup(root, words[pos..e]).None?)
  {
    assert words[pos..pos] == [];
    ExtendFindsLongest(root, root, words, pos, pos, None);
  }

  /** A candidate runs out of input exactly when the rest of the input, from the candidate's start, is a path of the trie. */
  lemma {:induction false} ExtendRanOut<V>(root: Node<V>, n: Node<V>, words: seq<string>, start: nat, i: nat, best: Option<Match<V>>)
    requires start <= i <= |words|
    requires Subtrie(root, words[start..i]) == Some(n)
    ensures Extend(n, words, start, i, best).ranOut <==> Subtrie(root, words[start..]).Some?
    decreases |words| - i
  {
    if i == |words| {
      assert words[start..i] == words[start..];
    } else if words[i] !in n.children {
      assert words[start..] == words[start..i] + words[i..];
      SubtrieAppend(root, words[start..i], words[i..]);
      assert words[i..][0] == words[i];
    } else {
      var c := n.children[words[i]];
      assert words[start..i + 1] == words[start..i] + [words[i]];
      SubtrieStep(root, words[start..i], words[i]);
      var best' := if c.val.Some? then Some(Match(c.val.value, start, i + 1)) else best;
      assert Extend(n, words, start, i, best) == Extend(c, words, start, i + 1, best');
      ExtendRanOut(root, c, words, start, i + 1, best');
    }
  }

  // ---------------------------------------------------------------------------
  // The whole scan

  /**
   * Where the scan from `pos` stops trying candidates: the start of the
   * candidate during which the input ran out, or the end of the input. It
   * stops early only at a start from which the rest of the input is a trie path.
   */
  function Stop<V>(root: Node<V>, words: seq<string>, pos: nat): (s: nat)
    requires pos <= |words|
    ensures pos <= s <= |words|
    ensures s < |words| ==> Subtrie(root, words[s..]).Some?
    decreases |words| - pos
  {
    if pos == |words| then |words|
    else
      var c := Extend(root, words, pos, pos, None);
      if c.ranOut then
        assert words[pos..pos] == [];
        ExtendRanOut(root, root, words, pos, pos, None);
        pos
      else Stop(root, words, if c.best.Some? then c.best.value.end else pos + 1)
  }

  /** Where the reported matches `r` leave off: the end of the last one, or `pos` when there is none. */
  function Last<V>(pos: nat, r: seq<Match<V>>): nat
  {
    if |r| == 0 then pos else r[|r| - 1].end
  }

  /** Every match is a stored ngram, found in `words` where its span says, with its payload. */
  ghost predicate AllStored<V>(root: Node<V>, words: seq<string>, r: seq<Match<V>>)
  {
    forall j :: 0 <= j < |r| ==>
      r[j].start <= r[j].end <= |words| && Lookup(root, words[r[j].start..r[j].end]) == Some(r[j].value)
  }

  /** No match could have been longer: no stored ngram starts where a match starts and ends further on. */
  ghost predicate AllLongest<V>(root: Node<V>, words: seq<string>, r: seq<Match<V>>)
  {
    forall j, e :: 0 <= j < |r| && r[j].start <= r[j].end < e <= |words| ==> Lookup(root, words[r[j].start..e]).None?
  }

  /** Each match starts at or after the end of the one before it. */
  ghost predicate InOrder<V>(r: seq<Match<V>>)
  {
    forall j :: 0 < j < |r| ==> r[j - 1].end <= r[j].start
  }

  /** No stored ngram starts between `pos` and the first match, or between two consecutive matches. */
  ghost predicate GapsMatchNothing<V>(root: Node<V>, words: seq<string>, pos: nat, r: seq<Match<V>>)
  {
    forall j, q {:trigger NoMatchAt(root, words, q), r[j]} :: 0 <= j < |r| && (if j == 0 then pos else r[j - 1].end) <= q < r[j].start && q <= |words| ==>
      NoMatchAt(root, words, q)
  }

  /**
   * The first step of the scan from `pos`: the match found there, if any
   * (the longest stored ngram starting at `pos`), then, unless the input ran
   * out, the scan from `next` — the match's end, or `pos + 1` without one.
   */
  lemma ScanHead<V>(root: Node<V>, words: seq<string>, pos: nat) returns (m: Option<Match<V>>, next: nat, goesOn: bool)
    requires pos < |words|
    ensures pos < next <= |words|
    ensures Scan(root, words, pos) == (if m.Some? then [m.value] else []) + (if goesOn then Scan(root, words, next) else [])
    ensures m.Some? ==> m.value.start == pos && m.value.end == next
    ensures m.Some? ==> Lookup(root, words[pos..next]) == Some(m.value.value)
    ensures m.None? ==> next == pos + 1
    ensures forall e :: Reach(m, pos) < e <= |words| ==> Lookup(root, words[pos..e]).None?
    ensures goesOn <==> Subtrie(root, words[pos..]).None?
    ensures Stop(root, words, pos) == if goesOn then Stop(root, words, next) else pos
  {
    var c := Extend(root, words, pos, pos, None);
    CandidateAt(root, words, pos);
    assert words[pos..pos] == [];
    ExtendRanOut(root, root, words, pos, pos, None);
    m, goesOn := c.best, !c.ranOut;
    next := if m.Some? then m.value.end else pos + 1;
    if m.Some? && goesOn {
      assert Scan(root, words, pos) == [m.value] + Scan(root, words, next);
    } else if m.Some? {
      assert Scan(root, words, pos) == [m.value] + [];
    } else if goesOn {
      assert Scan(root, words, pos) == [] + Scan(root, words, next);
    } else {
      assert Scan(root, words, pos) == [] + [];
    }
  }

  /** A stored match in front of stored matches. */
  lemma StoredPrepend<V>(root: Node<V>, words: seq<string>, m: Match<V>, t: seq<Match<V>>)
    requires m.start <= m.end <= |words| && Lookup(root, words[m.start..m.end]) == Some(m.value)
    requires AllStored(root, words, t)
    ensures AllStored(root, words, [m] + t)
  {
    var r := [m] + t;
    forall j | 1 <= j < |r|
      ensures r[j].start <= r[j].end <= |words| && Lookup(root, words[r[j].start..r[j].end]) == Some(r[j].value)
    {
      assert r[j] == t[j - 1];
    }
  }

  /** A longest match in front of longest matches. */
  lemma LongestPrepend<V>(root: Node<V>, words: seq<string>, m: Match<V>, t: seq<Match<V>>)
    requires m.start <= m.end && forall e :: m.end < e <= |words| ==> Lookup(root, words[m.start..e]).None?
    requires AllLongest(root, words, t)
    ensures AllLongest(root, words, [m] + t)
  {
    var r := [m] + t;
    forall j, e | 0 <= j < |r| && r[j].start <= r[j].end < e <= |words|
      ensures Lookup(root, words[r[j].start..e]).None?
    {
      if j > 0 {
        assert r[j] == t[j - 1];
      }
    }
  }

  /** A match in front of ordered matches that start at or after its end. */
  lemma OrderedPrepend<V>(m: Match<V>, t: seq<Match<V>>)
    requires InOrder(t) && forall j :: 0 <= j < |t| ==> m.end <= t[j].start
    ensures InOrder([m] + t)
  {
    var r := [m] + t;
    forall j | 0 < j < |r|
      ensures r[j - 1].end <= r[j].start
    {
      assert r[j] == t[j - 1];
      assert j == 1 || r[j - 1] == t[j - 2];
    }
  }

  /** The rest of the scan after its first step: the scan from `next`, or nothing once the input ran out. */
  function Rest<V>(root: Node<V>, words: seq<string>, next: nat, goesOn: bool): (t: seq<Match<V>>)
    requires next <= |words|
    ensures forall j :: 0 <= j < |t| ==> next <= t[j].start < t[j].end <= |words|
  {
    if goesOn then Scan(root, words, next) else []
  }

  /** Every reported match is a stored ngram, found where the span says, with its payload. */
  lemma {:induction false} ScanMatchesAreStored<V>(root: Node<V>, words: seq<string>, pos: nat)
    requires pos <= |words|
    ensures AllStored(root, words, Scan(root, words, pos))
    decreases |words| - pos
  {
    if pos < |words| {
      var m, next, goesOn := ScanHead(root, words, pos);
      var t := Rest(root, words, next, goesOn);
      if goesOn {
        ScanMatchesAreStored(root, words, next);
      }
      if m.Some? {
        StoredPrepend(root, words, m.value, t);
      } else {
        assert Scan(root, words, pos) == t;
      }
    }
  }

  /** Every reported match is the longest stored ngram at its start that fits in the input. */
  lemma {:induction false} ScanMatchesAreLongest<V>(root: Node<V>, words: seq<string>, pos: nat)
    requires pos <= |words|
    ensures AllLongest(root, words, Scan(root, words, pos))
    decreases |words| - pos
  {
    if pos < |words| {
      var m, next, goesOn := ScanHead(root, words, pos);
      var t := Rest(root, words, next, goesOn);
      if goesOn {
        ScanMatchesAreLongest(root, words, next);
      }
      if m.Some? {
        LongestPrepend(root, words, m.value, t);
      } else {
        assert Scan(root, words, pos) == t;
      }
    }
  }

  /** The matches are reported left to right and never overlap. */
  lemma {:induction false} ScanMatchesAreOrdered<V>(root: Node<V>, words: seq<string>, pos: nat)
    requires pos <= |words|
    ensures InOrder(Scan(root, words, pos))
    decreases |words| - pos
  {
    if pos < |words| {
      var m, next, goesOn := ScanHead(root, words, pos);
      var t := Rest(root, words, next, goesOn);
      if goesOn {
        ScanMatchesAreOrdered(root, words, next);
      }
      if m.Some? {
        OrderedPrepend(m.value, t);
      } else {
        assert Scan(root, words, pos) == t;
      }
    }
  }

  /** A gap that also leaves out the start `pos`, where nothing matches, extends back to `pos`. */
  lemma GapsStepBack<V>(root: Node<V>, words: seq<string>, pos: nat, r: seq<Match<V>>)
    requires pos < |words| && NoMatchAt(root, words, pos)
    requires GapsMatchNothing(root, words, pos + 1, r)
    ensures GapsMatchNothing(root, words, pos, r)
  {
    forall j, q | 0 <= j < |r| && (if j == 0 then pos else r[j - 1].end) <= q < r[j].start && q <= |words|
      ensures NoMatchAt(root, words, q)
    {
      if j == 0 && q == pos {
      } else {
        assert (if j == 0 then pos + 1 else r[j - 1].end) <= q;
      }
    }
  }

  /** A match found at the start of the scan leaves no gap before it. */
  lemma GapsPrepend<V>(root: Node<V>, words: seq<string>, m: Match<V>, t: seq<Match<V>>)
    requires GapsMatchNothing(root, words, m.end, t)
    ensures GapsMatchNothing(root, words, m.start, [m] + t)
  {
    var r := [m] + t;
    forall j, q | 0 <= j < |r| && (if j == 0 then m.start else r[j - 1].end) <= q < r[j].start && q <= |words|
      ensures NoMatchAt(root, words, q)
    {
      assert j != 0;
      assert r[j] == t[j - 1];
      assert j == 1 || r[j - 1] == t[j - 2];
    }
  }

  /** The gaps of the scan from `pos`, from its first step and the gaps of the rest. */
  lemma GapsAfterHead<V>(root: Node<V>, words: seq<string>, pos: nat, m: Option<Match<V>>, next: nat, goesOn: bool)
    requires pos < next <= |words|
    requires m.Some? ==> m.value.start == pos && m.value.end == next
    requires m.None? ==> next == pos + 1
    requires forall e :: Reach(m, pos) < e <= |words| ==> Lookup(root, words[pos..e]).None?
    requires goesOn ==> GapsMatchNothing(root, words, next, Scan(root, words, next))
    ensures GapsMatchNothing(root, words, pos, (if m.Some? then [m.value] else []) + Rest(root, words, next, goesOn))
  {
    var t := Rest(root, words, next, goesOn);
    if m.Some? {
      GapsPrepend(root, words, m.value, t);
    } else {
      assert [] + t == t;
      GapsStepBack(root, words, pos, t);
    }
  }

  /**
   * No stored ngram starts before a reported match and after the previous one
   * (or `pos` for the first): the scan passes over a start only when nothing matches there.
   */
  lemma {:induction false} ScanSkipsOnlyNonMatches<V>(root: Node<V>, words: seq<string>, pos: nat)
    requires pos <= |words|
    ensures GapsMatchNothing(root, words, pos, Scan(root, words, pos))
    decreases |words| - pos
  {
    if pos < |words| {
      var m, next, goesOn := ScanHead(root, words, pos);
      if goesOn {
        ScanSkipsOnlyNonMatches(root, words, next);
      }
      GapsAfterHead(root, words, pos, m, next, goesOn);
    }
  }

  /** The tail of the scan from `pos`, from its first step and the tail of the rest. */
  lemma TailAfterHead<V>(root: Node<V>, words: seq<string>, pos: nat, m: Option<Match<V>>, next: nat, goesOn: bool)
    requires pos < next <= |words|
    requires m.Some? ==> m.value.start == pos && m.value.end == next
    requires m.None? ==> next == pos + 1
    requires forall e :: Reach(m, pos) < e <= |words| ==> Lookup(root, words[pos..e]).None?
    requires goesOn ==> forall q :: Last(next, Scan(root, words, next)) <= q < Stop(root, words, next) ==> NoMatchAt(root, words, q)
    ensures var r := (if m.Some? then [m.value] else []) + Rest(root, words, next, goesOn);
      forall q :: Last(pos, r) <= q < (if goesOn then Stop(root, words, next) else pos) ==> NoMatchAt(root, words, q)
  {
    var t := Rest(root, words, next, goesOn);
    var r := (if m.Some? then [m.value] else []) + t;
    if goesOn {
      if |t| == 0 {
        if m.Some? {
          assert r == [m.value];
        } else {
          assert r == [];
          assert NoMatchAt(root, words, pos);
        }
      } else {
        assert r[|r| - 1] == t[|t| - 1];
      }
    }
  }

  /**
   * After the last reported match (or from `pos` when there is none) no stored
   * ngram starts before the point where the scan stops. With GapsMatchNothing,
   * every start before Stop that no match covers matches nothing; Stop is the
   * end of the input unless the input ran out during a candidate.
   */
  lemma {:induction false} ScanTailMatchesNothing<V>(root: Node<V>, words: seq<string>, pos: nat)
    requires pos <= |words|
    ensures forall q :: Last(pos, Scan(root, words, pos)) <= q < Stop(root, words, pos) ==> NoMatchAt(root, words, q)
    decreases |words| - pos
  {
    if pos < |words| {
      var m, next, goesOn := ScanHead(root, words, pos);
      if goesOn {
        ScanTailMatchesNothing(root, words, next);
      }
      TailAfterHead(root, words, pos, m, next, goesOn);
    }
  }
}

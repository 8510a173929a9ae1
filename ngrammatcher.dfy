/**
 * The ngram matcher: a trie of token sequences ("ngrams") with their
 * payloads, a count of the stored ngrams, and the operations insert, lookup,
 * membership, length, delete with pruning, enumeration and the greedy
 * leftmost-longest scan over a token list.
 *
 * The object's trie is a value (Trie.Node). Where the original changes a
 * nested dictionary in place through an alias, the methods here build the
 * changed node and write it back into its parent, up to the root.
 */
module NGramMatching {
  import opened Trie
  import opened Matching
  import opened Enumeration

  /** What get_all_ngrams returns: the stored ngrams alone, or each with its payload. */
  datatype Listing<V> = KeyList(keys: seq<seq<string>>) | PairList(pairs: seq<(seq<string>, V)>)

  /** What match_ngrams returns: the payloads alone, or each with its span. */
  datatype Matches<V> = Values(values: seq<V>) | Spans(spans: seq<Match<V>>)

  function KeysOf<V>(pairs: seq<(seq<string>, V)>): (r: seq<seq<string>>)
    ensures |r| == |pairs| && forall j :: 0 <= j < |pairs| ==> r[j] == pairs[j].0
  {
    seq(|pairs|, j requires 0 <= j < |pairs| => pairs[j].0)
  }

  lemma KeysOfAppend<V>(pairs: seq<(seq<string>, V)>, p: (seq<string>, V))
    ensures KeysOf(pairs + [p]) == KeysOf(pairs) + [p.0]
  {
  }

  /** Each pair is a stored ngram with its payload. */
  ghost predicate PairsStored<V>(t: Node<V>, pairs: seq<(seq<string>, V)>)
  {
    forall j :: 0 <= j < |pairs| ==> Lookup(t, pairs[j].0) == Some(pairs[j].1)
  }

  lemma PairsStoredAppend<V>(t: Node<V>, pairs: seq<(seq<string>, V)>, p: (seq<string>, V))
    requires PairsStored(t, pairs) && Lookup(t, p.0) == Some(p.1)
    ensures PairsStored(t, pairs + [p])
  {
  }

  /** Popping the top entry of the walk's stack: what it visits, what it leaves pending, and what it records. */
  lemma VisitTop<V>(t: Node<V>, all: set<seq<string>>, keys: set<seq<string>>, stack: seq<(seq<string>, Node<V>)>, visited: set<seq<string>>)
    requires |stack| > 0 && keys == Keys(t)
    requires Subtrie(t, stack[|stack| - 1].0) == Some(stack[|stack| - 1].1)
    requires Pending(stack) + multiset(visited) == multiset(all)
    ensures stack[|stack| - 1].0 !in visited
    ensures Pending(stack[..|stack| - 1]) + multiset(Prefixed(stack[|stack| - 1].0, Below(stack[|stack| - 1].1, stack[|stack| - 1].1.children.Keys)))
      + multiset(visited + {stack[|stack| - 1].0}) == multiset(all)
    ensures |Pending(stack[..|stack| - 1]) + multiset(Prefixed(stack[|stack| - 1].0, Below(stack[|stack| - 1].1, stack[|stack| - 1].1.children.Keys)))|
      < |Pending(stack)|
    ensures Lookup(t, stack[|stack| - 1].0) == stack[|stack| - 1].1.val
    ensures multiset(keys * (visited + {stack[|stack| - 1].0})) ==
      multiset(keys * visited) + (if stack[|stack| - 1].1.val.Some? then multiset{stack[|stack| - 1].0} else multiset{})
  {
    var key, n := stack[|stack| - 1].0, stack[|stack| - 1].1;
    assert stack == stack[..|stack| - 1] + [(key, n)];
    VisitNext(all, stack[..|stack| - 1], key, n, visited);
    KeysAreStored(t, key);
    VisitKeys(keys, visited, key);
  }

  /** When every position has been visited, the pairs collected are exactly the stored entries. */
  lemma WalkDone<V>(t: Node<V>, visited: set<seq<string>>, pairs: seq<(seq<string>, V)>)
    requires multiset{} + multiset(visited) == multiset(Paths(t))
    requires multiset(KeysOf(pairs)) == multiset(Keys(t) * visited)
    requires PairsStored(t, pairs)
    ensures multiset(KeysOf(pairs)) == multiset(Entries(t).Keys)
    ensures |KeysOf(pairs)| == |Keys(t)|
    ensures forall j :: 0 <= j < |pairs| ==> pairs[j].0 in Entries(t) && Entries(t)[pairs[j].0] == pairs[j].1
  {
    VisitedAll(visited, Paths(t));
    assert Keys(t) * visited == Keys(t);
    EntriesKeys(t);
    assert |multiset(KeysOf(pairs))| == |Keys(t)|;
    forall j | 0 <= j < |pairs|
      ensures pairs[j].0 in Entries(t) && Entries(t)[pairs[j].0] == pairs[j].1
    {
      KeysAreStored(t, pairs[j].0);
    }
  }

  /** The ngrams a listing names, with or without payloads. */
  function ListedKeys<V>(l: Listing<V>): seq<seq<string>>
  {
    match l
    case KeyList(keys) => keys
    case PairList(pairs) => KeysOf(pairs)
  }

  /**
   * The matches the scan still reports, from a point of the loop in
   * MatchNgrams: with no candidate open, a new one starts at `i`; otherwise
   * the candidate begun at `startPos` goes on from `head` with best match `ngram`.
   */
  ghost function Remaining<V>(root: Node<V>, words: seq<string>, i: nat, startPos: Option<nat>, head: Node<V>, ngram: Option<Match<V>>): seq<Match<V>>
    requires i <= |words|
    requires startPos.Some? ==> startPos.value < i
    requires ngram.Some? ==> startPos.Some? && ngram.value.start == startPos.value && startPos.value < ngram.value.end <= i
  {
    match startPos
    case None => Scan(root, words, i)
    case Some(s) => Resume(root, words, s, Extend(head, words, s, i, ngram))
  }

  /** `stack` holds the first tokens of `g`, each with the node it leads to from `root`. */
  ghost predicate OnPath<V>(root: Node<V>, g: seq<string>, stack: seq<(string, Node<V>)>)
  {
    |stack| <= |g| && forall k :: 0 <= k < |stack| ==> stack[k].0 == g[k] && Subtrie(root, g[..k + 1]) == Some(stack[k].1)
  }

  /** Along a complete path, each node leads to the next under the next token, and on to the end of `g`. */
  lemma PathNode<V>(root: Node<V>, g: seq<string>, stack: seq<(string, Node<V>)>, k: nat)
    requires OnPath(root, g, stack) && |stack| == |g| && k < |g|
    ensures Subtrie(stack[k].1, g[k + 1..]).Some?
    ensures k + 1 < |g| ==> g[k + 1] in stack[k].1.children && stack[k].1.children[g[k + 1]] == stack[k + 1].1
    ensures k == 0 ==> g[0] in root.children && root.children[g[0]] == stack[0].1
    ensures stack[k].0 == g[k]
  {
    assert g[..|g|] == g;
    assert Subtrie(root, g[..|g|]) == Some(stack[|g| - 1].1);
    SubtrieAppend(root, g[..k + 1], g[k + 1..]);
    assert g[..k + 1] + g[k + 1..] == g;
    if k + 1 < |g| {
      SubtrieStep(root, g[..k + 1], g[k + 1]);
      assert g[..k + 2] == g[..k + 1] + [g[k + 1]];
    }
    if k == 0 {
      SubtrieStep(root, [], g[0]);
      assert g[..1] == [] + [g[0]];
    }
  }

  /** Inserting a non-empty ngram keeps the trie well formed, and adds one stored ngram exactly when it is new. */
  lemma InsertKeepsValid<V>(t: Node<V>, g: seq<string>, v: V)
    requires WellFormed(t) && g != []
    ensures WellFormed(Insert(t, g, v))
    ensures |Keys(Insert(t, g, v))| == |Keys(t)| + (if g in Entries(t) then 0 else 1)
    ensures Entries(Insert(t, g, v)) == if g in Entries(t) then Entries(t) else Entries(t)[g := v]
  {
    KeysAreStored(t, g);
    InsertKeys(t, g, v);
    InsertEntries(t, g, v);
    InsertWellFormed(t, g, v);
  }

  /** Deleting a stored ngram keeps the trie well formed, and removes that one ngram. */
  lemma DeleteKeepsValid<V>(t: Node<V>, g: seq<string>)
    requires WellFormed(t) && g != [] && Subtrie(t, g).Some? && g in Entries(t)
    ensures WellFormed(Unmark(t, g))
    ensures |Keys(Unmark(t, g))| == |Keys(t)| - 1
    ensures Entries(Unmark(t, g)) == Entries(t) - {g}
  {
    KeysAreStored(t, g);
    UnmarkKeys(t, g);
    UnmarkEntries(t, g);
    UnmarkWellFormed(t, g);
  }

  /** Unmark from the node at depth k + 1 of `g`, in terms of Unmark from its child at depth k + 2. */
  lemma UnmarkOneUp<V>(n: Node<V>, g: seq<string>, k: nat, child: Node<V>)
    requires k + 1 < |g| && g[k + 1] in n.children && n.children[g[k + 1]] == child
    requires Subtrie(child, g[k + 2..]).Some?
    ensures Subtrie(n, g[k + 1..]).Some?
    ensures Unmark(n, g[k + 1..]) ==
      match Prune(Unmark(child, g[k + 2..]))
      case None => n.(children := n.children - {g[k + 1]})
      case Some(c) => n.(children := n.children[g[k + 1] := c])
  {
    UnmarkStep(n, g[k + 1], g[k + 2..]);
    assert [g[k + 1]] + g[k + 2..] == g[k + 1..];
  }

  /**
   * One pop of delete_ngram's unwinding, at depth `k`: the node there (with
   * its slot cleared if it is the last), with the child popped before it
   * dropped or written back, is that node with `ngram` unmarked below it.
   */
  lemma UnwindStep<V>(root: Node<V>, ngram: seq<string>, nodes: seq<(string, Node<V>)>, k: nat, node: Node<V>, previousWord: Option<string>, popped: Option<(string, Node<V>)>)
    requires OnPath(root, ngram, nodes) && |nodes| == |ngram| && k < |ngram|
    requires node == if k + 1 == |ngram| then nodes[k].1.(val := None) else nodes[k].1
    requires k + 1 == |ngram| ==> popped.None? && previousWord.None?
    requires k + 1 < |ngram| ==> popped.Some? && Subtrie(nodes[k + 1].1, ngram[k + 2..]).Some?
    requires k + 1 < |ngram| ==> popped.value == (ngram[k + 1], Unmark(nodes[k + 1].1, ngram[k + 2..]))
    requires k + 1 < |ngram| ==> previousWord == if Prune(popped.value.1).None? then Some(ngram[k + 1]) else None
    ensures nodes[k].0 == ngram[k] && Subtrie(nodes[k].1, ngram[k + 1..]).Some?
    ensures Unmark(nodes[k].1, ngram[k + 1..]) ==
      if previousWord.Some? then node.(children := node.children - {previousWord.value})
      else if popped.Some? then node.(children := node.children[popped.value.0 := popped.value.1])
      else node
  {
    PathNode(root, ngram, nodes, k);
    if k + 1 < |ngram| {
      UnmarkOneUp(nodes[k].1, ngram, k, nodes[k + 1].1);
    } else {
      assert ngram[k + 1..] == [];
    }
  }

  /**
   * What delete_ngram's unwinding keeps true: the stack holds the first
   * `|stack|` entries of the path of `ngram` (its last node with the slot
   * cleared); the node popped last is the node below, with `ngram`
   * unmarked under it; `previousWord` names it exactly when it is left empty.
   */
  ghost predicate Unwinding<V>(root: Node<V>, ngram: seq<string>, nodes: seq<(string, Node<V>)>, stack: seq<(string, Node<V>)>, previousWord: Option<string>, popped: Option<(string, Node<V>)>)
  {
    && |ngram| > 0 && |nodes| == |ngram| && OnPath(root, ngram, nodes) && |stack| <= |ngram|
    && (forall k :: 0 <= k < |stack| ==>
        stack[k] == (nodes[k].0, if k + 1 == |ngram| then nodes[k].1.(val := None) else nodes[k].1))
    && (popped.None? <==> |stack| == |ngram|)
    && (popped.None? ==> previousWord.None?)
    && (popped.Some? ==> |stack| < |ngram| && Subtrie(nodes[|stack|].1, ngram[|stack| + 1..]).Some?)
    && (popped.Some? ==> popped.value == (ngram[|stack|], Unmark(nodes[|stack|].1, ngram[|stack| + 1..])))
    && (popped.Some? ==> previousWord == if Prune(popped.value.1).None? then Some(ngram[|stack|]) else None)
  }

  /**
   * One pop of delete_ngram's unwinding: the top node drops the child popped
   * before it if that one was left empty, or takes it back as changed.
   */
  method PopNode<V>(root: Node<V>, ngram: seq<string>, nodes: seq<(string, Node<V>)>, stack: seq<(string, Node<V>)>, previousWord: Option<string>, popped: Option<(string, Node<V>)>)
      returns (stack': seq<(string, Node<V>)>, previousWord': Option<string>, popped': Option<(string, Node<V>)>)
    requires |stack| > 0 && Unwinding(root, ngram, nodes, stack, previousWord, popped)
    ensures Unwinding(root, ngram, nodes, stack', previousWord', popped') && |stack'| == |stack| - 1
  {
    var word, node := stack[|stack| - 1].0, stack[|stack| - 1].1;
    stack' := stack[..|stack| - 1];
    UnwindStep(root, ngram, nodes, |stack'|, node, previousWord, popped);
    if previousWord.Some? {
      node := node.(children := node.children - {previousWord.value});
    } else if popped.Some? {
      node := node.(children := node.children[popped.value.0 := popped.value.1]);
    }
    if |node.children| == 0 && node.val.None? {
      previousWord' := Some(word);
    } else {
      previousWord' := None;
    }
    popped' := Some((word, node));
  }

  /** The last node of a complete path holds the payload of `g`. */
  lemma PathEnd<V>(root: Node<V>, g: seq<string>, stack: seq<(string, Node<V>)>)
    requires OnPath(root, g, stack) && |stack| == |g| > 0
    ensures Subtrie(root, g) == Some(stack[|g| - 1].1)
    ensures Lookup(root, g) == stack[|g| - 1].1.val
  {
    assert g[..|g|] == g;
  }

  /**
   * What the variables of match_ngrams's loop mean at the top of each
   * iteration: with no candidate open, `head` is the root and nothing is
   * remembered; with one open since `startPos`, `endPos` is `i` and `ngram` is
   * its longest match so far, and `notEnd` is unset or that match's end.
   */
  ghost predicate Tracking<V>(root: Node<V>, words: seq<string>, i: nat, startPos: Option<nat>, endPos: Option<nat>, notEnd: Option<nat>, head: Node<V>, ngram: Option<Match<V>>)
  {
    && i <= |words|
    && (startPos.None? ==> head == root && ngram.None? && endPos.None?)
    && (startPos.Some? ==> startPos.value < i && endPos == Some(i))
    && (ngram.Some? ==> startPos.Some? && ngram.value.start == startPos.value && startPos.value < ngram.value.end <= i)
    && (ngram.Some? ==> (notEnd.None? && ngram.value.end == i) || notEnd == Some(ngram.value.end))
  }

  /**
   * When a candidate with a match ends, match_ngrams resumes at `notEnd` if it
   * is truthy and at `endPos` otherwise: either way, at the end of the match.
   * (`notEnd` is never 0 here, since a match ends after its start.)
   */
  lemma ResumesAtMatchEnd<V>(root: Node<V>, words: seq<string>, i: nat, startPos: Option<nat>, endPos: Option<nat>, notEnd: Option<nat>, head: Node<V>, ngram: Option<Match<V>>)
    requires Tracking(root, words, i, startPos, endPos, notEnd, head, ngram) && ngram.Some?
    ensures endPos.Some? && (if Truthy(notEnd) then notEnd.value else endPos.value) == ngram.value.end
  {
  }

  /** The next token continues the candidate: it starts here if none was open, and its best match may grow. */
  lemma CandidateGoesOn<V>(root: Node<V>, words: seq<string>, i: nat, startPos: Option<nat>, head: Node<V>, ngram: Option<Match<V>>)
    requires i < |words| && words[i] in head.children
    requires startPos.None? ==> head == root && ngram.None?
    requires startPos.Some? ==> startPos.value < i
    requires ngram.Some? ==> startPos.Some? && ngram.value.start == startPos.value && startPos.value < ngram.value.end <= i
    ensures var s := if startPos.Some? then startPos.value else i;
      var c := head.children[words[i]];
      Remaining(root, words, i, startPos, head, ngram) ==
      Remaining(root, words, i + 1, Some(s), c, if c.val.Some? then Some(Match(c.val.value, s, i + 1)) else ngram)
  {
  }

  /**
   * The next token leaves the trie: the candidate's best match, if any, is
   * reported and the scan resumes at its end; otherwise it resumes one token
   * after the candidate's start.
   */
  lemma CandidateEnds<V>(root: Node<V>, words: seq<string>, i: nat, startPos: Option<nat>, head: Node<V>, ngram: Option<Match<V>>, found: seq<Match<V>>)
    requires i < |words| && words[i] !in head.children
    requires startPos.None? ==> head == root && ngram.None?
    requires startPos.Some? ==> startPos.value < i
    requires ngram.Some? ==> startPos.Some? && ngram.value.start == startPos.value && startPos.value < ngram.value.end <= i
    ensures ngram.Some? ==>
      found + Remaining(root, words, i, startPos, head, ngram) == (found + [ngram.value]) + Remaining(root, words, ngram.value.end, None, root, None)
    ensures ngram.None? ==>
      Remaining(root, words, i, startPos, head, ngram) == Remaining(root, words, (if startPos.Some? then startPos.value else i) + 1, None, root, None)
  {
    if startPos.None? {
      assert Scan(root, words, i) == Resume(root, words, i, Extend(root, words, i, i, None));
    }
    if ngram.Some? {
      var rest := Remaining(root, words, ngram.value.end, None, root, None);
      assert Remaining(root, words, i, startPos, head, ngram) == [ngram.value] + rest;
      assert found + ([ngram.value] + rest) == (found + [ngram.value]) + rest;
    }
  }

  /** The input runs out: the open candidate's best match, if any, is the last one reported. */
  lemma InputRunsOut<V>(root: Node<V>, words: seq<string>, startPos: Option<nat>, head: Node<V>, ngram: Option<Match<V>>)
    requires startPos.None? ==> head == root && ngram.None?
    requires startPos.Some? ==> startPos.value < |words|
    requires ngram.Some? ==> startPos.Some? && ngram.value.start == startPos.value && startPos.value < ngram.value.end <= |words|
    ensures Remaining(root, words, |words|, startPos, head, ngram) == if ngram.Some? then [ngram.value] else []
  {
  }

  /** Where the open candidate began, or `i` when none is open. */
  function Anchor(startPos: Option<nat>, i: nat): nat
  {
    if startPos.Some? then startPos.value else i
  }

  /**
   * One step of match_ngrams's loop when the next token continues the
   * candidate: the candidate keeps (or takes) its start, grows by one token,
   * and the matches still to come are the same.
   */
  method Advance<V>(root: Node<V>, words: seq<string>, i: nat, startPos: Option<nat>, endPos: Option<nat>, notEnd: Option<nat>, head: Node<V>, ngram: Option<Match<V>>)
      returns (i': nat, startPos': Option<nat>, endPos': Option<nat>, notEnd': Option<nat>, head': Node<V>, ngram': Option<Match<V>>)
    requires Tracking(root, words, i, startPos, endPos, notEnd, head, ngram)
    requires i < |words| && words[i] in head.children
    ensures Tracking(root, words, i', startPos', endPos', notEnd', head', ngram')
    ensures i' == i + 1 && Anchor(startPos', i') == Anchor(startPos, i)
    ensures Remaining(root, words, i', startPos', head', ngram') == Remaining(root, words, i, startPos, head, ngram)
  {
    CandidateGoesOn(root, words, i, startPos, head, ngram);
    head' := head.children[words[i]];
    startPos' := startPos;
    if startPos.None? {
      startPos' := Some(i);
    }
    endPos' := Some(i + 1);
    ngram' := ngram;
    notEnd' := notEnd;
    if head'.val.Some? {
      ngram' := Some(Match(head'.val.value, startPos'.value, endPos'.value));
      notEnd' := None;
    } else if !Truthy(notEnd) {
      notEnd' := Some(i);
    }
    i' := i + 1;
  }

  /**
   * One step of match_ngrams's loop when the next token leaves the trie: the
   * candidate's best match, if any, is reported and the scan restarts from
   * the root past the candidate's start.
   */
  method Settle<V>(root: Node<V>, words: seq<string>, i: nat, startPos: Option<nat>, endPos: Option<nat>, notEnd: Option<nat>, head: Node<V>, ngram: Option<Match<V>>, found: seq<Match<V>>)
      returns (i': nat, found': seq<Match<V>>)
    requires Tracking(root, words, i, startPos, endPos, notEnd, head, ngram)
    requires i < |words| && words[i] !in head.children
    ensures Anchor(startPos, i) < i' <= |words|
    ensures found' + Scan(root, words, i') == found + Remaining(root, words, i, startPos, head, ngram)
  {
    CandidateEnds(root, words, i, startPos, head, ngram, found);
    found' := found;
    if ngram.Some? {
      ResumesAtMatchEnd(root, words, i, startPos, endPos, notEnd, head, ngram);
      found' := found + [ngram.value];
      if Truthy(notEnd) {
        i' := notEnd.value;
      } else {
        i' := endPos.value;
      }
    } else {
      if startPos.Some? {
        i' := startPos.value + 1;
      } else {
        i' := i + 1;
      }
    }
  }

  /** `nodes[k]` is the node at depth `k` of `g` below `nodes[0]`, an absent one read as empty. */
  ghost predicate Along<V>(root: Node<V>, g: seq<string>, nodes: seq<Node<V>>)
  {
    |nodes| == |g| + 1 && nodes[0] == root && forall k :: 0 <= k < |g| ==> nodes[k + 1] == Child(nodes[k], g[k])
  }

  /**
   * The write-back of insert_ngram: the payload goes into the last node unless
   * one is there, and each node is put back into its parent up to the root.
   * (The source changes the shared nodes in place; here each is rebuilt.)
   */
  method Rebuild<V>(nodes: seq<Node<V>>, g: seq<string>, v: V) returns (root: Node<V>)
    requires |nodes| > 0 && Along(nodes[0], g, nodes)
    ensures root == Insert(nodes[0], g, v)
  {
    root := nodes[|g|];
    if root.val.None? {
      root := root.(val := Some(v));
    }
    var j := |g|;
    while j > 0
      invariant 0 <= j <= |g|
      invariant root == Insert(nodes[j], g[j..], v)
    {
      j := j - 1;
      assert g[j..][0] == g[j] && g[j..][1..] == g[j + 1..];
      root := nodes[j].(children := nodes[j].children[g[j] := root]);
    }
    assert g[0..] == g;
  }

  /**
   * What get_all_ngrams's walk keeps true: the stack holds positions of the
   * trie; the positions still pending and those visited are every position
   * once; the pairs collected are the stored ngrams visited so far.
   */
  ghost predicate Walking<V>(t: Node<V>, stack: seq<(seq<string>, Node<V>)>, visited: set<seq<string>>, pairs: seq<(seq<string>, V)>)
  {
    && (forall j :: 0 <= j < |stack| ==> Subtrie(t, stack[j].0) == Some(stack[j].1))
    && Pending(stack) + multiset(visited) == multiset(Paths(t))
    && multiset(KeysOf(pairs)) == multiset(Keys(t) * visited)
    && PairsStored(t, pairs)
  }

  class NGramMatcher<V> {
    var trie: Node<V>
    var ngramCount: nat

    /** The object invariant: a well-formed trie, and a count equal to the number of terminal nodes. */
    ghost predicate Valid()
      reads this
    {
      WellFormed(trie) && ngramCount == |Keys(trie)|
    }

    /** The abstract value: each stored ngram with its payload. */
    ghost function Contents(): map<seq<string>, V>
      reads this
    {
      Entries(trie)
    }

    constructor ()
      ensures Valid() && trie == Empty() && Contents() == map[] && ngramCount == 0
    {
      trie := Empty();
      ngramCount := 0;
      new;
      EmptyStoresNothing<V>();
    }

    /**
     * The descent of insert_ngram: the node at each depth of `ngram`, a
     * missing one standing for the empty node the source creates there.
     */
    method Descend(ngram: seq<string>) returns (path: seq<Node<V>>, last: Node<V>)
      ensures Along(trie, ngram, path + [last])
      ensures last.val == Lookup(trie, ngram)
    {
      last := trie;
      path := [];
      for j := 0 to |ngram|
        invariant Along(trie, ngram[..j], path + [last])
        invariant Subtrie(trie, ngram[..j]) == Some(last) || (Subtrie(trie, ngram[..j]).None? && last == Empty())
      {
        SubtrieStep(trie, ngram[..j], ngram[j]);
        assert ngram[..j + 1] == ngram[..j] + [ngram[j]];
        path := path + [last];
        last := Child(last, ngram[j]);
      }
      assert ngram[..|ngram|] == ngram;
      if Subtrie(trie, ngram).None? {
        EmptyLookup<V>([]);
      }
    }

    /**
     * insert_ngram: walks the path of `ngram`, creating the nodes that are
     * missing, and stores `data` at its end unless an ngram is already stored there.
     */
    method InsertNgram(ngram: seq<string>, data: V)
      requires Valid() && |ngram| > 0
      modifies this
      ensures Valid()
      ensures trie == Insert(old(trie), ngram, data)
      ensures Contents() == if ngram in old(Contents()) then old(Contents()) else old(Contents())[ngram := data]
      ensures ngramCount == old(ngramCount) + (if ngram in old(Contents()) then 0 else 1)
    {
      var path, last := Descend(ngram);
      var isNew := last.val.None?;
      assert isNew <==> ngram !in Contents() by {
        KeysAreStored(trie, ngram);
      }
      var root := Rebuild(path + [last], ngram, data);
      InsertKeepsValid(trie, ngram, data);
      trie := root;
      if isNew {
        ngramCount := ngramCount + 1;
      }
    }

    /** __getitem__: the payload stored for `ngram`, None when it is not stored. */
    method Get(ngram: seq<string>) returns (r: Option<V>)
      ensures r == if ngram in Contents() then Some(Contents()[ngram]) else None
    {
      KeysAreStored(trie, ngram);
      var head := trie;
      for j := 0 to |ngram|
        invariant Subtrie(trie, ngram[..j]) == Some(head)
      {
        SubtrieStep(trie, ngram[..j], ngram[j]);
        assert ngram[..j + 1] == ngram[..j] + [ngram[j]];
        if ngram[j] in head.children {
          head := head.children[ngram[j]];
        } else {
          SubtriePrefix(trie, ngram, j + 1);
          return None;
        }
      }
      assert ngram[..|ngram|] == ngram;
      return head.val;
    }

    /** __contains__: whether `ngram` is stored. */
    method Contains(ngram: seq<string>) returns (b: bool)
      ensures b <==> ngram in Contents()
    {
      KeysAreStored(trie, ngram);
      var head := trie;
      for j := 0 to |ngram|
        invariant Subtrie(trie, ngram[..j]) == Some(head)
      {
        SubtrieStep(trie, ngram[..j], ngram[j]);
        assert ngram[..j + 1] == ngram[..j] + [ngram[j]];
        if ngram[j] in head.children {
          head := head.children[ngram[j]];
        } else {
          SubtriePrefix(trie, ngram, j + 1);
          return false;
        }
      }
      assert ngram[..|ngram|] == ngram;
      return head.val.Some?;
    }

    /** __len__: the number of stored ngrams. */
    method Len() returns (n: nat)
      requires Valid()
      ensures n == |Contents()|
    {
      EntriesKeys(trie);
      return ngramCount;
    }

    /**
     * The descent of delete_ngram: the path of `ngram`, each token with the
     * node it leads to, or None as soon as a token is missing.
     */
    method FindPath(ngram: seq<string>) returns (r: Option<seq<(string, Node<V>)>>)
      ensures r.None? <==> Subtrie(trie, ngram).None?
      ensures r.Some? ==> |r.value| == |ngram| && OnPath(trie, ngram, r.value)
    {
      var subtrie := trie;
      var stack: seq<(string, Node<V>)> := [];
      for j := 0 to |ngram|
        invariant |stack| == j
        invariant Subtrie(trie, ngram[..j]) == Some(subtrie)
        invariant OnPath(trie, ngram, stack)
      {
        SubtrieStep(trie, ngram[..j], ngram[j]);
        assert ngram[..j + 1] == ngram[..j] + [ngram[j]];
        if ngram[j] in subtrie.children {
          stack := stack + [(ngram[j], subtrie.children[ngram[j]])];
          subtrie := subtrie.children[ngram[j]];
        } else {
          SubtriePrefix(trie, ngram, j + 1);
          return None;
        }
      }
      assert ngram[..|ngram|] == ngram;
      return Some(stack);
    }

    /**
     * The rest of delete_ngram, on the path `nodes` of a stored ngram: clears
     * its terminal slot, then pops the path, dropping each child that was left
     * empty, and gives the trie that results.
     */
    method Unwind(ngram: seq<string>, nodes: seq<(string, Node<V>)>) returns (root: Node<V>)
      requires |ngram| > 0 && |nodes| == |ngram| && OnPath(trie, ngram, nodes)
      ensures Subtrie(trie, ngram).Some? && root == Unmark(trie, ngram)
    {
      var stack := nodes;
      var last := stack[|stack| - 1].1;
      stack := stack[|stack| - 1 := (stack[|stack| - 1].0, last.(val := None))];

      // `popped` is the node popped last, as changed, to be written back into its parent
      var previousWord: Option<string> := None;
      var popped: Option<(string, Node<V>)> := None;
      while |stack| > 0
        invariant Unwinding(trie, ngram, nodes, stack, previousWord, popped)
        decreases |stack|
      {
        stack, previousWord, popped := PopNode(trie, ngram, nodes, stack, previousWord, popped);
      }

      PathNode(trie, ngram, nodes, 0);
      UnmarkStep(trie, ngram[0], ngram[1..]);
      assert [ngram[0]] + ngram[1..] == ngram;
      if previousWord.Some? {
        root := trie.(children := trie.children - {previousWord.value});
      } else {
        root := trie.(children := trie.children[popped.value.0 := popped.value.1]);
      }
    }

    /**
     * The search of delete_ngram: the path of `ngram` when it is stored, None
     * when a token leaves the trie or the last node holds no payload.
     */
    method Locate(ngram: seq<string>) returns (r: Option<seq<(string, Node<V>)>>)
      requires |ngram| > 0
      ensures r.Some? <==> ngram in Contents()
      ensures r.Some? ==> |r.value| == |ngram| && OnPath(trie, ngram, r.value)
    {
      KeysAreStored(trie, ngram);
      r := FindPath(ngram);
      if r.Some? {
        PathEnd(trie, ngram, r.value);
        if r.value[|ngram| - 1].1.val.None? {
          r := None;
        }
      }
    }

    /**
     * delete_ngram: removes `ngram` and prunes the nodes of its path that are
     * left empty, from the bottom up; false, with nothing changed, when
     * `ngram` is not stored.
     */
    method DeleteNgram(ngram: seq<string>) returns (deleted: bool)
      requires Valid() && |ngram| > 0
      modifies this
      ensures Valid()
      ensures deleted == (ngram in old(Contents()))
      ensures Contents() == old(Contents()) - {ngram}
      ensures ngramCount == old(ngramCount) - (if deleted then 1 else 0)
      ensures deleted ==> trie == Unmark(old(trie), ngram)
      ensures !deleted ==> trie == old(trie)
    {
      var path := Locate(ngram);
      if path.None? {
        return false;
      }
      var root := Unwind(ngram, path.value);
      DeleteKeepsValid(trie, ngram);
      trie := root;
      ngramCount := ngramCount - 1;
      return true;
    }

    /** Pushes every child of `node`, found at `key`, onto `stack` with its path (order unspecified). */
    method PushChildren(stack: seq<(seq<string>, Node<V>)>, key: seq<string>, node: Node<V>) returns (stack': seq<(seq<string>, Node<V>)>)
      requires Subtrie(trie, key) == Some(node)
      requires forall j :: 0 <= j < |stack| ==> Subtrie(trie, stack[j].0) == Some(stack[j].1)
      ensures forall j :: 0 <= j < |stack'| ==> Subtrie(trie, stack'[j].0) == Some(stack'[j].1)
      ensures Pending(stack') == Pending(stack) + multiset(Prefixed(key, Below(node, node.children.Keys)))
    {
      stack' := stack;
      var subkeys := node.children.Keys;
      while subkeys != {}
        invariant subkeys <= node.children.Keys
        invariant forall j :: 0 <= j < |stack'| ==> Subtrie(trie, stack'[j].0) == Some(stack'[j].1)
        invariant Pending(stack') + multiset(Prefixed(key, Below(node, subkeys))) ==
          Pending(stack) + multiset(Prefixed(key, Below(node, node.children.Keys)))
        decreases |subkeys|
      {
        var subkey :| subkey in subkeys;
        SubtrieStep(trie, key, subkey);
        BelowStep(key, node, subkeys, subkey);
        PendingPush(stack', (key + [subkey], node.children[subkey]));
        stack' := stack' + [(key + [subkey], node.children[subkey])];
        subkeys := subkeys - {subkey};
      }
      BelowNothing(node);
    }

    /** One step of get_all_ngrams's walk: pop a position, collect its ngram if one is stored there, push its children. */
    method Visit(stack: seq<(seq<string>, Node<V>)>, ngrams: seq<(seq<string>, V)>, ghost visited: set<seq<string>>)
        returns (stack': seq<(seq<string>, Node<V>)>, ngrams': seq<(seq<string>, V)>, ghost visited': set<seq<string>>)
      requires |stack| > 0 && Walking(trie, stack, visited, ngrams)
      ensures Walking(trie, stack', visited', ngrams')
      ensures |Pending(stack')| < |Pending(stack)|
    {
      var key, subtrie := stack[|stack| - 1].0, stack[|stack| - 1].1;
      VisitTop(trie, Paths(trie), Keys(trie), stack, visited);
      stack' := stack[..|stack| - 1];
      ngrams' := ngrams;
      if subtrie.val.Some? {
        KeysOfAppend(ngrams, (key, subtrie.val.value));
        PairsStoredAppend(trie, ngrams, (key, subtrie.val.value));
        ngrams' := ngrams + [(key, subtrie.val.value)];
      }
      stack' := PushChildren(stack', key, subtrie);
      visited' := visited + {key};
    }

    /**
     * get_all_ngrams: every stored ngram exactly once, with its payload unless
     * `keysOnly`, in an unspecified order, found by a walk with an explicit stack.
     */
    method GetAllNgrams(keysOnly: bool) returns (r: Listing<V>)
      requires Valid()
      ensures r.KeyList? == keysOnly
      ensures multiset(ListedKeys(r)) == multiset(Contents().Keys)
      ensures |ListedKeys(r)| == ngramCount
      ensures r.PairList? ==> forall j :: 0 <= j < |r.pairs| ==>
        r.pairs[j].0 in Contents() && Contents()[r.pairs[j].0] == r.pairs[j].1
    {
      var ngrams: seq<(seq<string>, V)> := [];
      var stack := PushChildren([], [], trie);
      ghost var visited: set<seq<string>> := {[]};
      WalkStart(trie);
      assert Keys(trie) * visited == {} by {
        KeysAreStored(trie, []);
      }
      while |stack| > 0
        invariant Walking(trie, stack, visited, ngrams)
        decreases |Pending(stack)|
      {
        stack, ngrams, visited := Visit(stack, ngrams, visited);
      }
      WalkDone(trie, visited, ngrams);
      if keysOnly {
        return KeyList(KeysOf(ngrams));
      }
      return PairList(ngrams);
    }

    /**
     * match_ngrams: the greedy leftmost-longest, non-overlapping matches of
     * stored ngrams in `words`, as payloads with spans when `spanInfo`, as
     * payloads alone otherwise.
     */
    method MatchNgrams(words: seq<string>, spanInfo: bool) returns (r: Matches<V>)
      ensures r == if spanInfo then Spans(Scan(trie, words, 0)) else Values(ValuesOf(Scan(trie, words, 0)))
    {
      if |words| == 0 {
        return if spanInfo then Spans([]) else Values([]);
      }
      ghost var all := Scan(trie, words, 0);
      var ngrams: seq<Match<V>> := [];
      var startPos: Option<nat> := None;
      var endPos: Option<nat> := None;
      var notEnd: Option<nat> := None;
      var ngram: Option<Match<V>> := None;
      var head := trie;
      var i: nat := 0;
      while i < |words|
        invariant Tracking(trie, words, i, startPos, endPos, notEnd, head, ngram)
        invariant ngrams + Remaining(trie, words, i, startPos, head, ngram) == all
        decreases |words| - Anchor(startPos, i), |words| - i
      {
        if words[i] in head.children {
          // the candidate goes on
          i, startPos, endPos, notEnd, head, ngram := Advance(trie, words, i, startPos, endPos, notEnd, head, ngram);
        } else {
          // the candidate ends
          i, ngrams := Settle(trie, words, i, startPos, endPos, notEnd, head, ngram, ngrams);
          head := trie;
          if ngram.Some? {
            ngram := None;
            notEnd := None;
          }
          startPos := None;
          endPos := None;
        }
      }
      // the input ran out: the open candidate's best match, if any, is the last
      InputRunsOut(trie, words, startPos, head, ngram);
      if ngram.Some? {
        ngrams := ngrams + [ngram.value];
      }
      if !spanInfo {
        return Values(ValuesOf(ngrams));
      }
      return Spans(ngrams);
    }
  }
}

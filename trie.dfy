/**
 * The token-keyed trie behind the ngram matcher, as a value, and the abstract
 * map from ngrams to payloads that it represents.
 *
 * A node maps each token to a child node and has its own terminal slot: the
 * payload of the ngram that ends at this node, if any. Keeping the slot apart
 * from the token keys means that no token can ever be mistaken for the end tag.
 */
module Trie {

  datatype Option<T> = None | Some(value: T)

  datatype Node<V> = Node(children: map<string, Node<V>>, val: Option<V>)

  /** A node without children and without a payload: what insertion creates. */
  function Empty<V>(): Node<V>
  {
    Node(map[], None)
  }

  /** The child under `w`, or a new empty node when `w` has none. */
  function Child<V>(n: Node<V>, w: string): Node<V>
  {
    if w in n.children then n.children[w] else Empty()
  }

  /** The node reached from `n` by following the tokens of `p`, if every one is there. */
  function Subtrie<V>(n: Node<V>, p: seq<string>): Option<Node<V>>
    decreases |p|
  {
    if p == [] then Some(n)
    else if p[0] in n.children then Subtrie(n.children[p[0]], p[1..])
    else None
  }

  /** The payload stored for `g`: None when a token of `g` is off the trie or the node it reaches is not terminal. */
  function Lookup<V>(n: Node<V>, g: seq<string>): (r: Option<V>)
    ensures forall j :: 0 <= j <= |g| && Subtrie(n, g[..j]).None? ==> r.None?
  {
    SubtriePrefixes(n, g);
    match Subtrie(n, g)
    case None => None
    case Some(m) => m.val
  }

  /** Every position (path from `n`) at which a node exists, `n` itself included. */
  ghost function Paths<V>(n: Node<V>): set<seq<string>>
    decreases n, 1
  {
    {[]} + Below(n, n.children.Keys)
  }

  /** The positions strictly below `n` that pass through a child whose token is in `ks`. */
  ghost function Below<V>(n: Node<V>, ks: set<string>): set<seq<string>>
    decreases n, 0
  {
    set k, s | k in ks && k in n.children && s in Paths(n.children[k]) :: [k] + s
  }

  /** The stored ngrams: the positions of the terminal nodes. */
  ghost function Keys<V>(n: Node<V>): set<seq<string>>
  {
    set p | p in Paths(n) && Lookup(n, p).Some?
  }

  /** The abstract map the trie represents. */
  ghost function Entries<V>(n: Node<V>): map<seq<string>, V>
  {
    map p | p in Keys(n) :: Lookup(n, p).value
  }

  /** No dead leaves: every node without children is terminal, all the way down. */
  ghost predicate Pruned<V>(n: Node<V>)
    decreases n
  {
    && (|n.children| == 0 ==> n.val.Some?)
    && forall k | k in n.children :: Pruned(n.children[k])
  }

  /** The trie invariant: the root is never terminal (no empty ngram is stored) and every node below it is pruned. */
  ghost predicate WellFormed<V>(root: Node<V>)
  {
    && root.val.None?
    && forall k | k in root.children :: Pruned(root.children[k])
  }

  // ---------------------------------------------------------------------------
  // Walking paths

  lemma {:induction false} SubtrieAppend<V>(n: Node<V>, a: seq<string>, b: seq<string>)
    ensures Subtrie(n, a + b) == match Subtrie(n, a) case None => None case Some(m) => Subtrie(m, b)
    decreases |a|
  {
    if a == [] {
      assert a + b == b;
    } else {
      assert (a + b)[0] == a[0] && (a + b)[1..] == a[1..] + b;
      if a[0] in n.children {
        SubtrieAppend(n.children[a[0]], a[1..], b);
      }
    }
  }

  /** One more token: the walk takes the child under it, or fails. */
  lemma SubtrieStep<V>(n: Node<V>, p: seq<string>, w: string)
    ensures Subtrie(n, p + [w]) ==
      match Subtrie(n, p)
      case None => None
      case Some(m) => if w in m.children then Some(m.children[w]) else None
  {
    SubtrieAppend(n, p, [w]);
    match Subtrie(n, p)
    case None =>
    case Some(m) =>
      assert [w][1..] == [];
  }

  /** A missing prefix means a missing path. */
  lemma SubtriePrefix<V>(n: Node<V>, g: seq<string>, j: nat)
    requires j <= |g|
    requires Subtrie(n, g[..j]).None?
    ensures Subtrie(n, g).None?
  {
    SubtrieAppend(n, g[..j], g[j..]);
    assert g[..j] + g[j..] == g;
  }

  /** Every missing prefix means a missing path. */
  lemma SubtriePrefixes<V>(n: Node<V>, g: seq<string>)
    ensures forall j :: 0 <= j <= |g| && Subtrie(n, g[..j]).None? ==> Subtrie(n, g).None?
  {
    forall j | 0 <= j <= |g| && Subtrie(n, g[..j]).None?
      ensures Subtrie(n, g).None?
    {
      SubtriePrefix(n, g, j);
    }
  }

  lemma {:induction false} PathsAreSubtries<V>(n: Node<V>, p: seq<string>)
    ensures p in Paths(n) <==> Subtrie(n, p).Some?
    decreases |p|
  {
    if p != [] {
      if p in Paths(n) {
        assert p in Below(n, n.children.Keys);
        var k, s :| k in n.children.Keys && k in n.children && s in Paths(n.children[k]) && p == [k] + s;
        assert p[0] == k && p[1..] == s;
        PathsAreSubtries(n.children[k], s);
      } else if p[0] in n.children {
        PathsAreSubtries(n.children[p[0]], p[1..]);
        assert p == [p[0]] + p[1..];
      }
    }
  }

  /** The keys of the abstract map are exactly the ngrams that the lookup walk finds. */
  lemma KeysAreStored<V>(n: Node<V>, g: seq<string>)
    ensures g in Keys(n) <==> Lookup(n, g).Some?
    ensures g in Entries(n) <==> Lookup(n, g).Some?
    ensures g in Entries(n) ==> Entries(n)[g] == Lookup(n, g).value
  {
    PathsAreSubtries(n, g);
  }

  lemma EntriesKeys<V>(n: Node<V>)
    ensures Entries(n).Keys == Keys(n)
    ensures |Entries(n)| == |Keys(n)|
  {
  }

  lemma EmptyStoresNothing<V>()
    ensures Keys(Empty<V>()) == {}
    ensures Entries(Empty<V>()) == map[]
    ensures WellFormed(Empty<V>())
  {
    var e := Empty<V>();
    forall p
      ensures p !in Keys(e)
    {
      EmptyLookup<V>(p);
    }
  }

  // ---------------------------------------------------------------------------
  // Insertion

  /**
   * The trie after inserting `g` with payload `v`: the path of `g` is created
   * where missing, and its last node receives `v` unless it is already terminal.
   */
  function Insert<V>(n: Node<V>, g: seq<string>, v: V): (r: Node<V>)
    ensures Subtrie(r, g).Some?
    ensures Lookup(r, g) == if Lookup(n, g).None? then Some(v) else Lookup(n, g)
    decreases |g|
  {
    if g == [] then (if n.val.None? then n.(val := Some(v)) else n)
    else n.(children := n.children[g[0] := Insert(Child(n, g[0]), g[1..], v)])
  }

  lemma EmptyLookup<V>(g: seq<string>)
    ensures Lookup(Empty<V>(), g).None?
  {
  }

  /** Inserting stores `v` under `g` when `g` was absent, and changes no other lookup; a present `g` keeps its payload. */
  lemma {:induction false} InsertLookup<V>(n: Node<V>, g: seq<string>, v: V, h: seq<string>)
    ensures Lookup(Insert(n, g, v), h) == if h == g && Lookup(n, g).None? then Some(v) else Lookup(n, h)
    decreases |g|
  {
    var r := Insert(n, g, v);
    if h != [] && g != [] && h[0] == g[0] {
      var c := Child(n, g[0]);
      InsertLookup(c, g[1..], v, h[1..]);
      assert Lookup(r, h) == Lookup(Insert(c, g[1..], v), h[1..]);
      assert h == g <==> h[1..] == g[1..] by {
        assert h == [h[0]] + h[1..] && g == [g[0]] + g[1..];
      }
      if g[0] in n.children {
        assert Lookup(n, h) == Lookup(c, h[1..]);
        assert Lookup(n, g) == Lookup(c, g[1..]);
      } else {
        EmptyLookup<V>(h[1..]);
        EmptyLookup<V>(g[1..]);
      }
    }
  }

  lemma InsertKeys<V>(n: Node<V>, g: seq<string>, v: V)
    ensures Keys(Insert(n, g, v)) == Keys(n) + {g}
    ensures |Keys(Insert(n, g, v))| == |Keys(n)| + (if g in Keys(n) then 0 else 1)
  {
    var r := Insert(n, g, v);
    forall h
      ensures h in Keys(r) <==> h in Keys(n) + {g}
    {
      InsertLookup(n, g, v, h);
      KeysAreStored(r, h);
      KeysAreStored(n, h);
    }
    assert Keys(r) == Keys(n) + {g};
    AddOne(Keys(n), g);
  }

  /** Adding an element grows a set by one exactly when it was absent. */
  lemma AddOne<T>(s: set<T>, x: T)
    ensures |s + {x}| == |s| + (if x in s then 0 else 1)
  {
    if x in s {
      assert s + {x} == s;
    }
  }

  /** The abstract effect of insert_ngram: a new ngram is added with its payload; a present one keeps its payload. */
  lemma InsertEntries<V>(n: Node<V>, g: seq<string>, v: V)
    ensures Entries(Insert(n, g, v)) == if g in Entries(n) then Entries(n) else Entries(n)[g := v]
  {
    var r := Insert(n, g, v);
    var want := if g in Entries(n) then Entries(n) else Entries(n)[g := v];
    InsertKeys(n, g, v);
    KeysAreStored(n, g);
    forall h | h in Entries(r)
      ensures h in want && Entries(r)[h] == want[h]
    {
      InsertLookup(n, g, v, h);
      KeysAreStored(r, h);
      KeysAreStored(n, h);
    }
    assert Entries(r).Keys == want.Keys;
  }

  lemma {:induction false} InsertPruned<V>(n: Node<V>, g: seq<string>, v: V)
    requires forall k | k in n.children :: Pruned(n.children[k])
    ensures Pruned(Insert(n, g, v))
    decreases |g|
  {
    if g != [] {
      var c := Child(n, g[0]);
      InsertPruned(c, g[1..], v);
    }
  }

  /** Insertion of a non-empty ngram keeps the trie well formed. */
  lemma InsertWellFormed<V>(root: Node<V>, g: seq<string>, v: V)
    requires WellFormed(root) && g != []
    ensures WellFormed(Insert(root, g, v))
  {
    InsertPruned(Child(root, g[0]), g[1..], v);
  }

  // ---------------------------------------------------------------------------
  // Deletion

  /** A node that is left with no children and no payload is dropped from its parent. */
  function Prune<V>(n: Node<V>): (r: Option<Node<V>>)
    ensures r.Some? ==> r.value == n
    ensures r.None? ==> Keys(n) == {}
  {
    if |n.children| == 0 && n.val.None? then None else Some(n)
  }

  /**
   * The trie after clearing the terminal slot at the end of `g`: every node of
   * the path that is left empty is removed from its parent, walking back up
   * until a node that still has a payload or another child. `n` itself is kept.
   */
  function Unmark<V>(n: Node<V>, g: seq<string>): (r: Node<V>)
    requires Subtrie(n, g).Some?
    ensures Lookup(r, g).None?
    ensures r.children.Keys <= n.children.Keys
    decreases |g|
  {
    if g == [] then n.(val := None)
    else
      match Prune(Unmark(n.children[g[0]], g[1..]))
      case None => n.(children := n.children - {g[0]})
      case Some(c) => n.(children := n.children[g[0] := c])
  }

  /** Unmark one level down: the child under `w` is unmarked along `rest`, then dropped if Prune drops it. */
  lemma UnmarkStep<V>(n: Node<V>, w: string, rest: seq<string>)
    requires w in n.children && Subtrie(n.children[w], rest).Some?
    ensures Subtrie(n, [w] + rest).Some?
    ensures Unmark(n, [w] + rest) ==
      match Prune(Unmark(n.children[w], rest))
      case None => n.(children := n.children - {w})
      case Some(c) => n.(children := n.children[w := c])
  {
    assert ([w] + rest)[0] == w && ([w] + rest)[1..] == rest;
  }

  /** A node that Prune drops stores nothing. */
  lemma PrunedAwayIsEmpty<V>(n: Node<V>, h: seq<string>)
    requires Prune(n).None?
    ensures Lookup(n, h).None?
  {
    assert n.children == map[];
  }

  /** Deleting removes `g` and changes no other lookup. */
  lemma {:induction false} UnmarkLookup<V>(n: Node<V>, g: seq<string>, h: seq<string>)
    requires Subtrie(n, g).Some?
    ensures Lookup(Unmark(n, g), h) == if h == g then None else Lookup(n, h)
    decreases |g|
  {
    var r := Unmark(n, g);
    if h != [] && g != [] && h[0] == g[0] {
      var c := n.children[g[0]];
      UnmarkLookup(c, g[1..], h[1..]);
      assert h == g <==> h[1..] == g[1..] by {
        assert h == [h[0]] + h[1..] && g == [g[0]] + g[1..];
      }
      assert Lookup(n, h) == Lookup(c, h[1..]);
      match Prune(Unmark(c, g[1..]))
      case None =>
        PrunedAwayIsEmpty(Unmark(c, g[1..]), h[1..]);
      case Some(c') =>
        assert Lookup(r, h) == Lookup(c', h[1..]);
    }
  }

  lemma UnmarkKeys<V>(n: Node<V>, g: seq<string>)
    requires Subtrie(n, g).Some?
    ensures Keys(Unmark(n, g)) == Keys(n) - {g}
  {
    var r := Unmark(n, g);
    forall h
      ensures h in Keys(r) <==> h in Keys(n) - {g}
    {
      UnmarkLookup(n, g, h);
      KeysAreStored(r, h);
      KeysAreStored(n, h);
    }
  }

  /** The abstract effect of delete_ngram: `g` is gone and every other ngram keeps its payload. */
  lemma UnmarkEntries<V>(n: Node<V>, g: seq<string>)
    requires Subtrie(n, g).Some?
    ensures Entries(Unmark(n, g)) == Entries(n) - {g}
  {
    var r := Unmark(n, g);
    UnmarkKeys(n, g);
    forall h | h in Entries(r)
      ensures h in Entries(n) && Entries(r)[h] == Entries(n)[h]
    {
      UnmarkLookup(n, g, h);
      KeysAreStored(r, h);
      KeysAreStored(n, h);
    }
    assert Entries(r).Keys == (Entries(n) - {g}).Keys;
  }

  lemma {:induction false} UnmarkPruned<V>(n: Node<V>, g: seq<string>)
    requires Subtrie(n, g).Some?
    requires forall k | k in n.children :: Pruned(n.children[k])
    ensures forall k | k in Unmark(n, g).children :: Pruned(Unmark(n, g).children[k])
    decreases |g|
  {
    if g != [] {
      UnmarkPruned(n.children[g[0]], g[1..]);
    }
  }

  /** Deleting a stored ngram keeps every leaf terminal and the root unmarked. */
  lemma UnmarkWellFormed<V>(root: Node<V>, g: seq<string>)
    requires WellFormed(root) && g != [] && Subtrie(root, g).Some?
    ensures WellFormed(Unmark(root, g))
  {
    UnmarkPruned(root, g);
  }

  // ---------------------------------------------------------------------------
  // What the invariant means

  lemma {:induction false} PrunedStoresSomething<V>(n: Node<V>)
    requires Pruned(n)
    ensures Keys(n) != {}
    decreases n
  {
    if n.val.Some? {
      KeysAreStored(n, []);
    } else {
      var k :| k in n.children;
      var c := n.children[k];
      PrunedStoresSomething(c);
      var s :| s in Keys(c);
      KeysAreStored(c, s);
      assert ([k] + s)[0] == k && ([k] + s)[1..] == s;
      KeysAreStored(n, [k] + s);
    }
  }

  lemma {:induction false} PrunedBelow<V>(n: Node<V>, p: seq<string>)
    requires forall k | k in n.children :: Pruned(n.children[k])
    requires p != [] && Subtrie(n, p).Some?
    ensures Pruned(Subtrie(n, p).value)
    decreases |p|
  {
    if |p| > 1 {
      PrunedBelow(n.children[p[0]], p[1..]);
    }
  }

  /**
   * In a well-formed trie a node exists exactly when it lies on the path of
   * some stored ngram: pruning leaves no dead branches behind.
   */
  lemma NodesLieOnStoredPaths<V>(root: Node<V>, p: seq<string>)
    requires WellFormed(root) && p != []
    ensures Subtrie(root, p).Some? <==> exists s :: p + s in Keys(root)
  {
    if Subtrie(root, p).Some? {
      var m := Subtrie(root, p).value;
      PrunedBelow(root, p);
      PrunedStoresSomething(m);
      var s :| s in Keys(m);
      KeysAreStored(m, s);
      SubtrieAppend(root, p, s);
      KeysAreStored(root, p + s);
    } else {
      forall s | p + s in Keys(root)
        ensures false
      {
        KeysAreStored(root, p + s);
        SubtrieAppend(root, p, s);
      }
    }
  }
}

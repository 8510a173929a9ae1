/**
 * Bookkeeping for get_all_ngrams: the walk keeps a stack of (path, node)
 * pairs, and the positions that still have to be visited are those of every
 * node on the stack, each written out in full by putting the entry's path in
 * front. Counting them as a multiset makes "visited exactly once" precise and
 * gives the walk its termination measure.
 */
module Enumeration {
  import opened Trie

  /** The positions `s`, each put under the path `p`. */
  ghost function Prefixed(p: seq<string>, s: set<seq<string>>): set<seq<string>>
  {
    set x | x in s :: p + x
  }

  /** Every position still to visit: for each stack entry, the positions of its node under its path. */
  ghost function Pending<V>(stack: seq<(seq<string>, Node<V>)>): multiset<seq<string>>
    decreases |stack|
  {
    if stack == [] then multiset{}
    else
      var top := stack[|stack| - 1];
      Pending(stack[..|stack| - 1]) + multiset(Prefixed(top.0, Paths(top.1)))
  }

  lemma PendingPush<V>(stack: seq<(seq<string>, Node<V>)>, e: (seq<string>, Node<V>))
    ensures Pending(stack + [e]) == Pending(stack) + multiset(Prefixed(e.0, Paths(e.1)))
  {
    assert (stack + [e])[..|stack|] == stack;
  }

  lemma DisjointUnion<T>(a: set<T>, b: set<T>)
    requires a !! b
    ensures multiset(a + b) == multiset(a) + multiset(b)
  {
    forall x
      ensures multiset(a + b)[x] == (multiset(a) + multiset(b))[x]
    {
      if x in a {
        assert x !in b && x in a + b;
      } else if x in b {
        assert x in a + b;
      } else {
        assert x !in a + b;
      }
    }
  }

  lemma PrefixedNothing(s: set<seq<string>>)
    ensures Prefixed([], s) == s
  {
    forall x | x in s
      ensures x in Prefixed([], s)
    {
      assert [] + x == x;
    }
    forall x | x in Prefixed([], s)
      ensures x in s
    {
      var y :| y in s && x == [] + y;
      assert [] + y == y;
    }
  }

  /** A node's own position comes first; the rest lie below its children. */
  lemma PathsSplit<V>(p: seq<string>, n: Node<V>)
    ensures multiset(Prefixed(p, Paths(n))) == multiset{p} + multiset(Prefixed(p, Below(n, n.children.Keys)))
  {
    var below := Below(n, n.children.Keys);
    assert p + [] == p;
    assert Prefixed(p, Paths(n)) == {p} + Prefixed(p, below);
    forall x | x in below
      ensures p + x != p
    {
      assert |p + x| > |p|;
    }
    DisjointUnion({p}, Prefixed(p, below));
  }

  /** The walk starts with the root visited and its children's positions pending. */
  lemma WalkStart<V>(n: Node<V>)
    ensures multiset{} + multiset(Prefixed([], Below(n, n.children.Keys))) + multiset({[]}) == multiset(Paths(n))
  {
    PathsSplit([], n);
    PrefixedNothing(Paths(n));
    PrefixedNothing(Below(n, n.children.Keys));
  }

  /** Taking one child `k` out of `ks` takes out exactly the positions under that child. */
  lemma BelowStep<V>(p: seq<string>, n: Node<V>, ks: set<string>, k: string)
    requires k in ks && k in n.children
    ensures multiset(Prefixed(p, Below(n, ks))) ==
      multiset(Prefixed(p, Below(n, ks - {k}))) + multiset(Prefixed(p + [k], Paths(n.children[k])))
  {
    var a := Prefixed(p, Below(n, ks - {k}));
    var b := Prefixed(p + [k], Paths(n.children[k]));
    forall x | x in Prefixed(p, Below(n, ks))
      ensures x in a + b
    {
      var y :| y in Below(n, ks) && x == p + y;
      var k', s :| k' in ks && k' in n.children && s in Paths(n.children[k']) && y == [k'] + s;
      if k' == k {
        assert x == (p + [k]) + s;
      } else {
        assert y in Below(n, ks - {k});
      }
    }
    forall x | x in a + b
      ensures x in Prefixed(p, Below(n, ks))
    {
      if x in b {
        var s :| s in Paths(n.children[k]) && x == (p + [k]) + s;
        assert [k] + s in Below(n, ks);
        assert x == p + ([k] + s);
      } else {
        var y :| y in Below(n, ks - {k}) && x == p + y;
        assert y in Below(n, ks);
      }
    }
    forall x | x in a
      ensures x !in b
    {
      var y :| y in Below(n, ks - {k}) && x == p + y;
      var k', s :| k' in ks - {k} && k' in n.children && s in Paths(n.children[k']) && y == [k'] + s;
      assert x[|p|] == k' != k;
    }
    assert Prefixed(p, Below(n, ks)) == a + b;
    DisjointUnion(a, b);
  }

  /**
   * Popping the entry (key, n) visits `key`, which was not visited before, and
   * leaves the positions below n's children pending: fewer than before.
   */
  lemma VisitNext<V>(all: set<seq<string>>, rest: seq<(seq<string>, Node<V>)>, key: seq<string>, n: Node<V>, visited: set<seq<string>>)
    requires Pending(rest + [(key, n)]) + multiset(visited) == multiset(all)
    ensures key !in visited
    ensures Pending(rest) + multiset(Prefixed(key, Below(n, n.children.Keys))) + multiset(visited + {key}) == multiset(all)
    ensures |Pending(rest) + multiset(Prefixed(key, Below(n, n.children.Keys)))| < |Pending(rest + [(key, n)])|
  {
    PendingPush(rest, (key, n));
    PathsSplit(key, n);
    assert key !in visited by {
      assert multiset(all)[key] <= 1;
      assert Pending(rest + [(key, n)])[key] >= 1;
    }
    DisjointUnion(visited, {key});
  }

  /** Visiting `key` adds it to the stored ngrams seen so far exactly when it is stored. */
  lemma VisitKeys<T>(keys: set<T>, visited: set<T>, key: T)
    requires key !in visited
    ensures multiset(keys * (visited + {key})) == multiset(keys * visited) + (if key in keys then multiset{key} else multiset{})
  {
    if key in keys {
      assert keys * (visited + {key}) == (keys * visited) + {key};
      DisjointUnion(keys * visited, {key});
    } else {
      assert keys * (visited + {key}) == keys * visited;
    }
  }

  /** Once every position has been visited, the visited set is all of them. */
  lemma VisitedAll(visited: set<seq<string>>, all: set<seq<string>>)
    requires multiset(visited) == multiset(all)
    ensures visited == all
  {
    forall x
      ensures x in visited <==> x in all
    {
      assert multiset(visited)[x] == multiset(all)[x];
    }
  }

  lemma BelowNothing<V>(n: Node<V>)
    ensures Below(n, {}) == {}
  {
  }
}

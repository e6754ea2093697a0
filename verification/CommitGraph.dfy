/**
 The commit store that local repositories and the remote share.

 A commit is named by its position in an append-only sequence and the entry holds
 the names of its parents, which are older. Content addressing makes one global
 store a fair picture: an object that two repositories hold has the same parents
 in both.
 */
module CommitGraph {
  type Commit = nat
  type Graph = seq<set<Commit>>

  predicate WellFormed(g: Graph) {
    forall c, p | 0 <= c < |g| && p in g[c] :: p < c
  }

  /** `git merge-base --is-ancestor a c`; every commit is its own ancestor. */
  predicate Ancestor(g: Graph, a: Commit, c: Commit)
    decreases c
  {
    c < |g| && (a == c || exists p | p in g[c] :: p < c && Ancestor(g, a, p))
  }

  lemma {:induction false} AncestorTransitive(g: Graph, a: Commit, b: Commit, c: Commit)
    requires Ancestor(g, a, b) && Ancestor(g, b, c)
    ensures Ancestor(g, a, c)
    decreases c
  {
    if b != c {
      var p :| p in g[c] && p < c && Ancestor(g, b, p);
      AncestorTransitive(g, a, b, p);
    }
  }

  /** Adding commits changes no ancestry between the commits that were there. */
  lemma {:induction false} AncestorStable(g: Graph, h: Graph, a: Commit, c: Commit)
    requires g <= h && c < |g|
    ensures Ancestor(g, a, c) <==> Ancestor(h, a, c)
    decreases c
  {
    assert g[c] == h[c];
    forall p | p in g[c] && p < c
      ensures Ancestor(g, a, p) <==> Ancestor(h, a, p)
    {
      AncestorStable(g, h, a, p);
    }
  }

  lemma {:induction false} AncestorOlder(g: Graph, a: Commit, c: Commit)
    requires Ancestor(g, a, c)
    ensures a <= c < |g|
    decreases c
  {
    if a != c {
      var p :| p in g[c] && p < c && Ancestor(g, a, p);
      AncestorOlder(g, a, p);
    }
  }
}

/**
 * The value semantics of a version vector: the region -> count map that an item stores
 * in its version attribute. A region missing from the map has count 0.
 */
module Versions {
  import opened Types

  type Vector = map<Region, nat>

  /** The number of updates `r` has made according to `v`. */
  function Count(v: Vector, r: Region): nat
  {
    if r in v then v[r] else 0
  }

  /** The vector of a first write by region `r`. */
  function Single(r: Region): (v: Vector)
    ensures Count(v, r) == 1
    ensures forall q :: q != r ==> Count(v, q) == 0
  {
    map[r := 1]
  }

  /** `v` with one more update by `r`. */
  function Bump(v: Vector, r: Region): (w: Vector)
    ensures Count(w, r) == Count(v, r) + 1
    ensures forall q :: q != r ==> Count(w, q) == Count(v, q)
    ensures w.Keys == v.Keys + {r}
  {
    v[r := Count(v, r) + 1]
  }

  /** `a` has seen every update `b` has seen (only the regions listed in `b` are compared). */
  predicate Dominates(a: Vector, b: Vector)
  {
    forall r :: r in b ==> Count(b, r) <= Count(a, r)
  }

  /** Since a missing region counts 0, domination is pointwise over all regions. */
  lemma DominatesPointwise(a: Vector, b: Vector)
    ensures Dominates(a, b) <==> forall r :: Count(b, r) <= Count(a, r)
  {
  }

  lemma DominatesReflexive(a: Vector)
    ensures Dominates(a, a)
  {
  }

  lemma DominatesTransitive(a: Vector, b: Vector, c: Vector)
    requires Dominates(a, b) && Dominates(b, c)
    ensures Dominates(a, c)
  {
    forall r | r in c
      ensures Count(c, r) <= Count(a, r)
    {
      if r !in b {
        assert Count(c, r) <= Count(b, r) == 0;
      }
    }
  }

  /** Keys only in the dominating vector are ignored, so everything dominates the empty vector. */
  lemma EmptyIsDominated(a: Vector)
    ensures Dominates(a, map[])
  {
  }

  /** A bumped vector strictly supersedes the vector it was bumped from. */
  lemma BumpSupersedes(v: Vector, r: Region)
    ensures Dominates(Bump(v, r), v)
    ensures !Dominates(v, Bump(v, r))
  {
    var w := Bump(v, r);
    assert r in w && Count(w, r) > Count(v, r);
  }

  /** Vectors with the same counts are related to every vector in the same way. */
  lemma SameCountsSameDominance(v: Vector, w: Vector, u: Vector)
    requires forall r :: Count(v, r) == Count(w, r)
    ensures Dominates(v, u) <==> Dominates(w, u)
    ensures Dominates(u, v) <==> Dominates(u, w)
  {
    DominatesPointwise(v, u);
    DominatesPointwise(w, u);
    DominatesPointwise(u, v);
    DominatesPointwise(u, w);
  }
}

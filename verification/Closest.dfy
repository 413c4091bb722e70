/** The k closest members of a set of identifiers under a distance, and how they behave when the set
    grows in portions. */
module Closest {
  import opened Nodes
  import opened Contacts

  /** No two identifiers of the set are equally far away. */
  ghost predicate Distinct(s: set<Id>, d: Id -> nat) {
    forall a, b | a in s && b in s && d(a) == d(b) :: a == b
  }

  /** `t` has min(k, |s|) members of `s`, and every other member of `s` is strictly farther away. */
  ghost predicate IsClosest(t: set<Id>, s: set<Id>, k: nat, d: Id -> nat) {
    && t <= s
    && |t| == (if |s| < k then |s| else k)
    && forall a, b | a in t && b in s - t :: d(a) < d(b)
  }

  /** When `a` is at least as large as `b` and something is only in `b`, something is only in `a`. */
  lemma Exchange<T>(a: set<T>, b: set<T>, y: T) returns (x: T)
    requires |a| >= |b| && y in b - a
    ensures x in a - b
  {
    if a <= b {
      SubsetSize(a, b);
    }
    assert !(a <= b);
    x :| x in a && x !in b;
  }

  lemma Nearer(a: Id, b: Id, t: set<Id>, s: set<Id>, k: nat, d: Id -> nat)
    requires IsClosest(t, s, k, d) && a in t && b in s && b !in t
    ensures d(a) < d(b)
  {
    assert b in s - t;
  }

  /** The k closest are determined. */
  lemma ClosestUnique(t: set<Id>, u: set<Id>, s: set<Id>, k: nat, d: Id -> nat)
    requires IsClosest(t, s, k, d) && IsClosest(u, s, k, d)
    ensures t == u
  {
    forall y | y in u ensures y in t {
      if y !in t {
        var x := Exchange(t, u, y);
        Nearer(x, y, t, s, k, d);
        Nearer(y, x, u, s, k, d);
      }
    }
    SubsetSize(u, t);
  }

  lemma ClosestSizes(t: set<Id>, s: set<Id>, more: set<Id>, k: nat, d: Id -> nat)
    requires IsClosest(t, s, k, d)
    ensures (if |t + more| < k then |t + more| else k) == (if |s + more| < k then |s + more| else k)
  {
    if t == s {
    } else {
      SubsetSize(t, s);
      SubsetSize(t, t + more);
      SubsetSize(t + more, s + more);
    }
  }

  /** Keeping only the k closest of what came so far loses nothing for what comes later. */
  lemma ClosestGrows(t: set<Id>, s: set<Id>, more: set<Id>, u: set<Id>, k: nat, d: Id -> nat)
    requires IsClosest(t, s, k, d) && IsClosest(u, t + more, k, d)
    ensures IsClosest(u, s + more, k, d)
  {
    ClosestSizes(t, s, more, k, d);
    forall a, b | a in u && b in (s + more) - u ensures d(a) < d(b) {
      if b !in t + more && a !in t {
        // t was cut at k, so it is as large as u and has a member that u gave up for a nearer one
        SubsetSize(t, s);
        SubsetSize(t, t + more);
        var c := Exchange(t, u, a);
        assert d(a) < d(c) && d(c) < d(b);
      }
    }
  }
}

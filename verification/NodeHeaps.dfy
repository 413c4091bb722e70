/** The bounded heap of the nearest known nodes that a lookup keeps. Nodes are ordered by a key, which
    is their distance from the pivot of the lookup. */
module NodeHeaps {
  import opened Nodes
  import opened Contacts
  import opened Sorting
  import opened Closest

  /** The nodes of a list appended to a heap, without those already in it. */
  function Merged(h: seq<Node>, nodes: seq<Node>): seq<Node>
    decreases |nodes|
  {
    if nodes == [] then h
    else Merged(if nodes[0].id in Ids(h) then h else h + [nodes[0]], nodes[1..])
  }

  /** A heap cut down to its `max` nearest nodes. */
  function Cut(h: seq<Node>, key: Node -> nat, max: nat): seq<Node> {
    if |h| <= max then h else SortByKey(h, key)[..max]
  }

  function Pushed(h: seq<Node>, nodes: seq<Node>, key: Node -> nat, max: nat): seq<Node> {
    Cut(Merged(h, nodes), key, max)
  }

  /** The nodes of a heap, nearest first, at most `max` of them. */
  function Sorted(h: seq<Node>, key: Node -> nat, max: nat): (r: seq<Node>) {
    var s := SortByKey(h, key);
    if |s| <= max then s else s[..max]
  }

  /** The nodes of a list whose identifiers are not in a set, in order. */
  function Outside(s: seq<Node>, ids: set<Id>): (r: seq<Node>)
    ensures |r| <= |s|
  {
    if s == [] then []
    else if s[0].id in ids then Outside(s[1..], ids)
    else [s[0]] + Outside(s[1..], ids)
  }

  /** `c` has as many nodes of `h` as fit, and no node left out is nearer than one kept. */
  ghost predicate NearestKept(h: seq<Node>, c: seq<Node>, key: Node -> nat, max: nat) {
    && |c| == (if |h| < max then |h| else max)
    && multiset(c) <= multiset(h)
    && forall n, m | n in c && m in multiset(h) - multiset(c) :: key(n) <= key(m)
  }

  lemma Parts(s: seq<Node>, max: nat)
    requires max <= |s|
    ensures multiset(s) == multiset(s[..max]) + multiset(s[max..])
  {
    assert s == s[..max] + s[max..];
  }

  lemma FrontNearer(s: seq<Node>, key: Node -> nat, max: nat, n: Node, m: Node)
    requires Ascending(s, key) && max <= |s| && n in s[..max] && m in s[max..]
    ensures key(n) <= key(m)
  {
    var i :| 0 <= i < max && s[i] == n;
    var j :| max <= j < |s| && s[j] == m;
  }

  lemma CutKeepsNearest(h: seq<Node>, key: Node -> nat, max: nat)
    ensures NearestKept(h, Cut(h, key, max), key, max)
  {
    if |h| > max {
      var s := SortByKey(h, key);
      Parts(s, max);
      forall n, m | n in s[..max] && m in multiset(s) - multiset(s[..max]) ensures key(n) <= key(m) {
        assert m in multiset(s[max..]);
        FrontNearer(s, key, max, n, m);
      }
    }
  }

  /** What `r` has of `s`: each node as often, except those with an identifier in `ids`. */
  ghost predicate IsOutside(r: seq<Node>, s: seq<Node>, ids: set<Id>) {
    forall n :: multiset(r)[n] == if n.id in ids then 0 else multiset(s)[n]
  }

  lemma {:induction false} OutsideIs(s: seq<Node>, ids: set<Id>)
    ensures IsOutside(Outside(s, ids), s, ids)
  {
    if s != [] {
      OutsideIs(s[1..], ids);
      assert s == [s[0]] + s[1..];
    }
  }

  lemma {:induction false} OutsideAscends(s: seq<Node>, ids: set<Id>, key: Node -> nat)
    requires Ascending(s, key)
    ensures Ascending(Outside(s, ids), key)
  {
    if s != [] {
      OutsideAscends(s[1..], ids, key);
      OutsideIs(s[1..], ids);
      var r := Outside(s[1..], ids);
      forall n | n in r ensures key(s[0]) <= key(n) {
        assert multiset(s[1..])[n] > 0;
        var i :| 0 <= i < |s[1..]| && s[1..][i] == n;
        assert s[i + 1] == n;
      }
    }
  }

  /** The first node with the identifier. */
  function Lookup(s: seq<Node>, id: Id): (n: Option<Node>)
    ensures n.Some? ==> n.value in s && n.value.id == id
    ensures n.None? ==> id !in Ids(s)
  {
    if s == [] then None else if s[0].id == id then Some(s[0]) else Lookup(s[1..], id)
  }

  lemma {:induction false} LookupAt(s: seq<Node>, id: Id, i: nat)
    requires i < |s| && s[i].id == id && forall j | 0 <= j < i :: s[j].id != id
    ensures Lookup(s, id) == Some(s[i])
  {
    if i > 0 {
      LookupAt(s[1..], id, i - 1);
    }
  }

  // ---------- What the operations mean for the identifiers

  /** The key of a node is a distance `d` of its identifier. */
  ghost predicate Keyed(s: seq<Node>, key: Node -> nat, d: Id -> nat) {
    forall n | n in s :: key(n) == d(n.id)
  }

  lemma MergedOne(h: seq<Node>, n: Node)
    requires NoDup(h)
    ensures var h1 := if n.id in Ids(h) then h else h + [n]; NoDup(h1) && Ids(h1) == Ids(h) + {n.id}
  {
    NoDupConcat(h, [n]);
  }

  lemma {:induction false} MergedFacts(h: seq<Node>, nodes: seq<Node>)
    requires NoDup(h)
    ensures NoDup(Merged(h, nodes)) && Ids(Merged(h, nodes)) == Ids(h) + Ids(nodes)
    decreases |nodes|
  {
    if nodes != [] {
      MergedOne(h, nodes[0]);
      MergedFacts(if nodes[0].id in Ids(h) then h else h + [nodes[0]], nodes[1..]);
      IdsFirst(nodes);
    }
  }

  lemma IdsFirst(s: seq<Node>)
    requires s != []
    ensures Ids(s) == {s[0].id} + Ids(s[1..])
  {
    assert s == [s[0]] + s[1..];
    NoDupConcat([s[0]], s[1..]);
  }

  lemma {:induction false} MergedKeyed(h: seq<Node>, nodes: seq<Node>, key: Node -> nat, d: Id -> nat)
    requires Keyed(h, key, d) && Keyed(nodes, key, d)
    ensures Keyed(Merged(h, nodes), key, d)
    decreases |nodes|
  {
    if nodes != [] {
      MergedKeyed(if nodes[0].id in Ids(h) then h else h + [nodes[0]], nodes[1..], key, d);
    }
  }

  /** The first `max` of a sorted list are the closest, when no two are equally far away. */
  lemma PrefixClosest(s: seq<Node>, key: Node -> nat, max: nat, d: Id -> nat)
    requires NoDup(s) && Ascending(s, key) && Keyed(s, key, d) && Distinct(Ids(s), d) && max <= |s|
    ensures NoDup(s[..max]) && IsClosest(Ids(s[..max]), Ids(s), max, d)
  {
    var c, rest := s[..max], s[max..];
    assert s == c + rest;
    NoDupConcat(c, rest);
    CountIds(c);
    CountIds(s);
    forall a, b | a in Ids(c) && b in Ids(s) - Ids(c) ensures d(a) < d(b) {
      PrefixNearer(s, key, max, d, a, b);
    }
  }

  lemma PrefixNearer(s: seq<Node>, key: Node -> nat, max: nat, d: Id -> nat, a: Id, b: Id)
    requires Ascending(s, key) && Keyed(s, key, d) && Distinct(Ids(s), d) && max <= |s|
    requires a in Ids(s[..max]) && b in Ids(s[max..]) && a != b
    ensures d(a) < d(b)
  {
    var i :| 0 <= i < max && s[i].id == a;
    var j :| max <= j < |s| && s[j].id == b;
    assert key(s[i]) <= key(s[j]);
  }

  /** Cutting keeps exactly the `max` closest identifiers. */
  lemma CutFacts(h: seq<Node>, key: Node -> nat, max: nat, d: Id -> nat)
    requires NoDup(h) && Keyed(h, key, d) && Distinct(Ids(h), d)
    ensures var c := Cut(h, key, max); NoDup(c) && Keyed(c, key, d) && IsClosest(Ids(c), Ids(h), max, d)
  {
    CountIds(h);
    if |h| > max {
      var s := SortByKey(h, key);
      SameMembers(h, s);
      PermutationNoDup(h, s);
      PrefixClosest(s, key, max, d);
    }
  }

  /** What a heap holds when `seen` are the identifiers ever pushed: the `max` closest of them. */
  ghost predicate HoldsClosest(h: seq<Node>, seen: set<Id>, key: Node -> nat, max: nat, d: Id -> nat) {
    NoDup(h) && Keyed(h, key, d) && IsClosest(Ids(h), seen, max, d)
  }

  /** Pushing keeps a heap at the `max` closest of everything ever pushed. */
  lemma PushKeepsClosest(h: seq<Node>, nodes: seq<Node>, seen: set<Id>, key: Node -> nat, max: nat, d: Id -> nat)
    requires HoldsClosest(h, seen, key, max, d) && Keyed(nodes, key, d)
    requires Distinct(seen + Ids(nodes), d)
    ensures HoldsClosest(Pushed(h, nodes, key, max), seen + Ids(nodes), key, max, d)
  {
    MergedFacts(h, nodes);
    MergedKeyed(h, nodes, key, d);
    CutFacts(Merged(h, nodes), key, max, d);
    ClosestGrows(Ids(h), seen, Ids(nodes), Ids(Pushed(h, nodes, key, max)), max, d);
  }

  // ---------- Any sequence of pushes

  function PushSeq(h: seq<Node>, batches: seq<seq<Node>>, key: Node -> nat, max: nat): seq<Node>
    decreases |batches|
  {
    if batches == [] then h else PushSeq(Pushed(h, batches[0], key, max), batches[1..], key, max)
  }

  function AllIn(batches: seq<seq<Node>>): seq<Node> {
    if batches == [] then [] else batches[0] + AllIn(batches[1..])
  }

  /** The heap is a streaming top-k: after any sequence of pushes it holds the `max` closest of all
      identifiers ever pushed. */
  lemma {:induction false} StreamingTopK(h: seq<Node>, batches: seq<seq<Node>>, seen: set<Id>,
                                        key: Node -> nat, max: nat, d: Id -> nat)
    requires HoldsClosest(h, seen, key, max, d) && Keyed(AllIn(batches), key, d)
    requires Distinct(seen + Ids(AllIn(batches)), d)
    ensures HoldsClosest(PushSeq(h, batches, key, max), seen + Ids(AllIn(batches)), key, max, d)
    decreases |batches|
  {
    if batches != [] {
      var first, rest := batches[0], AllIn(batches[1..]);
      NoDupConcat(first, rest);
      assert seen + Ids(AllIn(batches)) == seen + Ids(first) + Ids(rest);
      PushKeepsClosest(h, first, seen, key, max, d);
      StreamingTopK(Pushed(h, first, key, max), batches[1..], seen + Ids(first), key, max, d);
    }
  }

  /** The order in which batches are pushed does not matter for the identifiers that remain. */
  lemma PushOrderIrrelevant(h: seq<Node>, a: seq<seq<Node>>, b: seq<seq<Node>>, seen: set<Id>,
                            key: Node -> nat, max: nat, d: Id -> nat)
    requires HoldsClosest(h, seen, key, max, d)
    requires Keyed(AllIn(a), key, d) && Keyed(AllIn(b), key, d)
    requires Ids(AllIn(a)) == Ids(AllIn(b)) && Distinct(seen + Ids(AllIn(a)), d)
    ensures Ids(PushSeq(h, a, key, max)) == Ids(PushSeq(h, b, key, max))
  {
    StreamingTopK(h, a, seen, key, max, d);
    StreamingTopK(h, b, seen, key, max, d);
    ClosestUnique(Ids(PushSeq(h, a, key, max)), Ids(PushSeq(h, b, key, max)), seen + Ids(AllIn(a)), max, d);
  }

  // ---------- The heap as the program keeps it

  /** Distance from a pivot. */
  function DistanceFrom(pivot: Node): Node -> nat {
    (n: Node) => n.DistanceTo(pivot)
  }

  class NodeHeap {
    const pivot: Node
    const maxsize: nat
    var heap: seq<Node>
    var contacted: set<Id>

    function Key(): Node -> nat {
      DistanceFrom(pivot)
    }

    constructor (pivot: Node, maxsize: nat)
      ensures this.pivot == pivot && this.maxsize == maxsize && heap == [] && contacted == {}
    {
      this.pivot, this.maxsize := pivot, maxsize;
      heap, contacted := [], {};
    }

    method Contains(id: Id) returns (b: bool)
      ensures b <==> id in Ids(heap)
    {
      for i := 0 to |heap|
        invariant forall j | 0 <= j < i :: heap[j].id != id
      {
        if heap[i].id == id {
          assert heap[i] in heap;
          return true;
        }
      }
      return false;
    }

    /** Insert a batch without duplicates, then keep the nearest. */
    method Push(nodes: seq<Node>)
      modifies this`heap
      ensures heap == Pushed(old(heap), nodes, Key(), maxsize)
    {
      for i := 0 to |nodes|
        invariant Merged(heap, nodes[i..]) == Merged(old(heap), nodes)
      {
        var known := Contains(nodes[i].id);
        assert nodes[i..][1..] == nodes[i + 1..];
        if !known {
          heap := heap + [nodes[i]];
        }
      }
      EnforceMaxsize();
    }

    method EnforceMaxsize()
      modifies this`heap
      ensures NearestKept(old(heap), heap, Key(), maxsize)
      ensures heap == Cut(old(heap), Key(), maxsize)
    {
      CutKeepsNearest(heap, Key(), maxsize);
      if |heap| <= maxsize {
        return;
      }
      heap := SortByKey(heap, Key())[..maxsize];
    }

    /** Remove nodes by identifier. */
    method Remove(peers: seq<Id>)
      modifies this`heap
      ensures IsOutside(heap, old(heap), set id | id in peers)
      ensures heap == if peers == [] then old(heap) else Outside(old(heap), set id | id in peers)
    {
      OutsideIs(heap, set id | id in peers);
      if peers != [] {
        heap := Outside(heap, set id | id in peers);
      }
    }

    /** Take out a nearest node. */
    method PopLeft() returns (n: Option<Node>)
      modifies this`heap
      ensures old(heap) == [] ==> n == None && heap == []
      ensures old(heap) != [] ==>
                && n.Some? && n.value in old(heap)
                && (forall m | m in old(heap) :: n.value.DistanceTo(pivot) <= m.DistanceTo(pivot))
                && multiset(heap) == multiset(old(heap)) - multiset{n.value}
    {
      if heap == [] {
        return None;
      }
      var s := SortByKey(heap, Key());
      SameMembers(heap, s);
      assert s == [s[0]] + s[1..];
      assert forall i | 0 <= i < |s| :: Key()(s[0]) <= Key()(s[i]);
      heap := s[1..];
      return Some(s[0]);
    }

    method GetNode(id: Id) returns (n: Option<Node>)
      ensures n == Lookup(heap, id)
    {
      for i := 0 to |heap|
        invariant forall j | 0 <= j < i :: heap[j].id != id
      {
        if heap[i].id == id {
          LookupAt(heap, id, i);
          return Some(heap[i]);
        }
      }
      return None;
    }

    method MarkContacted(id: Id)
      modifies this`contacted
      ensures contacted == old(contacted) + {id}
    {
      contacted := contacted + {id};
    }

    method GetUncontacted() returns (r: seq<Node>)
      ensures Ascending(r, Key())
      ensures |heap| <= maxsize ==> IsOutside(r, heap, contacted)
      ensures r == Outside(Sorted(heap, Key(), maxsize), contacted)
    {
      r := Outside(Sorted(heap, Key(), maxsize), contacted);
      OutsideIs(Sorted(heap, Key(), maxsize), contacted);
      OutsideAscends(Sorted(heap, Key(), maxsize), contacted, Key());
    }
  }
}

/** The traversal of the table around a target and the neighbours it collects. */
module Neighbors {
  import opened Bits
  import opened Nodes
  import opened Contacts
  import opened Buckets
  import opened Insertion
  import opened Table
  import opened Sorting

  function Reverse<T>(s: seq<T>): seq<T> {
    if s == [] then [] else [s[|s| - 1]] + Reverse(s[..|s| - 1])
  }

  lemma {:induction false} ReverseSame<T>(s: seq<T>)
    ensures multiset(Reverse(s)) == multiset(s)
  {
    if s != [] {
      ReverseSame(s[..|s| - 1]);
      assert s == s[..|s| - 1] + [s[|s| - 1]];
    }
  }

  /** What a traverser still has to yield. It drains the current list from its end, then takes a
      bucket from the left and from the right in turn, and from the left when the right is empty. */
  function Order(cur: seq<Node>, left: seq<Bucket>, right: seq<Bucket>, takeLeft: bool): seq<Node>
    decreases |left| + |right|, |cur|
  {
    if cur != [] then [cur[|cur| - 1]] + Order(cur[..|cur| - 1], left, right, takeLeft)
    else if takeLeft && left != [] then Order(left[|left| - 1].nodes, left[..|left| - 1], right, false)
    else if right != [] then Order(right[|right| - 1].nodes, left, right[..|right| - 1], true)
    else if left != [] then Order(left[|left| - 1].nodes, left[..|left| - 1], right, takeLeft)
    else []
  }

  function Rest(s: seq<Node>): seq<Node> {
    if s == [] then [] else s[1..]
  }

  class Traverser {
    var current: seq<Node>
    var left: seq<Bucket>
    var right: seq<Bucket>
    var takeLeft: bool

    ghost function Remaining(): seq<Node>
      reads this
    {
      Order(current, left, right, takeLeft)
    }

    constructor (bs: seq<Bucket>, target: Node)
      requires bs != []
      ensures var i := IndexFor(bs, target.longId);
        Remaining() == Order(bs[i].nodes, Reverse(bs[..i]), Reverse(bs[i + 1..]), true)
    {
      var i := IndexFor(bs, target.longId);
      current := bs[i].nodes;
      left := Reverse(bs[..i]);
      right := Reverse(bs[i + 1..]);
      takeLeft := true;
    }

    method Next() returns (n: Option<Node>)
      modifies this
      ensures n == Head(old(Remaining())) && Remaining() == Rest(old(Remaining()))
      decreases |left| + |right|, |current|
    {
      if current != [] {
        n := Some(current[|current| - 1]);
        current := current[..|current| - 1];
        return;
      }
      if takeLeft && left != [] {
        current := left[|left| - 1].nodes;
        left := left[..|left| - 1];
        takeLeft := false;
        n := Next();
      } else if right != [] {
        current := right[|right| - 1].nodes;
        right := right[..|right| - 1];
        takeLeft := true;
        n := Next();
      } else if left != [] {
        current := left[|left| - 1].nodes;
        left := left[..|left| - 1];
        n := Next();
      } else {
        n := None;
      }
    }
  }

  // ---------- The traversal yields every primary exactly once, the target's bucket first

  ghost function Bag(bs: seq<Bucket>): multiset<Node> {
    if bs == [] then multiset{} else multiset(bs[0].nodes) + Bag(bs[1..])
  }

  lemma {:induction false} BagConcat(a: seq<Bucket>, b: seq<Bucket>)
    ensures Bag(a + b) == Bag(a) + Bag(b)
  {
    if a == [] {
      assert a + b == b;
    } else {
      assert (a + b)[1..] == a[1..] + b;
      BagConcat(a[1..], b);
    }
  }

  lemma BagLast(bs: seq<Bucket>)
    requires bs != []
    ensures Bag(bs) == multiset(bs[|bs| - 1].nodes) + Bag(bs[..|bs| - 1])
  {
    var front, last := bs[..|bs| - 1], bs[|bs| - 1];
    assert bs == front + ([last] + []);
    BagThree(front, last, []);
  }

  lemma {:induction false} BagReverse(bs: seq<Bucket>)
    ensures Bag(Reverse(bs)) == Bag(bs)
  {
    if bs != [] {
      var last := |bs| - 1;
      BagLast(bs);
      BagReverse(bs[..last]);
      assert Reverse(bs)[1..] == Reverse(bs[..last]);
    }
  }

  lemma {:induction false} OrderStarts(cur: seq<Node>, left: seq<Bucket>, right: seq<Bucket>, takeLeft: bool)
    ensures Order(cur, left, right, takeLeft) == Reverse(cur) + Order([], left, right, takeLeft)
    decreases |cur|
  {
    if cur != [] {
      var last := |cur| - 1;
      OrderStarts(cur[..last], left, right, takeLeft);
      Associative([cur[last]], Reverse(cur[..last]), Order([], left, right, takeLeft));
    }
  }

  lemma Associative<T>(a: seq<T>, b: seq<T>, c: seq<T>)
    ensures a + (b + c) == a + b + c
  {
  }

  lemma {:induction false} OrderBag(cur: seq<Node>, left: seq<Bucket>, right: seq<Bucket>, takeLeft: bool)
    ensures multiset(Order(cur, left, right, takeLeft)) == multiset(cur) + Bag(left) + Bag(right)
    decreases |left| + |right|
  {
    OrderStarts(cur, left, right, takeLeft);
    if left != [] || right != [] {
      var b, l, r, next := OrderNext(left, right, takeLeft);
      OrderBag(b.nodes, l, r, next);
    }
    Joined(cur, Order([], left, right, takeLeft), Bag(left), Bag(right));
  }

  lemma Joined(cur: seq<Node>, rest: seq<Node>, l: multiset<Node>, r: multiset<Node>)
    requires multiset(rest) == l + r
    ensures multiset(Reverse(cur) + rest) == multiset(cur) + l + r
  {
    ReverseSame(cur);
  }

  /** The next bucket of a traversal, and what is left then. */
  lemma OrderNext(left: seq<Bucket>, right: seq<Bucket>, takeLeft: bool)
    returns (b: Bucket, l: seq<Bucket>, r: seq<Bucket>, next: bool)
    requires left != [] || right != []
    ensures Order([], left, right, takeLeft) == Order(b.nodes, l, r, next) && |l| + |r| < |left| + |right|
    ensures multiset(b.nodes) + Bag(l) + Bag(r) == Bag(left) + Bag(right)
  {
    if left != [] && (takeLeft || right == []) {
      b, l, r, next := left[|left| - 1], left[..|left| - 1], right, false;
      BagLast(left);
    } else {
      b, l, r, next := right[|right| - 1], left, right[..|right| - 1], true;
      BagLast(right);
      Regrouped(multiset(b.nodes), Bag(l), Bag(r));
    }
  }

  lemma Regrouped(a: multiset<Node>, b: multiset<Node>, c: multiset<Node>)
    ensures a + b + c == b + (a + c)
  {
  }

  /** The full traversal of a table around a target. */
  function Around(bs: seq<Bucket>, target: Node): seq<Node>
    requires bs != []
  {
    var i := IndexFor(bs, target.longId);
    Order(bs[i].nodes, Reverse(bs[..i]), Reverse(bs[i + 1..]), true)
  }

  /** The traversal yields every primary contact of every bucket, as often as the table has it. */
  lemma AroundYieldsAll(bs: seq<Bucket>, target: Node)
    requires bs != []
    ensures multiset(Around(bs, target)) == Bag(bs)
  {
    var i := IndexFor(bs, target.longId);
    AroundFrom(bs, i);
  }

  lemma AroundFrom(bs: seq<Bucket>, i: nat)
    requires i < |bs|
    ensures multiset(Order(bs[i].nodes, Reverse(bs[..i]), Reverse(bs[i + 1..]), true)) == Bag(bs)
  {
    BagOfSides(bs[i].nodes, bs[..i], bs[i + 1..]);
    BagSplit(bs, i);
  }

  lemma BagOfSides(cur: seq<Node>, left: seq<Bucket>, right: seq<Bucket>)
    ensures multiset(Order(cur, Reverse(left), Reverse(right), true)) == multiset(cur) + Bag(left) + Bag(right)
  {
    OrderBag(cur, Reverse(left), Reverse(right), true);
    BagReverse(left);
    BagReverse(right);
  }

  lemma BagSplit(bs: seq<Bucket>, i: nat)
    requires i < |bs|
    ensures Bag(bs) == multiset(bs[i].nodes) + Bag(bs[..i]) + Bag(bs[i + 1..])
  {
    InThree(bs, i);
    BagThree(bs[..i], bs[i], bs[i + 1..]);
  }

  lemma InThree<T>(s: seq<T>, i: nat)
    requires i < |s|
    ensures s == s[..i] + ([s[i]] + s[i + 1..])
  {
  }

  lemma BagThree(a: seq<Bucket>, b: Bucket, c: seq<Bucket>)
    ensures Bag(a + ([b] + c)) == multiset(b.nodes) + Bag(a) + Bag(c)
  {
    BagConcat(a, [b] + c);
    assert ([b] + c)[1..] == c;
    assert Bag([b] + c) == multiset(b.nodes) + Bag(c);
  }

  // ---------- No contact twice

  ghost predicate Apart(bs: seq<Bucket>) {
    && (forall b | b in bs :: NoDup(b.nodes))
    && (forall i, j | 0 <= i < j < |bs| :: Ids(bs[i].nodes) !! Ids(bs[j].nodes))
  }

  lemma InvApart(bs: seq<Bucket>, local: Node, k: nat, f: Id -> nat, w: nat)
    requires Inv(bs, local, k, f, w)
    ensures Apart(bs)
  {
    forall b | b in bs ensures NoDup(b.nodes) {
      assert b.WellFormed(k);
    }
    forall i, j | 0 <= i < j < |bs| ensures Ids(bs[i].nodes) !! Ids(bs[j].nodes) {
      forall id | id in Ids(bs[i].nodes) ensures id !in Ids(bs[j].nodes) {
        OnlyHere(bs, local, k, f, w, i, id);
        KnownIff(bs[i + 1..], id);
        assert bs[j] in bs[i + 1..];
      }
    }
  }

  function Primaries(bs: seq<Bucket>): seq<Node> {
    if bs == [] then [] else bs[0].nodes + Primaries(bs[1..])
  }

  lemma {:induction false} PrimariesFacts(bs: seq<Bucket>)
    ensures Ids(Primaries(bs)) == PrimariesIn(bs) && multiset(Primaries(bs)) == Bag(bs)
  {
    if bs != [] {
      PrimariesFacts(bs[1..]);
      NoDupConcat(bs[0].nodes, Primaries(bs[1..]));
    }
  }

  lemma {:induction false} PrimariesApart(bs: seq<Bucket>)
    requires Apart(bs)
    ensures NoDup(Primaries(bs))
  {
    if bs != [] {
      var rest := bs[1..];
      PrimariesApart(rest);
      PrimariesFacts(rest);
      forall id | id in PrimariesIn(rest) ensures id !in Ids(bs[0].nodes) {
        PrimariesIff(rest, id);
        var b :| b in rest && id in Ids(b.nodes);
        var j :| 0 < j < |bs| && bs[j] == b;
      }
      NoDupConcat(bs[0].nodes, Primaries(rest));
    }
  }

  /** The traversal of a reachable table yields the identifier of every primary exactly once. */
  lemma AroundOnce(bs: seq<Bucket>, target: Node, local: Node, k: nat, f: Id -> nat, w: nat)
    requires Inv(bs, local, k, f, w)
    ensures NoDup(Around(bs, target)) && Ids(Around(bs, target)) == PrimariesIn(bs)
  {
    InvApart(bs, local, k, f, w);
    PrimariesApart(bs);
    PrimariesFacts(bs);
    AroundYieldsAll(bs, target);
    PermutationNoDup(Primaries(bs), Around(bs, target));
  }

  // ---------- The neighbours

  predicate IsEligible(n: Node, target: Node, exclude: Option<Node>) {
    n.id != target.id && (exclude.Some? ==> n.id != exclude.value.id)
  }

  function Eligible(s: seq<Node>, target: Node, exclude: Option<Node>): seq<Node> {
    if s == [] then []
    else if IsEligible(s[0], target, exclude) then [s[0]] + Eligible(s[1..], target, exclude)
    else Eligible(s[1..], target, exclude)
  }

  lemma {:induction false} EligibleConcat(a: seq<Node>, b: seq<Node>, target: Node, exclude: Option<Node>)
    ensures Eligible(a + b, target, exclude) == Eligible(a, target, exclude) + Eligible(b, target, exclude)
  {
    if a == [] {
      assert a + b == b;
    } else {
      assert (a + b)[1..] == a[1..] + b;
      EligibleConcat(a[1..], b, target, exclude);
    }
  }

  lemma {:induction false} EligibleMembers(s: seq<Node>, target: Node, exclude: Option<Node>)
    ensures forall n :: n in Eligible(s, target, exclude) <==> n in s && IsEligible(n, target, exclude)
    ensures |Eligible(s, target, exclude)| <= |s|
  {
    if s != [] {
      EligibleMembers(s[1..], target, exclude);
    }
  }

  lemma {:induction false} EligibleNoDup(s: seq<Node>, target: Node, exclude: Option<Node>)
    requires NoDup(s)
    ensures NoDup(Eligible(s, target, exclude))
  {
    if s != [] {
      EligibleNoDup(s[1..], target, exclude);
      EligibleMembers(s[1..], target, exclude);
      assert s == [s[0]] + s[1..];
      NoDupConcat([s[0]], s[1..]);
      NoDupConcat([s[0]], Eligible(s[1..], target, exclude));
    }
  }

  /** The collection stops when it has exactly k members, so k = 0 never stops it. */
  function Limit(s: seq<Node>, k: nat): seq<Node> {
    if 0 < k < |s| then s[..k] else s
  }

  function Collected(bs: seq<Bucket>, target: Node, exclude: Option<Node>, k: nat): seq<Node>
    requires bs != []
  {
    Limit(Eligible(Around(bs, target), target, exclude), k)
  }

  /** `r` is what `FindNeighbors` may return: the collected contacts, nearest first. */
  ghost predicate IsAnswer(r: seq<Node>, bs: seq<Bucket>, target: Node, exclude: Option<Node>, k: nat)
    requires bs != []
  {
    && multiset(r) == multiset(Collected(bs, target, exclude, k))
    && Ascending(r, (n: Node) => n.DistanceTo(target))
  }

  lemma CollectStep(done: seq<Node>, rest: seq<Node>, target: Node, exclude: Option<Node>)
    requires rest != []
    ensures done + rest == (done + [rest[0]]) + rest[1..]
    ensures Eligible(done + [rest[0]], target, exclude) ==
            Eligible(done, target, exclude) + (if IsEligible(rest[0], target, exclude) then [rest[0]] else [])
  {
    EligibleConcat(done, [rest[0]], target, exclude);
  }

  /** A collection that stopped early has the first k eligible contacts. */
  lemma CollectStops(done: seq<Node>, rest: seq<Node>, target: Node, exclude: Option<Node>, k: nat)
    requires rest == [] || |Eligible(done, target, exclude)| == k > 0
    requires 0 < k ==> |Eligible(done, target, exclude)| <= k
    ensures Eligible(done, target, exclude) == Limit(Eligible(done + rest, target, exclude), k)
  {
    EligibleConcat(done, rest, target, exclude);
  }

  method Collect(bs: seq<Bucket>, target: Node, exclude: Option<Node>, k: nat) returns (nodes: seq<Node>)
    requires bs != []
    ensures nodes == Collected(bs, target, exclude, k)
  {
    var t := new Traverser(bs, target);
    nodes := [];
    ghost var done: seq<Node>, rest := [], Around(bs, target);
    assert done + rest == rest;
    var full := false;
    while !full
      invariant t.Remaining() == rest && done + rest == Around(bs, target)
      invariant nodes == Eligible(done, target, exclude)
      invariant 0 < k ==> |nodes| <= k
      invariant full <==> 0 < k == |nodes|
      decreases |rest|, !full
    {
      var next := t.Next();
      if next.None? {
        break;
      }
      CollectStep(done, rest, target, exclude);
      done, rest := done + [rest[0]], rest[1..];
      if IsEligible(next.value, target, exclude) {
        nodes := nodes + [next.value];
        full := |nodes| == k;
      }
    }
    CollectStops(done, rest, target, exclude, k);
  }

  method FindNeighbors(bs: seq<Bucket>, target: Node, exclude: Option<Node>, k: nat) returns (r: seq<Node>)
    requires bs != []
    ensures IsAnswer(r, bs, target, exclude, k)
  {
    var nodes := Collect(bs, target, exclude, k);
    r := SortByKey(nodes, (n: Node) => n.DistanceTo(target));
  }

  // ---------- What the answer guarantees

  /** The identifiers that may be answered. */
  ghost function Wanted(bs: seq<Bucket>, target: Node, exclude: Option<Node>): set<Id> {
    PrimariesIn(bs) - {target.id} - (if exclude.Some? then {exclude.value.id} else {})
  }

  lemma EligibleSet(s: seq<Node>, target: Node, exclude: Option<Node>)
    ensures Ids(Eligible(s, target, exclude)) ==
            Ids(s) - {target.id} - (if exclude.Some? then {exclude.value.id} else {})
  {
    EligibleMembers(s, target, exclude);
  }

  lemma EligibleIds(bs: seq<Bucket>, target: Node, exclude: Option<Node>, local: Node, k: nat, f: Id -> nat, w: nat)
    requires Inv(bs, local, k, f, w)
    ensures var e := Eligible(Around(bs, target), target, exclude);
      NoDup(e) && Ids(e) == Wanted(bs, target, exclude) && |e| == |Wanted(bs, target, exclude)|
  {
    var all := Around(bs, target);
    AroundOnce(bs, target, local, k, f, w);
    EligibleSet(all, target, exclude);
    EligibleNoDup(all, target, exclude);
    CountIds(Eligible(all, target, exclude));
  }

  lemma LimitFacts(e: seq<Node>, k: nat)
    requires NoDup(e)
    ensures NoDup(Limit(e, k)) && Ids(Limit(e, k)) <= Ids(e)
  {
  }

  /** The answer holds min(k, eligible) distinct primaries, never the target or the excluded node. */
  lemma AnswerSize(r: seq<Node>, bs: seq<Bucket>, target: Node, exclude: Option<Node>,
                   local: Node, k: nat, f: Id -> nat, w: nat)
    requires k >= 1 && Inv(bs, local, k, f, w) && IsAnswer(r, bs, target, exclude, k)
    ensures NoDup(r) && Ids(r) <= Wanted(bs, target, exclude)
    ensures var most := |Wanted(bs, target, exclude)|; |r| == if most < k then most else k
  {
    var e := Eligible(Around(bs, target), target, exclude);
    EligibleIds(bs, target, exclude, local, k, f, w);
    LimitFacts(e, k);
    PermutationNoDup(Limit(e, k), r);
  }

  /** The answer has every eligible contact of the target's bucket. */
  lemma AnswerHasBucket(r: seq<Node>, bs: seq<Bucket>, target: Node, exclude: Option<Node>, k: nat, n: Node)
    requires bs != [] && IsAnswer(r, bs, target, exclude, k)
    requires var b := bs[IndexFor(bs, target.longId)];
      |b.nodes| <= k && n in b.nodes && IsEligible(n, target, exclude)
    ensures n in r
  {
    var i := IndexFor(bs, target.longId);
    var cur, left, right := bs[i].nodes, Reverse(bs[..i]), Reverse(bs[i + 1..]);
    OrderStarts(cur, left, right, true);
    assert n in multiset(cur);
    ReverseSame(cur);
    SameMembers(Reverse(cur), cur);
    assert |Reverse(cur)| == |multiset(Reverse(cur))| == |multiset(cur)|;
    LimitStarts(Reverse(cur), Order([], left, right, true), target, exclude, k, n);
    assert n in multiset(Collected(bs, target, exclude, k));
  }

  lemma LimitStarts(a: seq<Node>, b: seq<Node>, target: Node, exclude: Option<Node>, k: nat, n: Node)
    requires |a| <= k && n in a && IsEligible(n, target, exclude)
    ensures n in Limit(Eligible(a + b, target, exclude), k)
  {
    EligibleConcat(a, b, target, exclude);
    EligibleMembers(a, target, exclude);
    var e, c := Eligible(a, target, exclude), Limit(Eligible(a + b, target, exclude), k);
    var j :| 0 <= j < |e| && e[j] == n;
    assert c[j] == n;
  }

  /** A contact is held by the bucket around its point. */
  lemma PrimaryCovered(bs: seq<Bucket>, local: Node, k: nat, f: Id -> nat, w: nat, i: nat, n: Node)
    requires Inv(bs, local, k, f, w) && i < |bs| && n in Primaries(bs)
    ensures n in bs[i].nodes <==> bs[i].Covers(n.longId)
  {
    var j := PrimaryIndex(bs, n);
    assert bs[i] in bs && bs[j] in bs;
    assert bs[i].WellFormed(k) && bs[j].WellFormed(k);
    if i < j {
      TilesOrder(bs, 0, Pow2(w) - 1, i, j);
    } else if j < i {
      TilesOrder(bs, 0, Pow2(w) - 1, j, i);
    }
  }

  lemma {:induction false} PrimaryIndex(bs: seq<Bucket>, n: Node) returns (j: nat)
    requires n in Primaries(bs)
    ensures j < |bs| && n in bs[j].nodes
  {
    if n in bs[0].nodes {
      j := 0;
    } else {
      j := PrimaryIndex(bs[1..], n);
      j := j + 1;
    }
  }

  /** A contact of the target's bucket is strictly nearer than one of any other bucket. */
  lemma BucketNearer(bs: seq<Bucket>, target: Node, local: Node, k: nat, f: Id -> nat, w: nat, n: Node, m: Node)
    requires Inv(bs, local, k, f, w) && target.longId < Pow2(w) && m in Primaries(bs)
    requires var b := bs[IndexFor(bs, target.longId)]; n in b.nodes && m !in b.nodes
    ensures n.DistanceTo(target) < m.DistanceTo(target)
  {
    var i := IndexFor(bs, target.longId);
    IndexIs(bs, 0, Pow2(w) - 1, target.longId);
    assert bs[i] in bs;
    assert bs[i].WellFormed(k) && Aligned(bs[i].lo, bs[i].hi);
    PrimaryCovered(bs, local, k, f, w, i, m);
    var e :| Dyadic(bs[i].lo, bs[i].hi, e);
    BlockSeparates(bs[i].lo, bs[i].hi, e, target.longId, n.longId);
    BlockSeparates(bs[i].lo, bs[i].hi, e, target.longId, m.longId);
  }

  lemma AnswerIsPrimary(r: seq<Node>, bs: seq<Bucket>, target: Node, exclude: Option<Node>, k: nat, n: Node)
    requires bs != [] && IsAnswer(r, bs, target, exclude, k) && n in r
    ensures n in Primaries(bs) && IsEligible(n, target, exclude)
  {
    var all := Around(bs, target);
    var c := Collected(bs, target, exclude, k);
    assert n in multiset(r);
    var j :| 0 <= j < |c| && c[j] == n;
    EligibleMembers(all, target, exclude);
    assert Eligible(all, target, exclude)[j] == n;
    assert n in all;
    assert n in multiset(all);
    AroundYieldsAll(bs, target);
    PrimariesFacts(bs);
    assert n in multiset(Primaries(bs));
  }

  /** In the answer every contact of the target's bucket comes before every other contact. */
  lemma AnswerBucketFirst(r: seq<Node>, bs: seq<Bucket>, target: Node, exclude: Option<Node>,
                          local: Node, k: nat, f: Id -> nat, w: nat, p: nat, q: nat)
    requires Inv(bs, local, k, f, w) && target.longId < Pow2(w) && IsAnswer(r, bs, target, exclude, k)
    requires p < |r| && q < |r|
    requires var b := bs[IndexFor(bs, target.longId)]; r[p] in b.nodes && r[q] !in b.nodes
    ensures p < q && r[p].DistanceTo(target) < r[q].DistanceTo(target)
  {
    AnswerIsPrimary(r, bs, target, exclude, k, r[q]);
    BucketNearer(bs, target, local, k, f, w, r[p], r[q]);
  }

  /** When the target's bucket supplies k contacts, or no more than k are eligible at all, the answer
      is exactly the k nearest known: whoever is left out is strictly farther. */
  lemma AnswerNearest(r: seq<Node>, bs: seq<Bucket>, target: Node, exclude: Option<Node>,
                      local: Node, k: nat, f: Id -> nat, w: nat, n: Node, m: Node)
    requires k >= 1 && Inv(bs, local, k, f, w) && target.longId < Pow2(w)
    requires IsAnswer(r, bs, target, exclude, k)
    requires |Eligible(bs[IndexFor(bs, target.longId)].nodes, target, exclude)| >= k
             || |Wanted(bs, target, exclude)| <= k
    requires n in r && m in Primaries(bs) && IsEligible(m, target, exclude) && m !in r
    ensures n.DistanceTo(target) < m.DistanceTo(target)
  {
    var i := IndexFor(bs, target.longId);
    assert bs[i] in bs;
    assert bs[i].WellFormed(k);
    if m in bs[i].nodes {
      AnswerHasBucket(r, bs, target, exclude, k, m);
    } else if n in bs[i].nodes {
      BucketNearer(bs, target, local, k, f, w, n, m);
    } else if |Wanted(bs, target, exclude)| <= k {
      AnswerComplete(r, bs, target, exclude, local, k, f, w, m);
    } else {
      AnswerOnlyBucket(r, bs, target, exclude, local, k, f, w, n);
    }
  }

  lemma AnswerComplete(r: seq<Node>, bs: seq<Bucket>, target: Node, exclude: Option<Node>,
                       local: Node, k: nat, f: Id -> nat, w: nat, m: Node)
    requires k >= 1 && Inv(bs, local, k, f, w) && IsAnswer(r, bs, target, exclude, k)
    requires |Wanted(bs, target, exclude)| <= k && m in Primaries(bs) && IsEligible(m, target, exclude)
    ensures m in r
  {
    var all := Around(bs, target);
    EligibleIds(bs, target, exclude, local, k, f, w);
    PrimariesFacts(bs);
    AroundYieldsAll(bs, target);
    assert m in multiset(Primaries(bs));
    assert m in multiset(all);
    EligibleMembers(all, target, exclude);
    assert m in multiset(Collected(bs, target, exclude, k));
    assert m in multiset(r);
  }

  lemma AnswerOnlyBucket(r: seq<Node>, bs: seq<Bucket>, target: Node, exclude: Option<Node>,
                         local: Node, k: nat, f: Id -> nat, w: nat, n: Node)
    requires k >= 1 && Inv(bs, local, k, f, w) && IsAnswer(r, bs, target, exclude, k) && n in r
    requires |Eligible(bs[IndexFor(bs, target.longId)].nodes, target, exclude)| >= k
    ensures n in bs[IndexFor(bs, target.longId)].nodes
  {
    var i := IndexFor(bs, target.longId);
    var mine := Eligible(bs[i].nodes, target, exclude);
    assert bs[i] in bs;
    assert bs[i].WellFormed(k);
    EligibleMembers(bs[i].nodes, target, exclude);
    EligibleNoDup(bs[i].nodes, target, exclude);
    AnswerSize(r, bs, target, exclude, local, k, f, w);
    forall m | m in mine ensures m in r {
      AnswerHasBucket(r, bs, target, exclude, k, m);
    }
    CountIds(r);
    CountIds(mine);
    assert Ids(mine) <= Ids(r);
    SubsetSize(Ids(mine), Ids(r));
    assert n.id in Ids(mine);
    var m :| m in mine && m.id == n.id;
    assert m in r;
  }
}

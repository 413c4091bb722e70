/** Where the neighbours fall short of the k nearest: left of the target the traversal starts with the
    farthest bucket. */
module NeighborLimits {
  import opened Bits
  import opened Nodes
  import opened Contacts
  import opened Buckets
  import opened Insertion
  import opened Table
  import opened Neighbors
  import opened NearestNeighbors
  import opened TableRuns
  import Refresh

  // ---------- A reachable table with a wrong answer

  lemma {:induction false} ReverseEnds<T>(s: seq<T>)
    requires s != []
    ensures |Reverse(s)| == |s| && Reverse(s)[|s| - 1] == s[0]
  {
    if |s| > 1 {
      ReverseEnds(s[..|s| - 1]);
    }
  }

  /** Filtering a reversed list keeps the same contacts. */
  lemma {:induction false} EligibleReverse(s: seq<Node>, target: Node, exclude: Option<Node>)
    ensures multiset(Eligible(Reverse(s), target, exclude)) == multiset(Eligible(s, target, exclude))
    decreases |s|
  {
    if s != [] {
      var front, last := s[..|s| - 1], s[|s| - 1];
      EligibleReverse(front, target, exclude);
      assert s == front + [last];
      EligibleConcat(front, [last], target, exclude);
      EligibleConcat([last], Reverse(front), target, exclude);
    }
  }

  /** The traversal goes from the target's bucket to the first bucket of the table. */
  lemma FirstBucketNext(bs: seq<Bucket>, target: Node) returns (rest: seq<Node>)
    requires bs != [] && IndexFor(bs, target.longId) > 0
    ensures Around(bs, target) == Reverse(bs[IndexFor(bs, target.longId)].nodes) + (Reverse(bs[0].nodes) + rest)
  {
    var i := IndexFor(bs, target.longId);
    var left, right := Reverse(bs[..i]), Reverse(bs[i + 1..]);
    OrderStarts(bs[i].nodes, left, right, true);
    ReverseEnds(bs[..i]);
    OrderStarts(bs[0].nodes, left[..i - 1], right, false);
    rest := Order([], left[..i - 1], right, false);
  }

  /** If the target's bucket has nobody to offer and the first bucket has k, the collected contacts are the
      first k of the first bucket. */
  lemma FirstBucketCollected(bs: seq<Bucket>, target: Node, exclude: Option<Node>, k: nat) returns (e: seq<Node>)
    requires bs != [] && k >= 1
    requires var i := IndexFor(bs, target.longId); i > 0 && Eligible(bs[i].nodes, target, exclude) == []
    requires |Eligible(bs[0].nodes, target, exclude)| >= k
    ensures e == Eligible(Reverse(bs[0].nodes), target, exclude) && |e| >= k
    ensures multiset(e) == multiset(Eligible(bs[0].nodes, target, exclude))
    ensures Collected(bs, target, exclude, k) == e[..k]
  {
    var rest := FirstBucketNext(bs, target);
    e := Eligible(Reverse(bs[0].nodes), target, exclude);
    NobodyThen(bs[IndexFor(bs, target.longId)].nodes, Reverse(bs[0].nodes), rest, target, exclude);
    EligibleReverse(bs[0].nodes, target, exclude);
    assert |e| == |multiset(e)| == |multiset(Eligible(bs[0].nodes, target, exclude))|;
    assert (e + Eligible(rest, target, exclude))[..k] == e[..k];
  }

  lemma NobodyThen(mine: seq<Node>, first: seq<Node>, rest: seq<Node>, target: Node, exclude: Option<Node>)
    requires Eligible(mine, target, exclude) == []
    ensures Eligible(Reverse(mine) + (first + rest), target, exclude) == Eligible(first, target, exclude) + Eligible(rest, target, exclude)
  {
    EligibleReverse(mine, target, exclude);
    assert |Eligible(Reverse(mine), target, exclude)| == |multiset(Eligible(Reverse(mine), target, exclude))|;
    EligibleConcat(Reverse(mine), first + rest, target, exclude);
    EligibleConcat(first, rest, target, exclude);
  }

  /** Then the answer is k contacts of the first bucket, wherever the target is. */
  lemma FirstBucketAnswers(r: seq<Node>, bs: seq<Bucket>, target: Node, exclude: Option<Node>, k: nat)
    requires bs != [] && k >= 1 && IsAnswer(r, bs, target, exclude, k)
    requires var i := IndexFor(bs, target.longId); i > 0 && Eligible(bs[i].nodes, target, exclude) == []
    requires |Eligible(bs[0].nodes, target, exclude)| >= k
    ensures |r| == k && forall n | n in r :: n in bs[0].nodes
  {
    var e := FirstBucketCollected(bs, target, exclude, k);
    assert |r| == |multiset(r)| == |multiset(e[..k])|;
    EligibleMembers(bs[0].nodes, target, exclude);
    SameMembers(r, e[..k]);
    SameMembers(e, Eligible(bs[0].nodes, target, exclude));
  }

  /** The space up to `top` is halved at `mid`, and its upper half at `third`. */
  ghost predicate Cut(w: nat, mid: nat, third: nat, top: nat) {
    && w >= 2 && top + 1 == Pow2(w) && mid < third < top
    && Dyadic(0, mid, w - 1) && Dyadic(mid + 1, top, w - 1)
    && Dyadic(mid + 1, third, w - 2) && Dyadic(third + 1, top, w - 2)
  }

  lemma CutExists(w: nat) returns (mid: nat, third: nat, top: nat)
    requires w >= 2
    ensures Cut(w, mid, third, top)
  {
    top := Pow2(w) - 1;
    WholeSpace(w);
    mid, third := CutAt(0, top, w);
  }

  lemma CutAt(lo: nat, top: nat, w: nat) returns (mid: nat, third: nat)
    requires w >= 2 && Dyadic(lo, top, w)
    ensures lo <= mid < third < top
    ensures Dyadic(lo, mid, w - 1) && Dyadic(mid + 1, top, w - 1)
    ensures Dyadic(mid + 1, third, w - 2) && Dyadic(third + 1, top, w - 2)
  {
    BlockWidth(lo, top, w);
    mid := lo + (top - lo) / 2;
    Halves(lo, top, w);
    third := HalfAt(mid + 1, top, w - 1);
  }

  lemma HalfAt(lo: nat, top: nat, e: nat) returns (mid: nat)
    requires e >= 1 && Dyadic(lo, top, e)
    ensures lo <= mid < top && Dyadic(lo, mid, e - 1) && Dyadic(mid + 1, top, e - 1)
  {
    BlockWidth(lo, top, e);
    mid := lo + (top - lo) / 2;
    Halves(lo, top, e);
  }

  /** Some contacts in the lower half, one in the third quarter, some in the last. */
  function ThreeBuckets(mid: nat, third: nat, top: nat, low: seq<Node>, b: Node, last: seq<Node>): seq<Bucket> {
    [Bucket(0, mid, low, [], 0), Bucket(mid + 1, third, [b], [], 0), Bucket(third + 1, top, last, [], 0)]
  }

  /** Different contacts of a part of the space. */
  ghost predicate Lot(c: Config, s: seq<Node>, lo: nat, hi: nat) {
    && NoDup(s) && AllWithin(s, lo, hi)
    && forall n | n in s :: Offered(n, c.f, c.w) && n.id != c.local.id
  }

  /** k contacts of the lower half, one of the third quarter and k of the last, where the owner is. */
  ghost predicate Staged(c: Config, mid: nat, third: nat, top: nat, low: seq<Node>, b: Node, last: seq<Node>) {
    && c.k >= 1 && |low| == |last| == c.k && Cut(c.w, mid, third, top) && third < c.local.longId <= top
    && Lot(c, low, 0, mid) && Lot(c, [b], mid + 1, third) && Lot(c, last, third + 1, top)
  }

  /** The answer for k places is k contacts, and a known contact that it leaves out is nearer than all of them. */
  ghost predicate Misled(bs: seq<Bucket>, target: Node, b: Node, k: nat) {
    && bs != [] && b in Primaries(bs) && b.id != target.id
    && forall r | IsAnswer(r, bs, target, None, k) ::
         |r| == k && forall n: Node | n in r :: b.DistanceTo(target) < n.DistanceTo(target)
  }

  lemma {:induction false} EligibleAll(s: seq<Node>, target: Node)
    requires target.id !in Ids(s)
    ensures Eligible(s, target, None) == s
  {
    if s != [] {
      assert s[0].id in Ids(s);
      EligibleAll(s[1..], target);
    }
  }

  lemma ThirdBucket(bs: seq<Bucket>, x: nat)
    requires |bs| == 3 && !bs[0].Covers(x) && !bs[1].Covers(x)
    ensures IndexFor(bs, x) == 2
  {
  }

  lemma LotApart(c: Config, s: seq<Node>, lo: nat, hi: nat, n: Node)
    requires Lot(c, s, lo, hi) && Offered(n, c.f, c.w) && !(lo <= n.longId <= hi)
    ensures n.id !in Ids(s)
  {
  }

  /** Upper half against lower half, as seen from the last quarter. */
  lemma HalvesCompare(w: nat, mid: nat, third: nat, top: nat, n: Node, b: Node, target: Node)
    requires Cut(w, mid, third, top) && n.longId <= mid < b.longId <= third < target.longId <= top
    ensures b.DistanceTo(target) < n.DistanceTo(target)
  {
    BlockSeparates(mid + 1, top, w - 1, target.longId, n.longId);
    BlockSeparates(mid + 1, top, w - 1, target.longId, b.longId);
  }

  /** With the last quarter empty again, the answer there is the lower half. */
  lemma NotAlwaysNearest(c: Config, mid: nat, third: nat, top: nat, low: seq<Node>, b: Node, last: seq<Node>, target: Node)
    requires Staged(c, mid, third, top, low, b, last) && target in last
    ensures Misled(ThreeBuckets(mid, third, top, low, b, []), target, b, c.k)
  {
    var bs := ThreeBuckets(mid, third, top, low, b, []);
    InPrimaries(bs, 1, b);
    ThirdBucket(bs, target.longId);
    assert b in [b];
    LotApart(c, low, 0, mid, target);
    LotApart(c, [b], mid + 1, third, target);
    EligibleAll(low, target);
    forall r | IsAnswer(r, bs, target, None, c.k)
      ensures |r| == c.k && forall n: Node | n in r :: b.DistanceTo(target) < n.DistanceTo(target)
    {
      FirstBucketAnswers(r, bs, target, None, c.k);
      forall n: Node | n in r ensures b.DistanceTo(target) < n.DistanceTo(target) {
        HalvesCompare(c.w, mid, third, top, n, b, target);
      }
    }
  }

  // ---------- How that table comes about

  function Adds(s: seq<Node>): seq<Op> {
    seq(|s|, i requires 0 <= i < |s| => Add(s[i], 0))
  }

  function Removes(s: seq<Node>): seq<Op> {
    seq(|s|, i requires 0 <= i < |s| => Remove(s[i]))
  }

  /** The table with more contacts in one bucket. */
  function With(bs: seq<Bucket>, i: nat, s: seq<Node>): seq<Bucket>
    requires i < |bs|
  {
    bs[i := bs[i].(nodes := s)]
  }

  /** A bucket without replacements, and no other before it covers any of its points. */
  ghost predicate Stands(bs: seq<Bucket>, i: nat) {
    && i < |bs| && bs[i].repl == [] && (forall b | b in bs :: b.lo <= b.hi)
    && forall j | 0 <= j < i :: bs[j].hi < bs[i].lo
  }

  lemma StandsIndex(bs: seq<Bucket>, i: nat, x: nat)
    requires Stands(bs, i) && bs[i].Covers(x)
    ensures IndexFor(bs, x) == i
  {
  }

  lemma StandsWith(bs: seq<Bucket>, i: nat, s: seq<Node>)
    requires Stands(bs, i)
    ensures Stands(With(bs, i, s), i)
  {
    assert bs[i] in bs;
  }

  lemma WithTwice(bs: seq<Bucket>, i: nat, s: seq<Node>, s': seq<Node>)
    requires i < |bs|
    ensures With(With(bs, i, s), i, s') == With(bs, i, s')
  {
  }

  lemma AddsSnoc(ops: seq<Op>, front: seq<Node>, n: Node)
    ensures ops + Adds(front) + [Add(n, 0)] == ops + Adds(front + [n])
  {
    assert Adds(front + [n]) == Adds(front) + [Add(n, 0)];
  }

  lemma RemovesCons(ops: seq<Op>, n: Node, rest: seq<Node>)
    ensures ops + [Remove(n)] + Removes(rest) == ops + Removes([n] + rest)
  {
    assert Removes([n] + rest) == [Remove(n)] + Removes(rest);
  }

  lemma FillOne(c: Config, bs: seq<Bucket>, i: nat, n: Node)
    requires Stands(bs, i) && |bs[i].nodes| < c.k && n.id !in Ids(bs[i].nodes) && Lot(c, [n], bs[i].lo, bs[i].hi)
    ensures Next(c, bs, Add(n, 0), With(bs, i, bs[i].nodes + [n]))
  {
    assert n in [n];
    StandsIndex(bs, i, n.longId);
    var b1 := bs[i].(nodes := bs[i].nodes + [n]);
    assert Insert(bs[i], n, c.local.longId, c.k, 0) == Done([b1], None, 0);
    assert Splice(bs, i, [b1]) == bs[i := b1];
  }

  lemma LotParts(c: Config, a: seq<Node>, b: seq<Node>, lo: nat, hi: nat)
    requires Lot(c, a + b, lo, hi)
    ensures Lot(c, a, lo, hi) && Lot(c, b, lo, hi) && Ids(a) !! Ids(b)
  {
    NoDupConcat(a, b);
    assert forall n | n in a || n in b :: n in a + b;
  }

  /** Additions to a bucket with room append. */
  lemma {:induction false} Fill(c: Config, bs0: seq<Bucket>, ops: seq<Op>, bs: seq<Bucket>, i: nat, s: seq<Node>)
    requires Path(c, bs0, ops, bs) && Stands(bs, i)
    requires |bs[i].nodes + s| <= c.k && Lot(c, bs[i].nodes + s, bs[i].lo, bs[i].hi)
    ensures Path(c, bs0, ops + Adds(s), With(bs, i, bs[i].nodes + s))
    decreases |s|
  {
    var m := bs[i].nodes;
    if s == [] {
      assert ops + Adds(s) == ops && m + s == m && With(bs, i, m) == bs;
    } else {
      var front, n := s[..|s| - 1], s[|s| - 1];
      assert s == front + [n] && m + s == (m + front) + [n];
      LotParts(c, m + front, [n], bs[i].lo, bs[i].hi);
      Fill(c, bs0, ops, bs, i, front);
      var bs1 := With(bs, i, m + front);
      StandsWith(bs, i, m + front);
      FillOne(c, bs1, i, n);
      WithTwice(bs, i, m + front, m + s);
      PathSnoc(c, bs0, ops + Adds(front), bs1, Add(n, 0), With(bs, i, m + s));
      AddsSnoc(ops, front, n);
    }
  }

  lemma DrainOne(c: Config, bs: seq<Bucket>, i: nat)
    requires Stands(bs, i) && bs[i].nodes != [] && Lot(c, bs[i].nodes, bs[i].lo, bs[i].hi)
    ensures Next(c, bs, Remove(bs[i].nodes[0]), With(bs, i, bs[i].nodes[1..]))
  {
    var s := bs[i].nodes;
    var n := s[0];
    assert n in s && s == [n] + s[1..];
    StandsIndex(bs, i, n.longId);
    NoDupConcat([n], s[1..]);
    assert n.id in Ids([n]) && n.id in Ids(s);
    WithoutFacts(s[1..], n.id);
    assert RemoveNode(bs[i], n.id) == bs[i].(nodes := s[1..]);
  }

  /** Removals empty a bucket. */
  lemma {:induction false} Drain(c: Config, bs0: seq<Bucket>, ops: seq<Op>, bs: seq<Bucket>, i: nat, s: seq<Node>)
    requires Path(c, bs0, ops, bs) && Stands(bs, i) && s == bs[i].nodes && Lot(c, s, bs[i].lo, bs[i].hi)
    ensures Path(c, bs0, ops + Removes(s), With(bs, i, []))
    decreases |s|
  {
    if s == [] {
      assert ops + Removes(s) == ops && With(bs, i, []) == bs;
    } else {
      var n, rest := s[0], s[1..];
      var bs1 := With(bs, i, rest);
      assert s == [n] + rest;
      LotParts(c, [n], rest, bs[i].lo, bs[i].hi);
      DrainOne(c, bs, i);
      PathSnoc(c, bs0, ops, bs, Remove(n), bs1);
      StandsWith(bs, i, rest);
      Drain(c, bs0, ops + [Remove(n)], bs1, i, rest);
      WithTwice(bs, i, rest, []);
      RemovesCons(ops, n, rest);
    }
  }

  lemma {:induction false} WithinNone(s: seq<Node>, lo: nat, hi: nat, lo': nat, hi': nat)
    requires AllWithin(s, lo, hi) && (hi < lo' || hi' < lo)
    ensures Within(s, lo', hi') == []
  {
    if s != [] {
      WithinNone(s[1..], lo, hi, lo', hi');
    }
  }

  lemma SortedOut(low: seq<Node>, high: seq<Node>, lo: nat, mid: nat, hi: nat)
    requires AllWithin(low, lo, mid) && AllWithin(high, mid + 1, hi)
    ensures Within(low + high, lo, mid) == low && Within(low + high, mid + 1, hi) == high
  {
    WithinConcat(low, high, lo, mid);
    WithinConcat(low, high, mid + 1, hi);
    WithinAll(low, lo, mid);
    WithinAll(high, mid + 1, hi);
    WithinNone(low, lo, mid, mid + 1, hi);
    WithinNone(high, mid + 1, hi, lo, mid);
  }

  /** A contact that is the newest already stays where it is. */
  lemma Again(h: Bucket, front: seq<Node>, n: Node, k: nat)
    requires h.nodes == front + [n] && NoDup(front + [n])
    ensures AddNode(h, n, k) == (h, true)
  {
    NoDupConcat(front, [n]);
    assert n in h.nodes && n in [n];
    WithoutConcat(front, [n], n.id);
    WithoutFacts(front, n.id);
    assert Without([n], n.id) == Without([n][1..], n.id) == [];
    assert front + [] == front;
  }

  lemma {:induction false} WithoutConcat(a: seq<Node>, b: seq<Node>, id: Id)
    ensures Without(a + b, id) == Without(a, id) + Without(b, id)
  {
    if a == [] {
      assert a + b == b;
    } else {
      assert (a + b)[1..] == a[1..] + b;
      WithoutConcat(a[1..], b, id);
    }
  }

  lemma FullWaits(b: Bucket, n: Node, k: nat)
    requires |b.nodes| == k >= 1 && b.repl == [] && n.id !in Ids(b.nodes)
    ensures AddNode(b, n, k) == (b.(repl := [n]), false)
  {
    assert Without([], n.id) + [n] == [n];
  }

  lemma FullHalves(b: Bucket, low: seq<Node>, high: seq<Node>, n: Node, k: nat, mid: nat)
    requires b.lo <= b.hi && mid == Midpoint(b) && b.nodes == low + high && b.repl == [n]
    requires low != [] && |b.nodes| == k
    requires AllWithin(low, b.lo, mid) && AllWithin(high + [n], mid + 1, b.hi)
    ensures LowHalf(b, k, 0) == Bucket(b.lo, mid, low, [], 0)
    ensures HighHalf(b, k, 0) == Bucket(mid + 1, b.hi, high + [n], [], 0)
  {
    assert b.nodes + b.repl == low + (high + [n]);
    SortedOut(low, high + [n], b.lo, mid, b.hi);
  }

  /** A full bucket around the owner splits between its contacts when a new one arrives in its upper half. */
  lemma SplitBetween(b: Bucket, low: seq<Node>, high: seq<Node>, n: Node, local: nat, k: nat, mid: nat)
    requires b.lo <= b.hi && b.Covers(local) && mid == Midpoint(b) && b.nodes == low + high && b.repl == []
    requires low != [] && |b.nodes| == k && NoDup(low + (high + [n]))
    requires AllWithin(low, b.lo, mid) && AllWithin(high + [n], mid + 1, b.hi)
    ensures Insert(b, n, local, k, 0) == Done([Bucket(b.lo, mid, low, [], 0), Bucket(mid + 1, b.hi, high + [n], [], 0)], None, 1)
  {
    var b1, h := b.(repl := [n]), Bucket(mid + 1, b.hi, high + [n], [], 0);
    NewestApart(low, high, n);
    FullWaits(b, n, k);
    FullHalves(b1, low, high, n, k, mid);
    Again(h, high, n, k);
    InsertHigh(b, b1, h, n, local, k);
  }

  lemma NewestApart(low: seq<Node>, high: seq<Node>, n: Node)
    requires NoDup(low + (high + [n]))
    ensures n.id !in Ids(low + high) && NoDup(high + [n])
  {
    NoDupConcat(low, high + [n]);
    NoDupConcat(low + high, [n]);
    assert low + (high + [n]) == (low + high) + [n] && n in [n];
  }

  lemma InsertHigh(b: Bucket, b1: Bucket, h: Bucket, n: Node, local: nat, k: nat)
    requires b.lo <= b.hi && AddNode(b, n, k) == (b1, false) && b1.Covers(local) && b1.lo < b1.hi && n.longId > Midpoint(b1)
    requires h == HighHalf(b1, k, 0) && AddNode(h, n, k) == (h, true)
    ensures Insert(b, n, local, k, 0) == Done([LowHalf(b1, k, 0), h], None, 1)
  {
    assert Insert(h, n, local, k, 0) == Done([h], None, 0);
  }

  lemma CutMiddles(w: nat, mid: nat, third: nat, top: nat)
    requires Cut(w, mid, third, top)
    ensures mid == 0 + (top - 0) / 2 && third == mid + 1 + (top - (mid + 1)) / 2
  {
    BlockWidth(0, mid, w - 1);
    BlockWidth(mid + 1, top, w - 1);
    BlockWidth(mid + 1, third, w - 2);
    BlockWidth(third + 1, top, w - 2);
  }

  /** The contacts of two parts are different. */
  lemma LotsTogether(c: Config, a: seq<Node>, lo: nat, mid: nat, b: seq<Node>, hi: nat)
    requires Lot(c, a, lo, mid) && Lot(c, b, mid + 1, hi) && lo <= mid <= hi
    ensures Lot(c, a + b, lo, hi)
  {
    forall n | n in b ensures n.id !in Ids(a) {
      LotApart(c, a, lo, mid, n);
    }
    NoDupConcat(a, b);
  }

  /** The first split: the lower half from the third quarter. */
  lemma FirstSplit(c: Config, mid: nat, third: nat, top: nat, low: seq<Node>, b: Node, last: seq<Node>)
    requires Staged(c, mid, third, top, low, b, last)
    ensures Next(c, [Bucket(0, top, low, [], 0)], Add(b, 0), [Bucket(0, mid, low, [], 0), Bucket(mid + 1, top, [b], [], 0)])
  {
    var bs := [Bucket(0, top, low, [], 0)];
    var row := [Bucket(0, mid, low, [], 0), Bucket(mid + 1, top, [b], [], 0)];
    CutMiddles(c.w, mid, third, top);
    LotsTogether(c, low, 0, mid, [b], third);
    assert low + [] == low && [] + [b] == [b] && b in [b];
    SplitBetween(bs[0], low, [], b, c.local.longId, c.k, mid);
    assert IndexFor(bs, b.longId) == 0 && Splice(bs, 0, row) == row;
  }

  /** The second split: the third quarter from the last. */
  lemma SecondSplit(c: Config, mid: nat, third: nat, top: nat, low: seq<Node>, b: Node, last: seq<Node>, front: seq<Node>, n: Node)
    requires Staged(c, mid, third, top, low, b, last) && last == front + [n]
    ensures Next(c, [Bucket(0, mid, low, [], 0), Bucket(mid + 1, top, [b] + front, [], 0)], Add(n, 0),
                 ThreeBuckets(mid, third, top, low, b, last))
  {
    var bs := [Bucket(0, mid, low, [], 0), Bucket(mid + 1, top, [b] + front, [], 0)];
    var row := [Bucket(mid + 1, third, [b], [], 0), Bucket(third + 1, top, last, [], 0)];
    CutMiddles(c.w, mid, third, top);
    LotsTogether(c, [b], mid + 1, third, last, top);
    assert n in last;
    SplitBetween(bs[1], [b], front, n, c.local.longId, c.k, third);
    assert IndexFor(bs, n.longId) == 1;
    assert Splice(bs, 1, row) == [bs[0]] + row == ThreeBuckets(mid, third, top, low, b, last);
  }

  /** The run: fill the lower half, split, fill the last quarter, split again, and empty it. */
  function Script(low: seq<Node>, b: Node, front: seq<Node>, n: Node): seq<Op> {
    [] + Adds(low) + [Add(b, 0)] + Adds(front) + [Add(n, 0)] + Removes(front + [n])
  }

  /** Additions to an empty table. */
  lemma FillWhole(c: Config, top: nat, low: seq<Node>)
    requires top + 1 == Pow2(c.w) && |low| <= c.k && Lot(c, low, 0, top)
    ensures Path(c, Start(c.w, 0), [] + Adds(low), [Bucket(0, top, low, [], 0)])
  {
    var bs0 := [Bucket(0, top, [], [], 0)];
    assert [] + low == low;
    Fill(c, bs0, [], bs0, 0, low);
  }

  lemma TwoBucketsReached(c: Config, mid: nat, third: nat, top: nat, low: seq<Node>, b: Node, last: seq<Node>)
    requires Staged(c, mid, third, top, low, b, last)
    ensures Path(c, Start(c.w, 0), [] + Adds(low) + [Add(b, 0)],
                 [Bucket(0, mid, low, [], 0), Bucket(mid + 1, top, [b], [], 0)])
  {
    FillWhole(c, top, low);
    FirstSplit(c, mid, third, top, low, b, last);
    PathSnoc(c, Start(c.w, 0), [] + Adds(low), [Bucket(0, top, low, [], 0)], Add(b, 0),
             [Bucket(0, mid, low, [], 0), Bucket(mid + 1, top, [b], [], 0)]);
  }

  lemma SecondSplitReached(c: Config, mid: nat, third: nat, top: nat, low: seq<Node>, b: Node, last: seq<Node>, front: seq<Node>,
                           n: Node, ops: seq<Op>)
    requires Staged(c, mid, third, top, low, b, last) && last == front + [n]
    requires Path(c, Start(c.w, 0), ops, [Bucket(0, mid, low, [], 0), Bucket(mid + 1, top, [b], [], 0)])
    ensures Path(c, Start(c.w, 0), ops + Adds(front) + [Add(n, 0)], ThreeBuckets(mid, third, top, low, b, last))
  {
    var bs0, bs := Start(c.w, 0), [Bucket(0, mid, low, [], 0), Bucket(mid + 1, top, [b], [], 0)];
    var bs1 := [Bucket(0, mid, low, [], 0), Bucket(mid + 1, top, [b] + front, [], 0)];
    LotParts(c, front, [n], third + 1, top);
    LotsTogether(c, [b], mid + 1, third, front, top);
    Fill(c, bs0, ops, bs, 1, front);
    assert With(bs, 1, [b] + front) == bs1;
    SecondSplit(c, mid, third, top, low, b, last, front, n);
    PathSnoc(c, bs0, ops + Adds(front), bs1, Add(n, 0), ThreeBuckets(mid, third, top, low, b, last));
  }

  lemma ThirdStands(mid: nat, third: nat, top: nat, low: seq<Node>, b: Node, last: seq<Node>)
    requires mid < third < top
    ensures var bs := ThreeBuckets(mid, third, top, low, b, last);
      && Stands(bs, 2) && bs[2] == Bucket(third + 1, top, last, [], 0)
      && With(bs, 2, []) == ThreeBuckets(mid, third, top, low, b, [])
  {
  }

  /** The last quarter emptied. */
  lemma LastEmptied(c: Config, mid: nat, third: nat, top: nat, low: seq<Node>, b: Node, last: seq<Node>, bs0: seq<Bucket>, ops: seq<Op>)
    requires mid < third < top && Lot(c, last, third + 1, top)
    requires Path(c, bs0, ops, ThreeBuckets(mid, third, top, low, b, last))
    ensures Path(c, bs0, ops + Removes(last), ThreeBuckets(mid, third, top, low, b, []))
  {
    ThirdStands(mid, third, top, low, b, last);
    Drain(c, bs0, ops, ThreeBuckets(mid, third, top, low, b, last), 2, last);
  }

  /** The run ends with an empty last quarter. */
  lemma ThreeBucketsReached(c: Config, mid: nat, third: nat, top: nat, low: seq<Node>, b: Node, last: seq<Node>, front: seq<Node>, n: Node)
    requires Staged(c, mid, third, top, low, b, last) && last == front + [n]
    ensures Reaches(c, Script(low, b, front, n), ThreeBuckets(mid, third, top, low, b, []))
  {
    TwoBucketsReached(c, mid, third, top, low, b, last);
    SecondSplitReached(c, mid, third, top, low, b, last, front, n, [] + Adds(low) + [Add(b, 0)]);
    LastEmptied(c, mid, third, top, low, b, last, Start(c.w, 0), [] + Adds(low) + [Add(b, 0)] + Adds(front) + [Add(n, 0)]);
  }

  // ---------- With real identifiers

  /** A node whose identifier folds to the point. */
  function At(x: nat): Node {
    MakeNode(Refresh.PointId(x), None, None)
  }

  lemma SomebodyAt(c: Config, x: nat) returns (n: Node)
    requires IsNode(c) && x < Pow2(c.w)
    ensures n.longId == x && Offered(n, c.f, c.w)
  {
    n := At(x);
    Refresh.PointFolds(x);
  }

  /** One contact at each of `size` points. */
  lemma {:induction false} Crowd(c: Config, lo: nat, size: nat) returns (s: seq<Node>)
    requires IsNode(c) && size >= 1 && lo + size <= Pow2(c.w) && !(lo <= c.local.longId < lo + size)
    ensures |s| == size && Lot(c, s, lo, lo + size - 1)
  {
    var n := SomebodyAt(c, lo + size - 1);
    OneIsALot(c, n);
    if size == 1 {
      s := [n];
    } else {
      var front := Crowd(c, lo, size - 1);
      LotsTogether(c, front, lo, lo + size - 2, [n], lo + size - 1);
      s := front + [n];
    }
  }

  lemma OneIsALot(c: Config, n: Node)
    requires Offered(n, c.f, c.w) && n.longId != c.local.longId == c.f(c.local.id)
    ensures Lot(c, [n], n.longId, n.longId)
  {
  }

  lemma LotWider(c: Config, s: seq<Node>, lo: nat, hi: nat, lo': nat, hi': nat)
    requires Lot(c, s, lo, hi) && lo' <= lo && hi <= hi'
    ensures Lot(c, s, lo', hi')
  {
  }

  lemma WideCut(w: nat, k: nat) returns (mid: nat, third: nat, top: nat)
    requires w >= 3 && 1 <= k < Pow2(w - 2)
    ensures Cut(w, mid, third, top) && top < Pow2(w) && third + 1 + k <= top && k <= mid + 1
  {
    mid, third, top := CutExists(w);
    BlockWidth(third + 1, top, w - 2);
    BlockWidth(0, mid, w - 1);
  }

  lemma AtPoint(x: nat)
    requires x < Pow2(8 * 16)
    ensures At(x).longId == Fold(At(x).id) == x
  {
    Refresh.PointFolds(x);
  }

  /** A node with a given bucket size, at a given point. */
  lemma OwnerAt(w: nat, x: nat, k: nat) returns (c: Config)
    requires w == BITS && x < Pow2(w) && k >= 1
    ensures IsNode(c) && c.k == k && c.w == w && c.local.longId == x
  {
    AtPoint(x);
    c := Config(At(x), k, Fold, w);
  }

  lemma StageSet(c: Config, mid: nat, third: nat, top: nat) returns (low: seq<Node>, b: Node, last: seq<Node>)
    requires IsNode(c) && Cut(c.w, mid, third, top) && top < Pow2(c.w)
    requires c.local.longId == third + 1 && third + 1 + c.k <= top && c.k <= mid + 1
    ensures Staged(c, mid, third, top, low, b, last)
  {
    low := Crowd(c, 0, c.k);
    LotWider(c, low, 0, c.k - 1, 0, mid);
    b := SomebodyAt(c, mid + 1);
    OneIsALot(c, b);
    LotWider(c, [b], mid + 1, mid + 1, mid + 1, third);
    last := Crowd(c, third + 2, c.k);
    LotWider(c, last, third + 2, third + 1 + c.k, third + 1, top);
  }

  lemma WrongAnswerFor(c: Config, mid: nat, third: nat, top: nat, low: seq<Node>, b: Node, last: seq<Node>)
    returns (ops: seq<Op>, bs: seq<Bucket>, target: Node)
    requires Staged(c, mid, third, top, low, b, last)
    ensures Reaches(c, ops, bs) && Misled(bs, target, b, c.k)
  {
    target := last[0];
    var front, n := last[..c.k - 1], last[c.k - 1];
    ThreeBucketsReached(c, mid, third, top, low, b, last, front, n);
    NotAlwaysNearest(c, mid, third, top, low, b, last, target);
    ops, bs := Script(low, b, front, n), ThreeBuckets(mid, third, top, low, b, []);
  }

  /** Real identifiers lead a real table of any bucket size to a wrong answer. The bound on the size leaves room
      for the contacts at different points of the last quarter. */
  lemma WrongAnswerReached(w: nat, k: nat) returns (c: Config, ops: seq<Op>, bs: seq<Bucket>, target: Node, b: Node)
    requires w == BITS && 1 <= k < Pow2(w - 2)
    ensures IsNode(c) && c.k == k && Reaches(c, ops, bs) && Misled(bs, target, b, k)
  {
    var mid, third, top := WideCut(w, k);
    c := OwnerAt(w, third + 1, k);
    var low, last;
    low, b, last := StageSet(c, mid, third, top);
    ops, bs, target := WrongAnswerFor(c, mid, third, top, low, b, last);
  }
}

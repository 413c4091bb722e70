/** Exactly when the neighbours that a table answers are the k nearest that it knows, said on the table: the
    order in which its buckets are visited and the number of eligible contacts in each. */
module NearestNeighbors {
  import opened Bits
  import opened Nodes
  import opened Contacts
  import opened Buckets
  import opened Insertion
  import opened Table
  import opened Neighbors

  /** Nobody left out is nearer than somebody answered. */
  ghost predicate IsNearest(r: seq<Node>, bs: seq<Bucket>, target: Node, exclude: Option<Node>) {
    forall n, m | n in r && m in Primaries(bs) && IsEligible(m, target, exclude) && m !in r ::
      n.DistanceTo(target) <= m.DistanceTo(target)
  }

  /** The bucket supplies a collected contact. */
  ghost predicate Supplies(b: Bucket, c: seq<Node>) {
    exists n :: n in b.nodes && n in c
  }

  /** The bucket has an eligible contact that was not collected. */
  ghost predicate LeavesOut(b: Bucket, c: seq<Node>, target: Node, exclude: Option<Node>) {
    exists m :: m in b.nodes && IsEligible(m, target, exclude) && m !in c
  }

  /** The first block is nearer to the target than the second. */
  predicate Closer(b: Bucket, c: Bucket, target: Node) {
    Xor(b.lo, target.longId) < Xor(c.lo, target.longId)
  }

  /** Every bucket that supplies is closer than every other bucket that leaves somebody out. */
  ghost predicate BucketsInOrder(bs: seq<Bucket>, c: seq<Node>, target: Node, exclude: Option<Node>) {
    forall b, b' | b in bs && b' in bs && b != b' && Supplies(b, c) && LeavesOut(b', c, target, exclude) :: Closer(b, b', target)
  }

  /** Inside a bucket, nobody left out is nearer than somebody collected. Only the bucket where the collection
      stops can have both. */
  ghost predicate BucketInOrder(b: Bucket, c: seq<Node>, target: Node, exclude: Option<Node>) {
    forall n, m | n in b.nodes && n in c && m in b.nodes && IsEligible(m, target, exclude) && m !in c ::
      n.DistanceTo(target) <= m.DistanceTo(target)
  }

  /** What the collected contacts must satisfy, bucket by bucket. */
  ghost predicate InOrder(bs: seq<Bucket>, c: seq<Node>, target: Node, exclude: Option<Node>) {
    BucketsInOrder(bs, c, target, exclude) && forall b | b in bs :: BucketInOrder(b, c, target, exclude)
  }

  /** Contacts of two buckets compare as the buckets do. */
  lemma CloserMeansNearer(bs: seq<Bucket>, target: Node, local: Node, k: nat, f: Id -> nat, w: nat,
                          i: nat, j: nat, n: Node, m: Node)
    requires Inv(bs, local, k, f, w) && i < |bs| && j < |bs| && i != j && n in bs[i].nodes && m in bs[j].nodes
    ensures Closer(bs[i], bs[j], target) <==> n.DistanceTo(target) < m.DistanceTo(target)
    ensures n.DistanceTo(target) != m.DistanceTo(target)
  {
    var b, c := bs[i], bs[j];
    assert b in bs && c in bs;
    assert b.WellFormed(k) && c.WellFormed(k) && Aligned(b.lo, b.hi) && Aligned(c.lo, c.hi);
    if i < j {
      TilesOrder(bs, 0, Pow2(w) - 1, i, j);
    } else {
      TilesOrder(bs, 0, Pow2(w) - 1, j, i);
    }
    var e1 :| Dyadic(b.lo, b.hi, e1);
    var e2 :| Dyadic(c.lo, c.hi, e2);
    BlocksCompare(b.lo, b.hi, e1, c.lo, c.hi, e2, target.longId, b.lo, c.lo, n.longId, m.longId);
    XorCancels(n.longId, m.longId, target.longId);
  }

  lemma BucketsDiffer(bs: seq<Bucket>, w: nat, i: nat, j: nat)
    requires Tiles(bs, 0, Pow2(w) - 1) && i < |bs| && j < |bs| && i != j
    ensures bs[i] != bs[j]
  {
    if i < j {
      TilesOrder(bs, 0, Pow2(w) - 1, i, j);
    } else {
      TilesOrder(bs, 0, Pow2(w) - 1, j, i);
    }
  }

  lemma OrderSuffices(r: seq<Node>, bs: seq<Bucket>, target: Node, exclude: Option<Node>,
                      local: Node, k: nat, f: Id -> nat, w: nat, n: Node, m: Node)
    requires Inv(bs, local, k, f, w) && InOrder(bs, r, target, exclude)
    requires n in r && n in Primaries(bs) && m in Primaries(bs) && IsEligible(m, target, exclude) && m !in r
    ensures n.DistanceTo(target) <= m.DistanceTo(target)
  {
    var i := PrimaryIndex(bs, n);
    var j := PrimaryIndex(bs, m);
    assert bs[i] in bs;
    if i == j {
      assert BucketInOrder(bs[i], r, target, exclude);
    } else {
      assert bs[i] != bs[j] by {
        BucketsDiffer(bs, w, i, j);
      }
      assert bs[j] in bs && Supplies(bs[i], r) && LeavesOut(bs[j], r, target, exclude);
      CloserMeansNearer(bs, target, local, k, f, w, i, j, n, m);
    }
  }

  lemma {:induction false} InPrimaries(bs: seq<Bucket>, i: nat, n: Node)
    requires i < |bs| && n in bs[i].nodes
    ensures n in Primaries(bs)
  {
    if i > 0 {
      InPrimaries(bs[1..], i - 1, n);
    }
  }

  lemma OrderNeeded(r: seq<Node>, bs: seq<Bucket>, target: Node, exclude: Option<Node>,
                    local: Node, k: nat, f: Id -> nat, w: nat)
    requires Inv(bs, local, k, f, w) && IsNearest(r, bs, target, exclude)
    ensures InOrder(bs, r, target, exclude)
  {
    forall b, b' | b in bs && b' in bs && b != b' && Supplies(b, r) && LeavesOut(b', r, target, exclude)
      ensures Closer(b, b', target)
    {
      var i :| 0 <= i < |bs| && bs[i] == b;
      var j :| 0 <= j < |bs| && bs[j] == b';
      var n :| n in b.nodes && n in r;
      var m :| m in b'.nodes && IsEligible(m, target, exclude) && m !in r;
      InPrimaries(bs, j, m);
      CloserMeansNearer(bs, target, local, k, f, w, i, j, n, m);
    }
    forall b, n, m | b in bs && n in b.nodes && n in r && m in b.nodes && IsEligible(m, target, exclude) && m !in r
      ensures n.DistanceTo(target) <= m.DistanceTo(target)
    {
      var i :| 0 <= i < |bs| && bs[i] == b;
      InPrimaries(bs, i, m);
    }
  }

  lemma SameOrder(bs: seq<Bucket>, c: seq<Node>, r: seq<Node>, target: Node, exclude: Option<Node>)
    requires (forall n :: n in c <==> n in r) && InOrder(bs, c, target, exclude)
    ensures InOrder(bs, r, target, exclude)
  {
    forall b, b' | b in bs && b' in bs && b != b' && Supplies(b, r) && LeavesOut(b', r, target, exclude)
      ensures Closer(b, b', target)
    {
      assert Supplies(b, c) && LeavesOut(b', c, target, exclude);
    }
    forall b | b in bs ensures BucketInOrder(b, r, target, exclude) {
      assert BucketInOrder(b, c, target, exclude);
    }
  }

  /** In terms of the contacts that the table collects: every supplying bucket is closer than every other bucket
      with an eligible contact left out, and no bucket has left out a nearer contact than one it supplied. */
  lemma NearestByCollected(r: seq<Node>, bs: seq<Bucket>, target: Node, exclude: Option<Node>,
                       local: Node, k: nat, f: Id -> nat, w: nat)
    requires Inv(bs, local, k, f, w) && IsAnswer(r, bs, target, exclude, k)
    ensures IsNearest(r, bs, target, exclude) <==> InOrder(bs, Collected(bs, target, exclude, k), target, exclude)
  {
    var c := Collected(bs, target, exclude, k);
    SameMembers(c, r);
    if IsNearest(r, bs, target, exclude) {
      OrderNeeded(r, bs, target, exclude, local, k, f, w);
      SameOrder(bs, r, c, target, exclude);
    }
    if InOrder(bs, c, target, exclude) {
      SameOrder(bs, c, r, target, exclude);
      forall n, m | n in r && m in Primaries(bs) && IsEligible(m, target, exclude) && m !in r
        ensures n.DistanceTo(target) <= m.DistanceTo(target)
      {
        AnswerIsPrimary(r, bs, target, exclude, k, n);
        OrderSuffices(r, bs, target, exclude, local, k, f, w, n, m);
      }
    }
  }

  // ---------- The order of the buckets

  /** The buckets that a traverser still has to visit, in order. */
  function Visits(left: seq<Bucket>, right: seq<Bucket>, takeLeft: bool): seq<Bucket>
    decreases |left| + |right|
  {
    if takeLeft && left != [] then [left[|left| - 1]] + Visits(left[..|left| - 1], right, false)
    else if right != [] then [right[|right| - 1]] + Visits(left, right[..|right| - 1], true)
    else if left != [] then [left[|left| - 1]] + Visits(left[..|left| - 1], right, takeLeft)
    else []
  }

  lemma VisitsNext(left: seq<Bucket>, right: seq<Bucket>, takeLeft: bool)
    returns (b: Bucket, l: seq<Bucket>, r: seq<Bucket>, next: bool)
    requires left != [] || right != []
    ensures Visits(left, right, takeLeft) == [b] + Visits(l, r, next) && |l| + |r| < |left| + |right|
    ensures (left == l + [b] && r == right) || (right == r + [b] && l == left)
  {
    if left != [] && (takeLeft || right == []) {
      b, l, r, next := left[|left| - 1], left[..|left| - 1], right, false;
    } else {
      b, l, r, next := right[|right| - 1], left, right[..|right| - 1], true;
    }
  }

  lemma {:induction false} VisitsSame(left: seq<Bucket>, right: seq<Bucket>, takeLeft: bool)
    ensures multiset(Visits(left, right, takeLeft)) == multiset(left) + multiset(right)
    decreases |left| + |right|
  {
    if left != [] || right != [] {
      var b, l, r, next := VisitsNext(left, right, takeLeft);
      VisitsSame(l, r, next);
      OneMore(b, Visits(l, r, next), l, r, left, right);
    }
  }

  lemma OneMore<T>(b: T, rest: seq<T>, l: seq<T>, r: seq<T>, left: seq<T>, right: seq<T>)
    requires multiset(rest) == multiset(l) + multiset(r)
    requires (left == l + [b] && r == right) || (right == r + [b] && l == left)
    ensures multiset([b] + rest) == multiset(left) + multiset(right)
  {
  }

  /** The contacts of the buckets, each drained from its end. */
  function Drained(vs: seq<Bucket>): seq<Node> {
    if vs == [] then [] else Reverse(vs[0].nodes) + Drained(vs[1..])
  }

  lemma {:induction false} OrderIsDrained(left: seq<Bucket>, right: seq<Bucket>, takeLeft: bool)
    ensures Order([], left, right, takeLeft) == Drained(Visits(left, right, takeLeft))
    decreases |left| + |right|
  {
    if takeLeft && left != [] {
      OrderStarts(left[|left| - 1].nodes, left[..|left| - 1], right, false);
      OrderIsDrained(left[..|left| - 1], right, false);
    } else if right != [] {
      OrderStarts(right[|right| - 1].nodes, left, right[..|right| - 1], true);
      OrderIsDrained(left, right[..|right| - 1], true);
    } else if left != [] {
      OrderStarts(left[|left| - 1].nodes, left[..|left| - 1], right, takeLeft);
      OrderIsDrained(left[..|left| - 1], right, takeLeft);
    }
  }

  /** The order in which the buckets of a table are visited for a target: its own bucket, and then from the left
      and the right in turn, where the left side begins with the first bucket and the right side with the
      nearest one. */
  function VisitOrder(bs: seq<Bucket>, target: Node): seq<Bucket>
    requires bs != []
  {
    var i := IndexFor(bs, target.longId);
    [bs[i]] + Visits(Reverse(bs[..i]), Reverse(bs[i + 1..]), true)
  }

  lemma VisitsAll(bs: seq<Bucket>, target: Node)
    requires bs != []
    ensures multiset(VisitOrder(bs, target)) == multiset(bs) && Around(bs, target) == Drained(VisitOrder(bs, target))
  {
    var i := IndexFor(bs, target.longId);
    VisitsFrom(bs, i);
    StartsWith(bs[i], Reverse(bs[..i]), Reverse(bs[i + 1..]));
  }

  lemma VisitsFrom(bs: seq<Bucket>, i: nat)
    requires i < |bs|
    ensures multiset([bs[i]] + Visits(Reverse(bs[..i]), Reverse(bs[i + 1..]), true)) == multiset(bs)
  {
    VisitsSame(Reverse(bs[..i]), Reverse(bs[i + 1..]), true);
    ReverseSame(bs[..i]);
    ReverseSame(bs[i + 1..]);
    SameParts(bs, i, Visits(Reverse(bs[..i]), Reverse(bs[i + 1..]), true));
  }

  lemma SameParts<T>(s: seq<T>, i: nat, rest: seq<T>)
    requires i < |s| && multiset(rest) == multiset(s[..i]) + multiset(s[i + 1..])
    ensures multiset([s[i]] + rest) == multiset(s)
  {
    assert s == s[..i] + [s[i]] + s[i + 1..];
  }

  lemma StartsWith(b: Bucket, left: seq<Bucket>, right: seq<Bucket>)
    ensures Order(b.nodes, left, right, true) == Drained([b] + Visits(left, right, true))
  {
    OrderStarts(b.nodes, left, right, true);
    OrderIsDrained(left, right, true);
    assert ([b] + Visits(left, right, true))[1..] == Visits(left, right, true);
  }

  lemma ReverseTail<T>(s: seq<T>)
    requires s != []
    ensures var r := Reverse(s); |r| == |s| && r[|r| - 1] == s[0] && r[..|r| - 1] == Reverse(s[1..])
  {
    ReverseTurns(s);
    ReverseTurns(s[1..]);
  }

  /** With buckets on both sides, the next two visits are the first of the left and the first of the right. */
  lemma VisitBoth(a: seq<Bucket>, b: seq<Bucket>)
    requires a != [] && b != []
    ensures Visits(Reverse(a), Reverse(b), true) == [a[0], b[0]] + Visits(Reverse(a[1..]), Reverse(b[1..]), true)
  {
    ReverseTail(a);
    ReverseTail(b);
    VisitLeft(Reverse(a), Reverse(b), Reverse(a[1..]), a[0]);
    VisitRight(Reverse(a[1..]), Reverse(b), Reverse(b[1..]), b[0]);
    TwoInFront(a[0], b[0], Visits(Reverse(a[1..]), Reverse(b[1..]), true));
  }

  lemma VisitLeft(left: seq<Bucket>, right: seq<Bucket>, rest: seq<Bucket>, x: Bucket)
    requires left != [] && left[|left| - 1] == x && left[..|left| - 1] == rest
    ensures Visits(left, right, true) == [x] + Visits(rest, right, false)
  {
  }

  lemma VisitRight(left: seq<Bucket>, right: seq<Bucket>, rest: seq<Bucket>, x: Bucket)
    requires right != [] && right[|right| - 1] == x && right[..|right| - 1] == rest
    ensures Visits(left, right, false) == [x] + Visits(left, rest, true)
  {
  }

  lemma TwoInFront<T>(x: T, y: T, s: seq<T>)
    ensures [x] + ([y] + s) == [x, y] + s
  {
  }

  /** With buckets on one side only, they follow in their order. */
  lemma {:induction false} VisitOne(a: seq<Bucket>, takeLeft: bool)
    ensures Visits(Reverse(a), [], takeLeft) == a && Visits([], Reverse(a), takeLeft) == a
    decreases |a|
  {
    if a != [] {
      ReverseTail(a);
      VisitOne(a[1..], false);
      VisitOne(a[1..], true);
      assert a == [a[0]] + a[1..];
    }
  }

  /** Left and right in turn, while there are both, and then the rest of the longer side. */
  ghost predicate InTurn(vs: seq<Bucket>, a: seq<Bucket>, b: seq<Bucket>) {
    var m := if |a| <= |b| then |a| else |b|;
    && |vs| == |a| + |b|
    && (forall j | 0 <= j < m :: vs[2 * j] == a[j] && vs[2 * j + 1] == b[j])
    && vs[2 * m..] == (if |a| <= |b| then b[m..] else a[m..])
  }

  lemma {:induction false} VisitsInTurn(a: seq<Bucket>, b: seq<Bucket>)
    ensures InTurn(Visits(Reverse(a), Reverse(b), true), a, b)
    decreases |a|
  {
    if a == [] || b == [] {
      VisitOne(a, true);
      VisitOne(b, true);
    } else {
      VisitBoth(a, b);
      VisitsInTurn(a[1..], b[1..]);
      TwoMore(Visits(Reverse(a[1..]), Reverse(b[1..]), true), a, b);
    }
  }

  lemma TwoMore(vs: seq<Bucket>, a: seq<Bucket>, b: seq<Bucket>)
    requires a != [] && b != [] && InTurn(vs, a[1..], b[1..])
    ensures InTurn([a[0], b[0]] + vs, a, b)
  {
    var ws, m := [a[0], b[0]] + vs, if |a| <= |b| then |a| else |b|;
    forall j | 0 <= j < m ensures ws[2 * j] == a[j] && ws[2 * j + 1] == b[j] {
      if j > 0 {
        assert vs[2 * (j - 1)] == a[1..][j - 1] && vs[2 * (j - 1) + 1] == b[1..][j - 1];
      }
    }
    assert ws[2 * m..] == vs[2 * (m - 1)..];
  }

  /** The order of the visits by position: the target's bucket, then the first bucket of the table and the one
      right of the target's, the second and the next, and so on. */
  lemma VisitsByPosition(bs: seq<Bucket>, target: Node)
    requires bs != []
    ensures var i, vs := IndexFor(bs, target.longId), VisitOrder(bs, target);
      |vs| == |bs| && vs[0] == bs[i] && InTurn(vs[1..], bs[..i], bs[i + 1..])
  {
    var i := IndexFor(bs, target.longId);
    VisitsInTurn(bs[..i], bs[i + 1..]);
    assert VisitOrder(bs, target)[1..] == Visits(Reverse(bs[..i]), Reverse(bs[i + 1..]), true);
  }

  // ---------- Counting along the way

  /** The number of eligible contacts in the first `j` visited buckets. */
  function Before(vs: seq<Bucket>, j: nat, target: Node, exclude: Option<Node>): nat
    requires j <= |vs|
  {
    if j == 0 then 0 else Before(vs, j - 1, target, exclude) + |Eligible(vs[j - 1].nodes, target, exclude)|
  }

  lemma {:induction false} ReverseTurns<T>(s: seq<T>)
    ensures |Reverse(s)| == |s| && forall i | 0 <= i < |s| :: Reverse(s)[i] == s[|s| - 1 - i]
  {
    if s != [] {
      ReverseTurns(s[..|s| - 1]);
    }
  }

  lemma ReverseSnoc<T>(a: seq<T>, x: T)
    ensures Reverse(a + [x]) == [x] + Reverse(a)
  {
    assert (a + [x])[..|a|] == a;
  }

  lemma EligibleSnoc(s: seq<Node>, n: Node, target: Node, exclude: Option<Node>)
    ensures Eligible(s + [n], target, exclude) == Eligible(s, target, exclude) + (if IsEligible(n, target, exclude) then [n] else [])
  {
    EligibleConcat(s, [n], target, exclude);
    assert [n][1..] == [];
  }

  lemma EligibleCons(n: Node, s: seq<Node>, target: Node, exclude: Option<Node>)
    ensures Eligible([n] + s, target, exclude) == (if IsEligible(n, target, exclude) then [n] else []) + Eligible(s, target, exclude)
  {
    assert ([n] + s)[1..] == s;
  }

  /** Filtering and reversing commute. */
  lemma {:induction false} EligibleTurned(s: seq<Node>, target: Node, exclude: Option<Node>)
    ensures Eligible(Reverse(s), target, exclude) == Reverse(Eligible(s, target, exclude))
  {
    if s != [] {
      var front, last := s[..|s| - 1], s[|s| - 1];
      assert s == front + [last];
      EligibleTurned(front, target, exclude);
      EligibleSnoc(front, last, target, exclude);
      EligibleCons(last, Reverse(front), target, exclude);
      ReverseSnoc(front, last);
      ReverseSnoc(Eligible(front, target, exclude), last);
      if !IsEligible(last, target, exclude) {
        assert Eligible(front, target, exclude) + [] == Eligible(front, target, exclude);
      }
    }
  }

  lemma {:induction false} DrainedConcat(a: seq<Bucket>, b: seq<Bucket>)
    ensures Drained(a + b) == Drained(a) + Drained(b)
  {
    if a == [] {
      assert a + b == b;
    } else {
      assert (a + b)[1..] == a[1..] + b;
      DrainedConcat(a[1..], b);
    }
  }

  lemma DrainedSnoc(vs: seq<Bucket>, b: Bucket)
    ensures Drained(vs + [b]) == Drained(vs) + Reverse(b.nodes)
  {
    DrainedConcat(vs, [b]);
    assert Drained([b]) == Reverse(b.nodes) + Drained([b][1..]);
  }

  /** The eligible contacts of a bucket in the order in which they are drained. */
  lemma Piece(b: Bucket, target: Node, exclude: Option<Node>, p: seq<Node>, e: seq<Node>, o: nat)
    requires e == Eligible(b.nodes, target, exclude) && p == Eligible(Reverse(b.nodes), target, exclude)
    ensures |p| == |e| && (o < |e| ==> p[o] == e[|e| - 1 - o])
  {
    EligibleTurned(b.nodes, target, exclude);
    ReverseTurns(e);
  }

  lemma {:induction false} BeforeCounts(vs: seq<Bucket>, j: nat, target: Node, exclude: Option<Node>)
    requires j <= |vs|
    ensures Before(vs, j, target, exclude) == |Eligible(Drained(vs[..j]), target, exclude)|
  {
    if j > 0 {
      var front, b := vs[..j - 1], vs[j - 1];
      assert vs[..j] == front + [b];
      BeforeCounts(vs, j - 1, target, exclude);
      DrainedSnoc(front, b);
      EligibleConcat(Drained(front), Reverse(b.nodes), target, exclude);
      Piece(b, target, exclude, Eligible(Reverse(b.nodes), target, exclude), Eligible(b.nodes, target, exclude), 0);
    }
  }

  lemma Segments(vs: seq<Bucket>, j: nat, target: Node, exclude: Option<Node>) returns (first: seq<Node>, rest: seq<Node>)
    requires j < |vs|
    ensures |first| == Before(vs, j, target, exclude)
    ensures Eligible(Drained(vs), target, exclude) == first + (Eligible(Reverse(vs[j].nodes), target, exclude) + rest)
  {
    var b, after := vs[j], [vs[j]] + vs[j + 1..];
    assert vs == vs[..j] + after && after[1..] == vs[j + 1..];
    DrainedConcat(vs[..j], after);
    EligibleConcat(Drained(vs[..j]), Drained(after), target, exclude);
    EligibleConcat(Reverse(b.nodes), Drained(vs[j + 1..]), target, exclude);
    first, rest := Eligible(Drained(vs[..j]), target, exclude), Eligible(Drained(vs[j + 1..]), target, exclude);
    BeforeCounts(vs, j, target, exclude);
  }

  lemma InTheMiddle<T>(all: seq<T>, a: seq<T>, p: seq<T>, rest: seq<T>, e: seq<T>, before: nat, o: nat)
    requires all == a + (p + rest) && before == |a| && |p| == |e| && o < |e| && p[o] == e[|e| - 1 - o]
    ensures before + o < |all| && all[before + o] == e[|e| - 1 - o]
  {
  }

  /** The eligible contacts of the visited bucket `j`, last first, stand together in the traversal. */
  lemma Stretch(vs: seq<Bucket>, j: nat, target: Node, exclude: Option<Node>, o: nat)
    requires j < |vs| && o < |Eligible(vs[j].nodes, target, exclude)|
    ensures var e, all := Eligible(vs[j].nodes, target, exclude), Eligible(Drained(vs), target, exclude);
      Before(vs, j, target, exclude) + o < |all| && all[Before(vs, j, target, exclude) + o] == e[|e| - 1 - o]
  {
    var first, rest := Segments(vs, j, target, exclude);
    var p, e := Eligible(Reverse(vs[j].nodes), target, exclude), Eligible(vs[j].nodes, target, exclude);
    Piece(vs[j], target, exclude, p, e, o);
    InTheMiddle(Eligible(Drained(vs), target, exclude), first, p, rest, e, Before(vs, j, target, exclude), o);
  }

  // ---------- Who is collected

  lemma LimitAt(all: seq<Node>, k: nat, at: nat)
    requires NoDup(all) && k >= 1 && at < |all|
    ensures all[at] in Limit(all, k) <==> at < k
  {
    var c := Limit(all, k);
    if at < k {
      assert c[at] == all[at];
    } else {
      forall i | 0 <= i < |c| ensures c[i] != all[at] {
        assert c[i] == all[i];
      }
    }
  }

  /** An eligible contact of the visited bucket `j` is collected if and only if the count before it is below k. */
  lemma CollectedExactly(vs: seq<Bucket>, j: nat, target: Node, exclude: Option<Node>, k: nat, o: nat)
    requires k >= 1 && j < |vs| && o < |Eligible(vs[j].nodes, target, exclude)| && NoDup(Eligible(Drained(vs), target, exclude))
    ensures var e := Eligible(vs[j].nodes, target, exclude);
      e[|e| - 1 - o] in Limit(Eligible(Drained(vs), target, exclude), k) <==> Before(vs, j, target, exclude) + o < k
  {
    Stretch(vs, j, target, exclude, o);
    LimitAt(Eligible(Drained(vs), target, exclude), k, Before(vs, j, target, exclude) + o);
  }

  /** A bucket that the collection reaches. */
  predicate Reached(vs: seq<Bucket>, j: nat, target: Node, exclude: Option<Node>, k: nat)
    requires j < |vs|
  {
    Eligible(vs[j].nodes, target, exclude) != [] && Before(vs, j, target, exclude) < k
  }

  /** A bucket that the collection does not finish. */
  predicate Unfinished(vs: seq<Bucket>, j: nat, target: Node, exclude: Option<Node>, k: nat)
    requires j < |vs|
  {
    Eligible(vs[j].nodes, target, exclude) != [] && k < Before(vs, j + 1, target, exclude)
  }

  lemma InLimit(vs: seq<Bucket>, n: Node, target: Node, exclude: Option<Node>, k: nat)
    requires n in Limit(Eligible(Drained(vs), target, exclude), k)
    ensures IsEligible(n, target, exclude)
  {
    EligibleMembers(Drained(vs), target, exclude);
    var all := Eligible(Drained(vs), target, exclude);
    assert n in all;
  }

  lemma SuppliesExactly(vs: seq<Bucket>, j: nat, target: Node, exclude: Option<Node>, k: nat)
    requires k >= 1 && j < |vs| && NoDup(Eligible(Drained(vs), target, exclude))
    ensures Supplies(vs[j], Limit(Eligible(Drained(vs), target, exclude), k)) <==> Reached(vs, j, target, exclude, k)
  {
    var c, e := Limit(Eligible(Drained(vs), target, exclude), k), Eligible(vs[j].nodes, target, exclude);
    EligibleMembers(vs[j].nodes, target, exclude);
    forall n | n in c ensures IsEligible(n, target, exclude) {
      InLimit(vs, n, target, exclude, k);
    }
    CutOff(vs, j, target, exclude, k);
    SuppliesByCut(vs[j], c, e, Before(vs, j, target, exclude), k);
  }

  lemma SuppliesByCut(b: Bucket, c: seq<Node>, e: seq<Node>, before: nat, k: nat)
    requires CutAt(c, e, before, k) && (forall n | n in e :: n in b.nodes) && forall n | n in b.nodes && n in c :: n in e
    ensures Supplies(b, c) <==> e != [] && before < k
  {
    if Supplies(b, c) {
      var n :| n in b.nodes && n in c;
      var i :| 0 <= i < |e| && e[i] == n;
    }
    if e != [] && before < k {
      assert e[|e| - 1] in e;
    }
  }

  lemma LeavesExactly(vs: seq<Bucket>, j: nat, target: Node, exclude: Option<Node>, k: nat)
    requires k >= 1 && j < |vs| && NoDup(Eligible(Drained(vs), target, exclude))
    ensures LeavesOut(vs[j], Limit(Eligible(Drained(vs), target, exclude), k), target, exclude) <==>
            Unfinished(vs, j, target, exclude, k)
  {
    var c, e := Limit(Eligible(Drained(vs), target, exclude), k), Eligible(vs[j].nodes, target, exclude);
    EligibleMembers(vs[j].nodes, target, exclude);
    CutOff(vs, j, target, exclude, k);
    LeavesByCut(vs[j], c, e, Before(vs, j, target, exclude), k, target, exclude);
  }

  lemma LeavesByCut(b: Bucket, c: seq<Node>, e: seq<Node>, before: nat, k: nat, target: Node, exclude: Option<Node>)
    requires CutAt(c, e, before, k) && forall n :: n in e <==> n in b.nodes && IsEligible(n, target, exclude)
    ensures LeavesOut(b, c, target, exclude) <==> e != [] && k < before + |e|
  {
    if LeavesOut(b, c, target, exclude) {
      var n :| n in b.nodes && IsEligible(n, target, exclude) && n !in c;
      var i :| 0 <= i < |e| && e[i] == n;
    }
    if e != [] && k < before + |e| {
      assert e[0] in e;
    }
  }

  /** In the bucket where the count passes k, the last contacts, which are collected, are no farther than those
      before them. */
  ghost predicate LastNearest(e: seq<Node>, m: nat, target: Node) {
    forall i, j | 0 <= i < |e| - m <= j < |e| :: e[j].DistanceTo(target) <= e[i].DistanceTo(target)
  }

  /** The number of contacts that the collection takes from the bucket where it stops. */
  ghost predicate StopsWell(vs: seq<Bucket>, j: nat, target: Node, exclude: Option<Node>, k: nat)
    requires j < |vs|
  {
    Reached(vs, j, target, exclude, k) && Unfinished(vs, j, target, exclude, k) ==>
      LastNearest(Eligible(vs[j].nodes, target, exclude), k - Before(vs, j, target, exclude), target)
  }

  /** Of the eligible contacts `e` of a bucket, `c` has the last ones, as many as fit below k after `before`. */
  ghost predicate CutAt(c: seq<Node>, e: seq<Node>, before: nat, k: nat) {
    forall i | 0 <= i < |e| :: e[i] in c <==> before + (|e| - 1 - i) < k
  }

  lemma CutOff(vs: seq<Bucket>, j: nat, target: Node, exclude: Option<Node>, k: nat)
    requires k >= 1 && j < |vs| && NoDup(Eligible(Drained(vs), target, exclude))
    ensures CutAt(Limit(Eligible(Drained(vs), target, exclude), k), Eligible(vs[j].nodes, target, exclude),
                  Before(vs, j, target, exclude), k)
  {
    var c, e := Limit(Eligible(Drained(vs), target, exclude), k), Eligible(vs[j].nodes, target, exclude);
    var before := Before(vs, j, target, exclude);
    forall i | 0 <= i < |e| ensures e[i] in c <==> before + (|e| - 1 - i) < k {
      CollectedExactly(vs, j, target, exclude, k, |e| - 1 - i);
    }
  }

  /** Inside a bucket, the order of the collected contacts is that of the last ones. */
  lemma InsideABucket(c: seq<Node>, e: seq<Node>, before: nat, k: nat, target: Node)
    requires CutAt(c, e, before, k) && before < k < before + |e|
    ensures LastNearest(e, k - before, target) <==>
            forall n, m | n in e && n in c && m in e && m !in c :: n.DistanceTo(target) <= m.DistanceTo(target)
  {
    if LastNearest(e, k - before, target) {
      forall n, m | n in e && n in c && m in e && m !in c ensures n.DistanceTo(target) <= m.DistanceTo(target) {
        var x :| 0 <= x < |e| && e[x] == n;
        var y :| 0 <= y < |e| && e[y] == m;
      }
    }
  }

  lemma InOrderOfEligible(b: Bucket, c: seq<Node>, e: seq<Node>, target: Node, exclude: Option<Node>)
    requires e == Eligible(b.nodes, target, exclude) && forall n | n in c :: IsEligible(n, target, exclude)
    ensures BucketInOrder(b, c, target, exclude) <==>
            forall n, m | n in e && n in c && m in e && m !in c :: n.DistanceTo(target) <= m.DistanceTo(target)
  {
    EligibleMembers(b.nodes, target, exclude);
  }

  lemma StopsExactly(vs: seq<Bucket>, j: nat, target: Node, exclude: Option<Node>, k: nat)
    requires k >= 1 && j < |vs| && NoDup(Eligible(Drained(vs), target, exclude))
    ensures BucketInOrder(vs[j], Limit(Eligible(Drained(vs), target, exclude), k), target, exclude) <==>
            StopsWell(vs, j, target, exclude, k)
  {
    var c, e := Limit(Eligible(Drained(vs), target, exclude), k), Eligible(vs[j].nodes, target, exclude);
    var before := Before(vs, j, target, exclude);
    forall n | n in c ensures IsEligible(n, target, exclude) {
      InLimit(vs, n, target, exclude, k);
    }
    CutOff(vs, j, target, exclude, k);
    InOrderOfEligible(vs[j], c, e, target, exclude);
    if before < k < before + |e| {
      InsideABucket(c, e, before, k, target);
    } else {
      AllOrNone(c, e, before, k);
    }
  }

  lemma AllOrNone(c: seq<Node>, e: seq<Node>, before: nat, k: nat)
    requires CutAt(c, e, before, k) && !(before < k < before + |e|)
    ensures (forall n | n in e :: n in c) || (forall n | n in e :: n !in c)
  {
  }

  // ---------- The condition on the table

  /** Every bucket that the collection reaches is closer than every other bucket that it does not finish, and
      where it stops inside a bucket the contacts it takes are the nearest of that bucket. */
  ghost predicate VisitedInOrder(vs: seq<Bucket>, target: Node, exclude: Option<Node>, k: nat) {
    && (forall i, j | 0 <= i < |vs| && 0 <= j < |vs| && i != j && Reached(vs, i, target, exclude, k) && Unfinished(vs, j, target, exclude, k) ::
          Closer(vs[i], vs[j], target))
    && (forall j | 0 <= j < |vs| :: StopsWell(vs, j, target, exclude, k))
  }

  ghost predicate AllDifferent(vs: seq<Bucket>) {
    forall i, j | 0 <= i < j < |vs| :: vs[i] != vs[j]
  }

  lemma VisitedNeeded(vs: seq<Bucket>, target: Node, exclude: Option<Node>, k: nat)
    requires k >= 1 && NoDup(Eligible(Drained(vs), target, exclude)) && AllDifferent(vs)
    requires InOrder(vs, Limit(Eligible(Drained(vs), target, exclude), k), target, exclude)
    ensures VisitedInOrder(vs, target, exclude, k)
  {
    forall i, j | 0 <= i < |vs| && 0 <= j < |vs| && i != j && Reached(vs, i, target, exclude, k) && Unfinished(vs, j, target, exclude, k)
      ensures Closer(vs[i], vs[j], target)
    {
      SuppliesExactly(vs, i, target, exclude, k);
      LeavesExactly(vs, j, target, exclude, k);
      assert vs[i] in vs && vs[j] in vs && vs[i] != vs[j];
    }
    forall j | 0 <= j < |vs| ensures StopsWell(vs, j, target, exclude, k) {
      assert vs[j] in vs;
      StopsExactly(vs, j, target, exclude, k);
    }
  }

  lemma VisitedSuffices(vs: seq<Bucket>, target: Node, exclude: Option<Node>, k: nat)
    requires k >= 1 && NoDup(Eligible(Drained(vs), target, exclude)) && VisitedInOrder(vs, target, exclude, k)
    ensures InOrder(vs, Limit(Eligible(Drained(vs), target, exclude), k), target, exclude)
  {
    var c := Limit(Eligible(Drained(vs), target, exclude), k);
    forall b, b' | b in vs && b' in vs && b != b' && Supplies(b, c) && LeavesOut(b', c, target, exclude)
      ensures Closer(b, b', target)
    {
      var i :| 0 <= i < |vs| && vs[i] == b;
      var j :| 0 <= j < |vs| && vs[j] == b';
      SuppliesExactly(vs, i, target, exclude, k);
      LeavesExactly(vs, j, target, exclude, k);
    }
    forall b | b in vs ensures BucketInOrder(b, c, target, exclude) {
      var j :| 0 <= j < |vs| && vs[j] == b;
      StopsExactly(vs, j, target, exclude, k);
    }
  }

  lemma Twice<T>(s: seq<T>, i: nat, j: nat)
    requires i < j < |s| && s[i] == s[j]
    ensures multiset(s)[s[i]] >= 2
  {
    assert s == s[..j] + s[j..];
    assert s[i] in s[..j] && s[j] in s[j..];
  }

  lemma {:induction false} Once(bs: seq<Bucket>, b: Bucket)
    requires AllDifferent(bs)
    ensures multiset(bs)[b] <= 1
  {
    if bs != [] {
      var rest := bs[1..];
      assert bs == [bs[0]] + rest;
      assert forall i | 0 <= i < |rest| :: rest[i] == bs[i + 1] && rest[i] != bs[0];
      Once(rest, b);
    }
  }

  lemma DifferentBuckets(bs: seq<Bucket>, vs: seq<Bucket>, w: nat)
    requires Tiles(bs, 0, Pow2(w) - 1) && multiset(vs) == multiset(bs)
    ensures AllDifferent(vs) && forall b :: b in vs <==> b in bs
  {
    forall i, j | 0 <= i < j < |bs| ensures bs[i] != bs[j] {
      BucketsDiffer(bs, w, i, j);
    }
    forall i, j | 0 <= i < j < |vs| ensures vs[i] != vs[j] {
      if vs[i] == vs[j] {
        Twice(vs, i, j);
        Once(bs, vs[i]);
      }
    }
    assert forall b :: b in vs <==> b in multiset(vs);
    assert forall b :: b in bs <==> b in multiset(bs);
  }

  lemma SameBuckets(bs: seq<Bucket>, vs: seq<Bucket>, c: seq<Node>, target: Node, exclude: Option<Node>)
    requires (forall b :: b in vs <==> b in bs) && InOrder(bs, c, target, exclude)
    ensures InOrder(vs, c, target, exclude)
  {
  }

  /** The answer is the k nearest if and only if, in the order in which the table visits its buckets for the
      target, every bucket with an eligible contact that is reached before k are counted is closer than every
      other bucket that is not finished when k are counted, and the bucket inside which the count reaches k has
      its nearest eligible contacts last. */
  lemma NearestExactly(r: seq<Node>, bs: seq<Bucket>, target: Node, exclude: Option<Node>,
                       local: Node, k: nat, f: Id -> nat, w: nat)
    requires k >= 1 && Inv(bs, local, k, f, w) && IsAnswer(r, bs, target, exclude, k)
    ensures IsNearest(r, bs, target, exclude) <==> VisitedInOrder(VisitOrder(bs, target), target, exclude, k)
  {
    var vs, c := VisitOrder(bs, target), Collected(bs, target, exclude, k);
    VisitsAll(bs, target);
    DifferentBuckets(bs, vs, w);
    EligibleIds(bs, target, exclude, local, k, f, w);
    NearestByCollected(r, bs, target, exclude, local, k, f, w);
    if InOrder(bs, c, target, exclude) {
      SameBuckets(bs, vs, c, target, exclude);
      VisitedNeeded(vs, target, exclude, k);
    }
    if VisitedInOrder(vs, target, exclude, k) {
      VisitedSuffices(vs, target, exclude, k);
      SameBuckets(vs, bs, c, target, exclude);
    }
  }
}

/** Insertion into the bucket that covers a contact: add, and while the bucket is full and may
    split, halve it and go on in the half that covers the contact. */
module Insertion {
  import opened Bits
  import opened Nodes
  import opened Contacts
  import opened Buckets

  /** The buckets that take the place of the old one, the contact to ping if the new one had to wait
      as a replacement, and the number of splits made; or no result at all. */
  datatype Outcome = Done(buckets: seq<Bucket>, lru: Option<Node>, splits: nat) | Diverges

  predicate MaySplit(b: Bucket, local: nat) {
    b.Covers(local) || Depth(b.nodes) % 5 != 0
  }

  function Head(s: seq<Node>): Option<Node> {
    if s == [] then None else Some(s[0])
  }

  /** The half of a bucket that covers `x`. */
  function Half(b: Bucket, x: nat, k: nat, now: nat): Bucket
    requires b.lo <= b.hi
  {
    if x <= Midpoint(b) then LowHalf(b, k, now) else HighHalf(b, k, now)
  }

  /** The halves of a bucket in order, where `row` stands for the one that covers `x`. */
  function Rejoin(b: Bucket, x: nat, row: seq<Bucket>, k: nat, now: nat): seq<Bucket>
    requires b.lo <= b.hi
  {
    if x <= Midpoint(b) then row + [HighHalf(b, k, now)] else [LowHalf(b, k, now)] + row
  }

  /** `local` is the folded identifier of the table's owner. A full bucket of one point that may
      split is its own lower half, so the program repeats that split for ever (see Unrolling). */
  function Insert(b: Bucket, node: Node, local: nat, k: nat, now: nat): (r: Outcome)
    requires b.lo <= b.hi
    decreases b.hi - b.lo
  {
    var (b1, ok) := AddNode(b, node, k);
    if ok then Done([b1], None, 0)
    else if !MaySplit(b1, local) then Done([b1], Head(b1.nodes), 0)
    else if b1.lo == b1.hi then Diverges
    else
      var r := Insert(Half(b1, node.longId, k, now), node, local, k, now);
      if r.Diverges? then r
      else Done(Rejoin(b1, node.longId, r.buckets, k, now), r.lru, r.splits + 1)
  }

  // ---------- Rows of buckets

  /** The buckets cover [lo, hi] from left to right without gap or overlap. */
  ghost predicate Tiles(bs: seq<Bucket>, lo: nat, hi: nat) {
    && bs != [] && bs[0].lo == lo && bs[|bs| - 1].hi == hi
    && (forall i | 0 <= i < |bs| :: bs[i].lo <= bs[i].hi)
    && (forall i | 0 < i < |bs| :: bs[i].lo == bs[i - 1].hi + 1)
  }

  ghost predicate AllWell(bs: seq<Bucket>, k: nat) {
    forall b | b in bs :: b.WellFormed(k)
  }

  ghost predicate Aligned(lo: nat, hi: nat) {
    exists e :: Dyadic(lo, hi, e)
  }

  ghost predicate AllAligned(bs: seq<Bucket>) {
    forall b | b in bs :: Aligned(b.lo, b.hi)
  }

  ghost function KnownIn(bs: seq<Bucket>): set<Id> {
    if bs == [] then {} else bs[0].Known() + KnownIn(bs[1..])
  }

  ghost function PrimariesIn(bs: seq<Bucket>): set<Id> {
    if bs == [] then {} else Ids(bs[0].nodes) + PrimariesIn(bs[1..])
  }

  lemma {:induction false} RowConcat(a: seq<Bucket>, b: seq<Bucket>)
    ensures KnownIn(a + b) == KnownIn(a) + KnownIn(b)
    ensures PrimariesIn(a + b) == PrimariesIn(a) + PrimariesIn(b)
  {
    if a == [] {
      assert a + b == b;
    } else {
      assert (a + b)[1..] == a[1..] + b;
      RowConcat(a[1..], b);
    }
  }

  // ---------- What insertion does

  /** The half around `x` is well formed and covers `x`. */
  lemma HalfWell(b: Bucket, x: nat, k: nat, now: nat)
    requires b.WellFormed(k) && b.Covers(x)
    ensures var h := Half(b, x, k, now); h.WellFormed(k) && h.Covers(x)
  {
    if x <= Midpoint(b) {
      PartWellFormed(b, b.lo, Midpoint(b), k, now);
    } else {
      PartWellFormed(b, Midpoint(b) + 1, b.hi, k, now);
    }
  }

  /** Well-formed buckets in place of the half around `x` make well-formed buckets in place of the
      whole. */
  lemma RejoinWell(b: Bucket, x: nat, row: seq<Bucket>, k: nat, now: nat)
    requires b.WellFormed(k) && b.lo < b.hi && AllWell(row, k)
    ensures AllWell(Rejoin(b, x, row, k, now), k)
  {
    if x <= Midpoint(b) {
      PartWellFormed(b, Midpoint(b) + 1, b.hi, k, now);
    } else {
      PartWellFormed(b, b.lo, Midpoint(b), k, now);
    }
  }

  lemma RejoinTiles(b: Bucket, x: nat, row: seq<Bucket>, k: nat, now: nat)
    requires b.lo < b.hi
    requires Tiles(row, Half(b, x, k, now).lo, Half(b, x, k, now).hi)
    ensures Tiles(Rejoin(b, x, row, k, now), b.lo, b.hi)
  {
  }

  /** The bucket after a refusal. */
  lemma Refused(b: Bucket, node: Node, k: nat)
    requires b.WellFormed(k) && b.Covers(node.longId) && !AddNode(b, node, k).1
    ensures |b.nodes| == k && node.id !in Ids(b.nodes)
    ensures var b1 := AddNode(b, node, k).0; b1.WellFormed(k) && b1 == b.(repl := b1.repl)
  {
    AddRefusesWell(b, node, k);
  }

  lemma Accepted(b: Bucket, node: Node, k: nat)
    requires b.WellFormed(k) && b.Covers(node.longId) && AddNode(b, node, k).1
    ensures var b1 := AddNode(b, node, k).0; b1.WellFormed(k) && b1 == b.(nodes := b1.nodes)
  {
    AddAccepts(b, node, k);
  }

  /** Insertion replaces the bucket by well-formed buckets that tile its range. */
  lemma {:induction false} InsertWell(b: Bucket, node: Node, local: nat, k: nat, now: nat)
    requires b.WellFormed(k) && b.Covers(node.longId)
    ensures var r := Insert(b, node, local, k, now);
      r.Done? ==> Tiles(r.buckets, b.lo, b.hi) && AllWell(r.buckets, k)
    decreases b.hi - b.lo
  {
    var (b1, ok) := AddNode(b, node, k);
    if ok {
      Accepted(b, node, k);
    } else {
      Refused(b, node, k);
      if MaySplit(b1, local) && b1.lo != b1.hi {
        HalfWell(b1, node.longId, k, now);
        var h := Half(b1, node.longId, k, now);
        InsertWell(h, node, local, k, now);
        var r := Insert(h, node, local, k, now);
        if r.Done? {
          RejoinWell(b1, node.longId, r.buckets, k, now);
          RejoinTiles(b1, node.longId, r.buckets, k, now);
        }
      }
    }
  }

  lemma RejoinAligned(b: Bucket, x: nat, row: seq<Bucket>, e: nat, k: nat, now: nat)
    requires Dyadic(b.lo, b.hi, e) && b.lo < b.hi && AllAligned(row)
    ensures e > 0 && Dyadic(Half(b, x, k, now).lo, Half(b, x, k, now).hi, e - 1)
    ensures AllAligned(Rejoin(b, x, row, k, now))
  {
    Halves(b.lo, b.hi, e);
    var low, high := LowHalf(b, k, now), HighHalf(b, k, now);
    assert Aligned(low.lo, low.hi) && Aligned(high.lo, high.hi);
  }

  /** Every bucket stays an aligned block. Each split halves the bucket around the contact, which
      ends as `c` with 2^d points, so there are at most `e` splits. */
  lemma {:induction false} InsertAligned(b: Bucket, node: Node, local: nat, e: nat, k: nat, now: nat)
    returns (c: Bucket, d: nat)
    requires b.Covers(node.longId) && Dyadic(b.lo, b.hi, e)
    ensures var r := Insert(b, node, local, k, now);
      r.Done? ==>
        && AllAligned(r.buckets)
        && c in r.buckets && c.Covers(node.longId) && Dyadic(c.lo, c.hi, d) && d + r.splits == e
    decreases b.hi - b.lo
  {
    var (b1, ok) := AddNode(b, node, k);
    c, d := b1, e;
    if !ok && MaySplit(b1, local) && b1.lo != b1.hi {
      RejoinAligned(b1, node.longId, [], e, k, now);
      var h := Half(b1, node.longId, k, now);
      c, d := InsertAligned(h, node, local, e - 1, k, now);
      var r := Insert(h, node, local, k, now);
      if r.Done? {
        RejoinAligned(b1, node.longId, r.buckets, e, k, now);
      }
    }
  }

  /** After a refusal and a split, the contact waits in the half around it. */
  lemma HalfHolds(b: Bucket, node: Node, k: nat, now: nat)
    requires b.WellFormed(k) && b.Covers(node.longId) && node in b.repl
    ensures node.id in Half(b, node.longId, k, now).Known()
  {
    var (lo, hi) := if node.longId <= Midpoint(b) then (b.lo, Midpoint(b)) else (Midpoint(b) + 1, b.hi);
    PartFacts(b, lo, hi, k, now);
    WithinMembers(b.nodes + b.repl, lo, hi);
  }

  lemma RejoinContacts(b: Bucket, x: nat, row: seq<Bucket>, k: nat, now: nat)
    requires b.WellFormed(k) && b.lo <= b.hi
    ensures KnownIn(row) == Half(b, x, k, now).Known() ==>
              KnownIn(Rejoin(b, x, row, k, now)) == b.Known()
    ensures Ids(Half(b, x, k, now).nodes) <= PrimariesIn(row) ==>
              Ids(b.nodes) <= PrimariesIn(Rejoin(b, x, row, k, now))
  {
    SplitKnown(b, k, now);
    SplitPrimaries(b, k, now);
    RowConcat(row, [HighHalf(b, k, now)]);
    RowConcat([LowHalf(b, k, now)], row);
  }

  /** A refusal leaves the primaries and loses at most the evicted contact. */
  lemma RefusedContacts(b: Bucket, node: Node, k: nat)
    requires k >= 1 && b.WellFormed(k) && b.Covers(node.longId) && !AddNode(b, node, k).1
    ensures var b1 := AddNode(b, node, k).0;
      && b1.nodes == b.nodes && b1.Known() == b.Known() + {node.id} - Evicted(b, node, k)
      && node in b1.repl
  {
    AddRefuses(b, node, k);
  }

  lemma InsertContactsStep(b: Bucket, node: Node, row: seq<Bucket>, k: nat, now: nat)
    requires b.WellFormed(k) && b.Covers(node.longId) && node in b.repl
    requires var h := Half(b, node.longId, k, now);
      KnownIn(row) == h.Known() + {node.id} - Evicted(h, node, k) && Ids(h.nodes) <= PrimariesIn(row)
    ensures KnownIn(Rejoin(b, node.longId, row, k, now)) == b.Known()
    ensures Ids(b.nodes) <= PrimariesIn(Rejoin(b, node.longId, row, k, now))
  {
    HalfHolds(b, node, k, now);
    RejoinContacts(b, node.longId, row, k, now);
  }

  /** Insertion conserves contacts: every primary stays primary through all splits, and of all
      contacts only the oldest replacement of a list at its cap can be lost, before any split. */
  lemma {:induction false} InsertContacts(b: Bucket, node: Node, local: nat, k: nat, now: nat)
    requires k >= 1 && b.WellFormed(k) && b.Covers(node.longId)
    ensures var r := Insert(b, node, local, k, now);
      r.Done? ==>
        && KnownIn(r.buckets) == b.Known() + {node.id} - Evicted(b, node, k)
        && Ids(b.nodes) <= PrimariesIn(r.buckets)
    decreases b.hi - b.lo
  {
    var (b1, ok) := AddNode(b, node, k);
    if ok {
      AddAccepts(b, node, k);
    } else {
      RefusedContacts(b, node, k);
      if MaySplit(b1, local) && b1.lo != b1.hi {
        Refused(b, node, k);
        HalfWell(b1, node.longId, k, now);
        var h := Half(b1, node.longId, k, now);
        InsertContacts(h, node, local, k, now);
        var r := Insert(h, node, local, k, now);
        if r.Done? {
          InsertContactsStep(b1, node, r.buckets, k, now);
        }
      }
    }
  }

  /** `node` is the newest primary of `c`. */
  ghost predicate Seated(c: Bucket, node: Node) {
    c.nodes != [] && c.nodes[|c.nodes| - 1] == node
  }

  /** `node` is the newest replacement of `c`, which is full and whose oldest primary is `lru`. */
  ghost predicate Parked(c: Bucket, node: Node, lru: Node, k: nat) {
    |c.nodes| == k > 0 && c.nodes[0] == lru && c.repl != [] && c.repl[|c.repl| - 1] == node
  }

  /** What the answer of an insertion says about the place `c` of the contact. */
  lemma {:induction false} InsertPlaces(b: Bucket, node: Node, local: nat, k: nat, now: nat)
    returns (c: Bucket)
    requires k >= 1 && b.WellFormed(k) && b.Covers(node.longId)
    ensures var r := Insert(b, node, local, k, now);
      r.Done? ==>
        && c in r.buckets && c.Covers(node.longId)
        && (r.lru.None? ==> Seated(c, node))
        && (r.lru.Some? ==> Parked(c, node, r.lru.value, k) && !MaySplit(c, local))
    decreases b.hi - b.lo
  {
    var (b1, ok) := AddNode(b, node, k);
    c := b1;
    if ok {
      Accepted(b, node, k);
    } else {
      Refused(b, node, k);
      AddRefuses(b, node, k);
      if MaySplit(b1, local) && b1.lo != b1.hi {
        HalfWell(b1, node.longId, k, now);
        c := InsertPlaces(Half(b1, node.longId, k, now), node, local, k, now);
      }
    }
  }

  ghost predicate Holds(b: Bucket, n: Node) {
    n in b.nodes || n in b.repl
  }

  lemma AddHolds(b: Bucket, node: Node, k: nat, n: Node)
    requires Holds(AddNode(b, node, k).0, n)
    ensures n == node || Holds(b, n)
  {
    WithoutMembers(b.nodes, node.id);
    WithoutMembers(b.repl, node.id);
  }

  lemma HalvesHold(b: Bucket, k: nat, now: nat, n: Node)
    requires b.lo <= b.hi && (Holds(LowHalf(b, k, now), n) || Holds(HighHalf(b, k, now), n))
    ensures Holds(b, n)
  {
    WithinMembers(b.nodes + b.repl, b.lo, Midpoint(b));
    WithinMembers(b.nodes + b.repl, Midpoint(b) + 1, b.hi);
  }

  /** No contact is invented: what a bucket holds afterwards is the new contact or was held before. */
  lemma {:induction false} InsertOrigin(b: Bucket, node: Node, local: nat, k: nat, now: nat, c: Bucket, n: Node)
    requires b.lo <= b.hi
    requires var r := Insert(b, node, local, k, now); r.Done? && c in r.buckets && Holds(c, n)
    ensures n == node || Holds(b, n)
    decreases b.hi - b.lo
  {
    var (b1, ok) := AddNode(b, node, k);
    if !ok && MaySplit(b1, local) {
      var h := Half(b1, node.longId, k, now);
      if c in Insert(h, node, local, k, now).buckets {
        InsertOrigin(h, node, local, k, now, c, n);
      }
      if n != node {
        HalvesHold(b1, k, now, n);
        AddHolds(b, node, k, n);
      }
    } else {
      AddHolds(b, node, k, n);
    }
  }

  /** A split stamps every bucket it makes; without one the stamp stays. */
  lemma {:induction false} InsertStamps(b: Bucket, node: Node, local: nat, k: nat, now: nat, c: Bucket)
    requires b.lo <= b.hi
    requires var r := Insert(b, node, local, k, now); r.Done? && c in r.buckets
    ensures c.updated == if Insert(b, node, local, k, now).splits == 0 then b.updated else now
    decreases b.hi - b.lo
  {
    var (b1, ok) := AddNode(b, node, k);
    if !ok && MaySplit(b1, local) {
      var h := Half(b1, node.longId, k, now);
      if c in Insert(h, node, local, k, now).buckets {
        InsertStamps(h, node, local, k, now, c);
      }
    }
  }

  // ---------- When insertion returns

  /** The other contacts that share the folded identifier of `node`. */
  ghost function TwinsIn(s: seq<Node>, node: Node): set<Id> {
    set n | n in s && n.longId == node.longId && n.id != node.id :: n.id
  }

  ghost function Twins(b: Bucket, node: Node): set<Id> {
    TwinsIn(b.nodes + b.repl, node)
  }

  lemma TwinsShrink(b: Bucket, node: Node, k: nat, now: nat)
    requires b.lo <= b.hi
    ensures Twins(AddNode(b, node, k).0, node) <= Twins(b, node)
    ensures Twins(Half(b, node.longId, k, now), node) <= Twins(b, node)
  {
    var b1, h := AddNode(b, node, k).0, Half(b, node.longId, k, now);
    forall n | n in b1.nodes + b1.repl ensures n == node || n in b.nodes + b.repl {
      AddHolds(b, node, k, n);
    }
    forall n | n in h.nodes + h.repl ensures n in b.nodes + b.repl {
      HalvesHold(b, k, now, n);
    }
  }

  /** Insertion returns when fewer than k other contacts of the bucket share the folded identifier. */
  lemma {:induction false} InsertReturns(b: Bucket, node: Node, local: nat, k: nat, now: nat)
    requires b.WellFormed(k) && b.Covers(node.longId) && |Twins(AddNode(b, node, k).0, node)| < k
    ensures Insert(b, node, local, k, now).Done?
    decreases b.hi - b.lo
  {
    var (b1, ok) := AddNode(b, node, k);
    if !ok && MaySplit(b1, local) {
      Refused(b, node, k);
      if b1.lo == b1.hi {
        CountIds(b1.nodes);
        assert Ids(b1.nodes) <= Twins(b1, node);
        SubsetSize(Ids(b1.nodes), Twins(b1, node));
        assert false;
      }
      var h := Half(b1, node.longId, k, now);
      HalfWell(b1, node.longId, k, now);
      TwinsShrink(b1, node, k, now);
      TwinsShrink(h, node, k, now);
      SubsetSize(Twins(AddNode(h, node, k).0, node), Twins(b1, node));
      InsertReturns(h, node, local, k, now);
    }
  }

  /** When `node` comes last after at least k others, it is not among the first k. */
  lemma LastWaits(w: seq<Node>, node: Node, lo: nat, hi: nat, k: nat, now: nat)
    requires NoDup(w + [node]) && k <= |w|
    ensures var h := Filled(lo, hi, w + [node], k, now);
      |h.nodes| == k && node.id !in Ids(h.nodes) && h.repl != [] && h.repl[|h.repl| - 1] == node
  {
    var h := Filled(lo, hi, w + [node], k, now);
    assert h.nodes == w[..k];
    NoDupConcat(w, [node]);
    assert h.repl[|h.repl| - 1] == node;
  }

  lemma TwinsCount(w: seq<Node>, node: Node)
    requires NoDup(w + [node])
    ensures |TwinsIn(w + [node], node)| <= |w|
  {
    NoDupConcat(w, [node]);
    CountIds(w);
    assert TwinsIn(w + [node], node) <= Ids(w);
    SubsetSize(TwinsIn(w + [node], node), Ids(w));
  }

  lemma TwinsWithin(s: seq<Node>, node: Node, lo: nat, hi: int)
    requires lo <= node.longId <= hi
    ensures TwinsIn(Within(s, lo, hi), node) == TwinsIn(s, node)
  {
    WithinMembers(s, lo, hi);
  }

  /** A bucket with k twins of its newest replacement has them all in every part around it, which is full
      again and has it as its newest replacement again. */
  lemma JamStep(b: Bucket, node: Node, lo: nat, hi: nat, k: nat, now: nat)
    requires b.WellFormed(k) && lo <= node.longId <= hi
    requires b.repl != [] && b.repl[|b.repl| - 1] == node && |Twins(b, node)| >= k
    ensures var h := Part(b, lo, hi, k, now);
      && |h.nodes| == k && node.id !in Ids(h.nodes) && h.repl != [] && h.repl[|h.repl| - 1] == node
      && Twins(h, node) == Twins(b, node)
  {
    var rest := b.nodes + b.repl[..|b.repl| - 1];
    assert b.nodes + b.repl == rest + [node];
    var w := Within(rest, lo, hi);
    WithinConcat(rest, [node], lo, hi);
    assert Within(b.nodes + b.repl, lo, hi) == w + [node];
    PartFacts(b, lo, hi, k, now);
    TwinsWithin(b.nodes + b.repl, node, lo, hi);
    TwinsCount(w, node);
    LastWaits(w, node, lo, hi, k, now);
  }

  /** Offering a full bucket its newest replacement again changes nothing. */
  lemma AddAgain(h: Bucket, node: Node, k: nat)
    requires h.WellFormed(k) && |h.nodes| == k && node.id !in Ids(h.nodes)
    requires h.repl != [] && h.repl[|h.repl| - 1] == node
    ensures AddNode(h, node, k) == (h, false)
  {
    var r := h.repl[..|h.repl| - 1];
    assert h.repl == r + [node];
    NoDupConcat(r, [node]);
    WithoutLast(r, node);
  }

  lemma {:induction false} WithoutLast(r: seq<Node>, node: Node)
    requires node.id !in Ids(r)
    ensures Without(r + [node], node.id) == r
  {
    if r != [] {
      assert (r + [node])[1..] == r[1..] + [node];
      WithoutLast(r[1..], node);
    } else {
      assert r + [node] == [node];
    }
  }

  /** A full bucket whose newest replacement has k twins in it. */
  ghost predicate Jammed(h: Bucket, node: Node, k: nat) {
    && h.WellFormed(k) && |h.nodes| == k && node.id !in Ids(h.nodes)
    && h.repl != [] && h.repl[|h.repl| - 1] == node && |Twins(h, node)| >= k
  }

  lemma HalfJams(h: Bucket, node: Node, k: nat, now: nat)
    requires Jammed(h, node, k) && h.Covers(node.longId)
    ensures Jammed(Half(h, node.longId, k, now), node, k)
  {
    HalfWell(h, node.longId, k, now);
    if node.longId <= Midpoint(h) {
      JamStep(h, node, h.lo, Midpoint(h), k, now);
    } else {
      JamStep(h, node, Midpoint(h) + 1, h.hi, k, now);
    }
  }

  /** The bucket may split, and so may the halves around `x` down to a single point. */
  predicate SplitsOn(h: Bucket, x: nat, may: Bucket -> bool, k: nat, now: nat)
    requires h.lo <= h.hi
    decreases h.hi - h.lo
  {
    may(h) && (h.lo == h.hi || SplitsOn(Half(h, x, k, now), x, may, k, now))
  }

  function May(local: nat): Bucket -> bool {
    (b: Bucket) => MaySplit(b, local)
  }

  /** After a refusal, insertion fails to return if the bucket may split and has one point, or the insertion
      into its half does not return. */
  lemma RefusedDiverges(b: Bucket, node: Node, local: nat, k: nat, now: nat)
    requires b.lo <= b.hi && !AddNode(b, node, k).1
    ensures var b1 := AddNode(b, node, k).0;
      Insert(b, node, local, k, now).Diverges? <==>
        && MaySplit(b1, local)
        && (b1.lo == b1.hi || Insert(Half(b1, node.longId, k, now), node, local, k, now).Diverges?)
  {
  }

  lemma {:induction false} JamDiverges(h: Bucket, node: Node, local: nat, k: nat, now: nat)
    requires Jammed(h, node, k) && h.Covers(node.longId)
    ensures Insert(h, node, local, k, now).Diverges? == SplitsOn(h, node.longId, May(local), k, now)
    decreases h.hi - h.lo
  {
    AddAgain(h, node, k);
    RefusedDiverges(h, node, local, k, now);
    if h.lo < h.hi {
      HalfJams(h, node, k, now);
      HalfWell(h, node.longId, k, now);
      JamDiverges(Half(h, node.longId, k, now), node, local, k, now);
    }
  }

  // ---------- The same condition on the bucket before any split

  /** A part of a part is a part of the whole. */
  lemma PartOfPart(b: Bucket, lo: nat, hi: nat, lo': nat, hi': nat, k: nat, now: nat)
    requires b.WellFormed(k) && lo <= lo' && hi' <= hi
    ensures Part(Part(b, lo, hi, k, now), lo', hi', k, now) == Part(b, lo', hi', k, now)
  {
    PartFacts(b, lo, hi, k, now);
    WithinWithin(b.nodes + b.repl, lo, hi, lo', hi');
  }

  lemma HalfOfPart(b: Bucket, lo: nat, hi: nat, x: nat, k: nat, now: nat)
    requires b.WellFormed(k) && lo <= hi
    ensures var mid := lo + (hi - lo) / 2;
      Half(Part(b, lo, hi, k, now), x, k, now) == if x <= mid then Part(b, lo, mid, k, now) else Part(b, mid + 1, hi, k, now)
  {
    var p, mid := Part(b, lo, hi, k, now), lo + (hi - lo) / 2;
    assert p.lo == lo && p.hi == hi && Midpoint(p) == mid;
    if x <= mid {
      PartOfPart(b, lo, hi, lo, mid, k, now);
    } else {
      PartOfPart(b, lo, hi, mid + 1, hi, k, now);
    }
  }

  /** A full bucket filled again from its own contacts is itself, but for the stamp. */
  lemma PartWhole(b: Bucket, k: nat, now: nat)
    requires b.WellFormed(k) && |b.nodes| == k
    ensures Part(b, b.lo, b.hi, k, now) == b.(updated := now)
  {
    WithinAll(b.nodes + b.repl, b.lo, b.hi);
  }

  /** Each block on the way from [lo, hi] by halves down to the point `x` satisfies `p`. */
  predicate AllAround(lo: nat, hi: nat, x: nat, p: (nat, nat) -> bool)
    requires lo <= x <= hi
    decreases hi - lo
  {
    && p(lo, hi)
    && (lo == hi ||
        var mid := lo + (hi - lo) / 2;
        if x <= mid then AllAround(lo, mid, x, p) else AllAround(mid + 1, hi, x, p))
  }

  /** `q` of a block around `x` is `p` of it and `q` of the next smaller one. */
  predicate StepsDown(p: (nat, nat) -> bool, q: (nat, nat) -> bool, x: nat, lo: nat, hi: nat)
    requires lo <= hi
  {
    var mid := lo + (hi - lo) / 2;
    q(lo, hi) == (p(lo, hi) && (lo == hi || if x <= mid then q(lo, mid) else q(mid + 1, hi)))
  }

  ghost predicate GoesDown(p: (nat, nat) -> bool, q: (nat, nat) -> bool, x: nat) {
    forall lo: nat, hi: nat | lo <= x <= hi :: StepsDown(p, q, x, lo, hi)
  }

  lemma {:induction false} AroundIs(lo: nat, hi: nat, x: nat, p: (nat, nat) -> bool, q: (nat, nat) -> bool)
    requires lo <= x <= hi && GoesDown(p, q, x)
    ensures q(lo, hi) == AllAround(lo, hi, x, p)
    decreases hi - lo
  {
    assert StepsDown(p, q, x, lo, hi);
    if lo < hi {
      var mid := lo + (hi - lo) / 2;
      if x <= mid {
        AroundIs(lo, mid, x, p, q);
      } else {
        AroundIs(mid + 1, hi, x, p, q);
      }
    }
  }

  /** Every block of the bucket's range around `x`, filled with the bucket's contacts that belong there,
      may split. */
  predicate SplitsDown(b: Bucket, x: nat, local: nat, k: nat, now: nat)
    requires b.Covers(x)
  {
    AllAround(b.lo, b.hi, x, OfBlock(b, May(local), k, now))
  }

  function OfBlock(b: Bucket, may: Bucket -> bool, k: nat, now: nat): (nat, nat) -> bool {
    (lo: nat, hi: nat) => may(Part(b, lo, hi, k, now))
  }

  function BlockSplitsOn(b: Bucket, x: nat, may: Bucket -> bool, k: nat, now: nat): (nat, nat) -> bool {
    (lo: nat, hi: nat) => lo <= hi && SplitsOn(Part(b, lo, hi, k, now), x, may, k, now)
  }

  lemma SplitsOnStep(h: Bucket, half: Bucket, x: nat, may: Bucket -> bool, k: nat, now: nat)
    requires h.lo <= h.hi && half == Half(h, x, k, now)
    ensures SplitsOn(h, x, may, k, now) == (may(h) && (h.lo == h.hi || SplitsOn(half, x, may, k, now)))
  {
  }

  lemma AtBlock(b: Bucket, x: nat, may: Bucket -> bool, k: nat, now: nat, lo: nat, hi: nat, h: Bucket)
    requires lo <= hi && h == Part(b, lo, hi, k, now)
    ensures OfBlock(b, may, k, now)(lo, hi) == may(h)
    ensures BlockSplitsOn(b, x, may, k, now)(lo, hi) == SplitsOn(h, x, may, k, now)
  {
  }

  lemma BlockGoesDown(b: Bucket, x: nat, may: Bucket -> bool, k: nat, now: nat, lo: nat, hi: nat,
                      p: (nat, nat) -> bool, q: (nat, nat) -> bool)
    requires b.WellFormed(k) && lo <= x <= hi
    requires p == OfBlock(b, may, k, now) && q == BlockSplitsOn(b, x, may, k, now)
    ensures StepsDown(p, q, x, lo, hi)
  {
    var h, mid := Part(b, lo, hi, k, now), lo + (hi - lo) / 2;
    var half := Half(h, x, k, now);
    HalfOfPart(b, lo, hi, x, k, now);
    SplitsOnStep(h, half, x, may, k, now);
    AtBlock(b, x, may, k, now, lo, hi, h);
    if lo < hi {
      if x <= mid {
        AtBlock(b, x, may, k, now, lo, mid, half);
      } else {
        AtBlock(b, x, may, k, now, mid + 1, hi, half);
      }
    }
  }

  lemma BlocksGoDown(b: Bucket, x: nat, may: Bucket -> bool, k: nat, now: nat)
    requires b.WellFormed(k)
    ensures GoesDown(OfBlock(b, may, k, now), BlockSplitsOn(b, x, may, k, now), x)
  {
    forall lo: nat, hi: nat | lo <= x <= hi
      ensures StepsDown(OfBlock(b, may, k, now), BlockSplitsOn(b, x, may, k, now), x, lo, hi)
    {
      BlockGoesDown(b, x, may, k, now, lo, hi, OfBlock(b, may, k, now), BlockSplitsOn(b, x, may, k, now));
    }
  }

  /** The stamp does not matter to the halves. */
  lemma SameHalf(b: Bucket, x: nat, k: nat, now: nat)
    requires b.lo <= b.hi
    ensures Half(b.(updated := now), x, k, now) == Half(b, x, k, now)
  {
  }

  lemma SameSplits(b: Bucket, x: nat, may: Bucket -> bool, k: nat, now: nat)
    requires b.WellFormed(k) && |b.nodes| == k && b.Covers(x) && may(b.(updated := now)) == may(b)
    ensures SplitsOn(b, x, may, k, now) == AllAround(b.lo, b.hi, x, OfBlock(b, may, k, now))
  {
    var h := b.(updated := now);
    PartWhole(b, k, now);
    SameHalf(b, x, k, now);
    SplitsOnStep(b, Half(b, x, k, now), x, may, k, now);
    SplitsOnStep(h, Half(b, x, k, now), x, may, k, now);
    BlocksGoDown(b, x, may, k, now);
    AroundIs(b.lo, b.hi, x, OfBlock(b, may, k, now), BlockSplitsOn(b, x, may, k, now));
  }

  /** Insertion fails to return exactly when the contact is refused, k others share its folded identifier,
      and every block around it down to its point may split. */
  lemma InsertJams(b: Bucket, node: Node, local: nat, k: nat, now: nat)
    requires k >= 1 && b.WellFormed(k) && b.Covers(node.longId)
    ensures var (b1, ok) := AddNode(b, node, k);
      Insert(b, node, local, k, now).Diverges? <==>
        !ok && |Twins(b1, node)| >= k && SplitsDown(b1, node.longId, local, k, now)
  {
    var (b1, ok) := AddNode(b, node, k);
    if !ok {
      Refused(b, node, k);
      if |Twins(b1, node)| < k {
        InsertReturns(b, node, local, k, now);
      } else {
        AddRefuses(b, node, k);
        InsertTwice(b, node, local, k, now);
        JamDiverges(b1, node, local, k, now);
        SameSplits(b1, node.longId, May(local), k, now);
      }
    }
  }

  /** Inserting into the bucket after the refusal goes the same way. */
  lemma InsertTwice(b: Bucket, node: Node, local: nat, k: nat, now: nat)
    requires b.lo <= b.hi && b.Covers(node.longId) && !AddNode(b, node, k).1 && Jammed(AddNode(b, node, k).0, node, k)
    requires var b1 := AddNode(b, node, k).0; b1.lo == b.lo && b1.hi == b.hi
    ensures var b1 := AddNode(b, node, k).0;
      Insert(b, node, local, k, now).Diverges? == Insert(b1, node, local, k, now).Diverges?
  {
    var b1 := AddNode(b, node, k).0;
    AddAgain(b1, node, k);
    RefusedDiverges(b, node, local, k, now);
    RefusedDiverges(b1, node, local, k, now);
  }

  lemma {:induction false} AroundTrue(lo: nat, hi: nat, x: nat, p: (nat, nat) -> bool)
    requires lo <= x <= hi && forall l: nat, h: nat | l <= x <= h :: p(l, h)
    ensures AllAround(lo, hi, x, p)
    decreases hi - lo
  {
    if lo < hi {
      var mid := lo + (hi - lo) / 2;
      if x <= mid {
        AroundTrue(lo, mid, x, p);
      } else {
        AroundTrue(mid + 1, hi, x, p);
      }
    }
  }

  /** At the owner's own point every block around it may split. */
  lemma OwnPointSplits(b: Bucket, x: nat, k: nat, now: nat)
    requires b.Covers(x)
    ensures SplitsDown(b, x, x, k, now)
  {
    var p := OfBlock(b, May(x), k, now);
    forall lo: nat, hi: nat | lo <= x <= hi ensures p(lo, hi) {
      assert Part(b, lo, hi, k, now).Covers(x);
    }
    AroundTrue(b.lo, b.hi, x, p);
  }

  // ---------- A single point

  /** A full bucket of one point is its own lower half. */
  lemma OnePointHalf(b: Bucket, x: nat, k: nat, now: nat)
    requires b.WellFormed(k) && |b.nodes| == k && b.lo == b.hi == x
    ensures Half(b, x, k, now) == b.(updated := now)
  {
    PartWhole(b, k, now);
  }

  /** After a refusal, a full bucket of one point is met again unchanged, but for the stamp. */
  lemma OnePointStays(b: Bucket, node: Node, k: nat, now: nat)
    requires b.WellFormed(k) && |b.nodes| == k && b.lo == b.hi == node.longId && node.id !in Ids(b.nodes)
    requires b.repl != [] && b.repl[|b.repl| - 1] == node
    ensures var h := b.(updated := now);
      AddNode(h, node, k) == (h, false) && Half(b, node.longId, k, now) == h && Half(h, node.longId, k, now) == h
  {
    var h := b.(updated := now);
    assert h.WellFormed(k);
    OnePointHalf(b, node.longId, k, now);
    OnePointHalf(h, node.longId, k, now);
    AddAgain(h, node, k);
  }
}

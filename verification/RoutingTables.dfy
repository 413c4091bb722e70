/** The routing table as the program keeps it: a row of bucket objects that splits in place. */
module RoutingTables {
  import opened Bits
  import opened Nodes
  import opened Buckets
  import opened Insertion
  import opened KBuckets
  import Table
  import Neighbors

  /** The table after the bucket around `x` became `b` and was split. */
  ghost function AfterSplit(bs: seq<Bucket>, i: nat, b: Bucket, k: nat, now: nat): seq<Bucket>
    requires i < |bs| && b.lo <= b.hi
  {
    Table.Splice(bs, i, [LowHalf(b, k, now), HighHalf(b, k, now)])
  }

  lemma AfterSplitTiles(bs: seq<Bucket>, i: nat, b: Bucket, k: nat, now: nat, top: nat)
    requires Tiles(bs, 0, top) && AllWell(bs, k)
    requires i < |bs| && b.WellFormed(k) && b.lo == bs[i].lo && b.hi == bs[i].hi && b.lo < b.hi
    ensures var bs2 := AfterSplit(bs, i, b, k, now); Tiles(bs2, 0, top) && AllWell(bs2, k)
  {
    var row := [LowHalf(b, k, now), HighHalf(b, k, now)];
    assert Tiles(row, b.lo, b.hi);
    Table.SpliceTiles(bs, i, row, 0, top);
    PartWellFormed(b, b.lo, Midpoint(b), k, now);
    PartWellFormed(b, Midpoint(b) + 1, b.hi, k, now);
    SpliceWell(bs, i, row, k);
  }

  lemma SpliceWell(bs: seq<Bucket>, i: nat, row: seq<Bucket>, k: nat)
    requires AllWell(bs, k) && AllWell(row, k) && i < |bs|
    ensures AllWell(Table.Splice(bs, i, row), k)
  {
    forall c | c in Table.Splice(bs, i, row) ensures c.WellFormed(k) {
      assert c in bs || c in row;
    }
  }

  /** After the split the search finds the half around the contact. */
  lemma AfterSplitIndex(bs: seq<Bucket>, i: nat, b: Bucket, x: nat, k: nat, now: nat, top: nat)
    requires i < |bs| && b.lo == bs[i].lo && b.hi == bs[i].hi && b.lo < b.hi && b.Covers(x)
    requires Tiles(bs, 0, top) && Tiles(AfterSplit(bs, i, b, k, now), 0, top) && x <= top
    ensures Table.IndexFor(AfterSplit(bs, i, b, k, now), x) == if x <= Midpoint(b) then i else i + 1
  {
    var bs2, j := AfterSplit(bs, i, b, k, now), if x <= Midpoint(b) then i else i + 1;
    assert bs2[i] == LowHalf(b, k, now) && bs2[i + 1] == HighHalf(b, k, now);
    Table.IndexIs(bs2, 0, top, x);
    assert bs2[j].Covers(x);
  }

  lemma SpliceHalf(bs: seq<Bucket>, i: nat, b: Bucket, x: nat, row: seq<Bucket>, k: nat, now: nat)
    requires i < |bs| && b.lo <= b.hi
    ensures var bs2, j := AfterSplit(bs, i, b, k, now), if x <= Midpoint(b) then i else i + 1;
      bs2[j] == Half(b, x, k, now) && Table.Splice(bs2, j, row) == Table.Splice(bs, i, Rejoin(b, x, row, k, now))
  {
    var low, high := LowHalf(b, k, now), HighHalf(b, k, now);
    var bs2 := AfterSplit(bs, i, b, k, now);
    assert bs2[i] == low && bs2[i + 1] == high;
    if x <= Midpoint(b) {
      assert bs2[..i] == bs[..i];
      assert bs2[i + 1..] == [high] + bs[i + 1..];
    } else {
      assert bs2[..i + 1] == bs[..i] + [low];
      assert bs2[i + 2..] == bs[i + 1..];
    }
  }

  /** Splitting the refused bucket in the table and inserting again is one insertion. */
  lemma SplitThenInsert(bs: seq<Bucket>, node: Node, local: nat, k: nat, now: nat, top: nat)
    requires Tiles(bs, 0, top) && AllWell(bs, k) && node.longId <= top
    requires var b := bs[Table.IndexFor(bs, node.longId)];
      var (b1, ok) := AddNode(b, node, k);
      !ok && MaySplit(b1, local) && Insert(b, node, local, k, now).Done?
    ensures var i := Table.IndexFor(bs, node.longId);
      var b1 := AddNode(bs[i], node, k).0;
      && b1.lo == bs[i].lo && b1.hi == bs[i].hi && b1.lo < b1.hi && b1.WellFormed(k)
      && var bs2 := AfterSplit(bs, i, b1, k, now);
        && Tiles(bs2, 0, top) && AllWell(bs2, k)
        && var r, r2 := Table.InsertContact(bs, node, local, k, now), Table.InsertContact(bs2, node, local, k, now);
          r2.Returned? && r2.buckets == r.buckets && r2.lru == r.lru
  {
    var i := Table.IndexFor(bs, node.longId);
    Table.IndexIs(bs, 0, top, node.longId);
    assert bs[i] in bs;
    var b1 := AddNode(bs[i], node, k).0;
    Refused(bs[i], node, k);
    AfterSplitTiles(bs, i, b1, k, now, top);
    AfterSplitIndex(bs, i, b1, node.longId, k, now, top);
    var r := Insert(Half(b1, node.longId, k, now), node, local, k, now);
    SpliceHalf(bs, i, b1, node.longId, r.buckets, k, now);
  }

  /** The program's table owns its buckets by value: an operation borrows one bucket, changes it as
      an object and puts it back. */
  class RoutingTable {
    const local: Node
    const ksize: nat
    var buckets: seq<Bucket>

    /** The row is a sound tiling of the space up to `top`. */
    ghost predicate Valid(top: nat)
      reads this
    {
      Tiles(buckets, 0, top) && AllWell(buckets, ksize)
    }

    constructor (local: Node, ksize: nat, top: nat, now: nat)
      ensures Valid(top) && this.local == local && this.ksize == ksize
      ensures buckets == [Bucket(0, top, [], [], now)]
    {
      this.local, this.ksize := local, ksize;
      var b := new KBucket(0, top, ksize, now);
      buckets := [b.View()];
    }

    method BucketIndexFor(x: nat) returns (i: nat)
      requires buckets != []
      ensures i < |buckets| && i == Table.IndexFor(buckets, x)
    {
      i := 0;
      while !(buckets[i].lo <= x <= buckets[i].hi)
        invariant i < |buckets|
        invariant Table.IndexFor(buckets, x) == Table.IndexFrom(buckets, x, i)
        decreases |buckets| - i
      {
        if i == |buckets| - 1 {
          break;
        }
        i := i + 1;
      }
    }

    /** Offer a contact to the bucket around it. */
    method TryAdd(node: Node, ghost top: nat) returns (i: nat, ok: bool)
      requires Valid(top) && node.longId <= top
      modifies this
      ensures i < |buckets| && i == old(Table.IndexFor(buckets, node.longId))
      ensures var (b1, fits) := old(AddNode(buckets[i], node, ksize)); ok == fits && buckets == old(buckets)[i := b1]
      ensures Valid(top)
    {
      Table.IndexIs(buckets, 0, top, node.longId);
      i := BucketIndexFor(node.longId);
      assert buckets[i] in buckets;
      var b := new KBucket.Of(buckets[i], ksize);
      ok := b.AddNode(node);
      if ok {
        Accepted(buckets[i], node, ksize);
      } else {
        Refused(buckets[i], node, ksize);
      }
      KeepsValid(buckets, i, b.View(), ksize, top);
      buckets := buckets[i := b.View()];
    }

    /** Replace a bucket by its two halves. The upper half of a single point has no points. */
    method SplitBucket(i: nat, now: nat, ghost top: nat)
      requires Valid(top) && i < |buckets|
      modifies this
      ensures buckets == old(AfterSplit(buckets, i, buckets[i], ksize, now))
      ensures old(buckets[i].lo < buckets[i].hi) ==> Valid(top)
    {
      assert buckets[i] in buckets;
      if buckets[i].lo < buckets[i].hi {
        AfterSplitTiles(buckets, i, buckets[i], ksize, now, top);
      }
      var b := new KBucket.Of(buckets[i], ksize);
      var low, high := b.Split(now);
      buckets := buckets[..i] + [low.View(), high.View()] + buckets[i + 1..];
    }

    /** Insertion as the program runs it: add, else split the full bucket and start over. */
    method Insert(node: Node, now: nat, ghost top: nat) returns (lru: Option<Node>)
      requires Valid(top) && node.longId <= top
      requires Table.InsertContact(buckets, node, local.longId, ksize, now).Returned?
      modifies this
      ensures Valid(top)
      ensures var r := old(Table.InsertContact(buckets, node, local.longId, ksize, now));
        buckets == r.buckets && lru == r.lru
      decreases Width(buckets, node.longId)
    {
      ghost var bs := buckets;
      var i, ok := TryAdd(node, top);
      ghost var b1 := AddNode(bs[i], node, ksize).0;
      assert bs[i := b1] == Table.Splice(bs, i, [b1]);
      if ok {
        return None;
      }
      var b := new KBucket.Of(buckets[i], ksize);
      var depth := b.Depth();
      if b.lo <= local.longId <= b.hi || depth % 5 != 0 {
        SplitThenInsert(bs, node, local.longId, ksize, now, top);
        AfterSplitSame(bs, i, b1, ksize, now);
        Table.IndexIs(bs, 0, top, node.longId);
        NarrowerHalf(bs, i, b1, node.longId, ksize, now, top);
        SplitBucket(i, now, top);
        lru := Insert(node, now, top);
        return;
      }
      return if b.nodes == [] then None else Some(b.nodes[0]);
    }

    /** What every run keeps (see TableRuns), for any fold `f` into a space of `w` bits. */
    ghost predicate Sound(f: Id -> nat, w: nat)
      reads this
    {
      Table.Inv(buckets, local, ksize, f, w)
    }

    method AddContact(node: Node, now: nat, ghost f: Id -> nat, ghost w: nat) returns (lru: Option<Node>)
      requires Sound(f, w) && Table.Offered(node, f, w)
      requires Table.AddContact(buckets, node, local, ksize, now).Returned?
      modifies this
      ensures Sound(f, w)
      ensures var r := old(Table.AddContact(buckets, node, local, ksize, now)); buckets == r.buckets && lru == r.lru
    {
      Table.AddKeepsInv(buckets, node, local, ksize, now, f, w);
      if node.id == local.id {
        return None;
      }
      lru := Insert(node, now, Pow2(w) - 1);
    }

    method RemoveContact(node: Node, ghost f: Id -> nat, ghost w: nat)
      requires Sound(f, w) && Table.Offered(node, f, w)
      modifies this
      ensures Sound(f, w)
      ensures buckets == old(Table.RemoveContact(buckets, node))
      ensures KnownIn(buckets) == old(KnownIn(buckets)) - {node.id}
      ensures exists i :: 0 <= i < |buckets| == |old(buckets)| && old(buckets)[i].Covers(node.longId) &&
                          Removed(old(buckets)[i], node.id, buckets[i]) && buckets == old(buckets)[i := buckets[i]]
    {
      ghost var _ := Table.RemoveInPlace(buckets, node, local, ksize, f, w);
      Table.RemoveKeepsInv(buckets, node, local, ksize, f, w);
      Table.RemoveForgets(buckets, node, local, ksize, f, w);
      var i := BucketIndexFor(node.longId);
      assert buckets[i] in buckets;
      assert buckets[i].WellFormed(ksize);
      var b := new KBucket.Of(buckets[i], ksize);
      b.RemoveNode(node);
      buckets := buckets[i := b.View()];
    }

    /** A node is new exactly when it is not a primary anywhere in the table. */
    method IsNewNode(node: Node, ghost f: Id -> nat, ghost w: nat) returns (fresh_: bool)
      requires Sound(f, w) && Table.Offered(node, f, w)
      ensures fresh_ <==> node.id !in PrimariesIn(buckets)
    {
      var i := BucketIndexFor(node.longId);
      var p := Position(buckets[i].nodes, node.id);
      Table.HomeBucket(buckets, local, ksize, f, w, node.id);
      Table.PrimariesIff(buckets, node.id);
      assert buckets[i] in buckets;
      return p.None?;
    }

    /** The lookup stamps the bucket around the target and answers from the table. */
    method FindNeighbors(target: Node, exclude: Option<Node>, now: nat, ghost f: Id -> nat, ghost w: nat)
      returns (r: seq<Node>)
      requires Sound(f, w)
      modifies this
      ensures Sound(f, w)
      ensures buckets == old(Table.Touch(buckets, target, now))
      ensures Neighbors.IsAnswer(r, old(buckets), target, exclude, ksize)
    {
      Table.TouchKeepsInv(buckets, target, local, ksize, now, f, w);
      r := Neighbors.FindNeighbors(buckets, target, exclude, ksize);
      var i := BucketIndexFor(target.longId);
      buckets := buckets[i := buckets[i].(updated := now)];
    }
  }

  lemma AfterSplitSame(bs: seq<Bucket>, i: nat, b: Bucket, k: nat, now: nat)
    requires i < |bs| && b.lo <= b.hi
    ensures AfterSplit(bs[i := b], i, b, k, now) == AfterSplit(bs, i, b, k, now)
  {
  }

  /** The width of the bucket around a point. */
  ghost function Width(bs: seq<Bucket>, x: nat): nat
    requires bs != [] && forall b | b in bs :: b.lo <= b.hi
  {
    var b := bs[Table.IndexFor(bs, x)];
    b.hi - b.lo
  }

  lemma KeepsValid(bs: seq<Bucket>, i: nat, b: Bucket, k: nat, top: nat)
    requires Tiles(bs, 0, top) && AllWell(bs, k)
    requires i < |bs| && b.WellFormed(k) && b.lo == bs[i].lo && b.hi == bs[i].hi
    ensures Tiles(bs[i := b], 0, top) && AllWell(bs[i := b], k) && bs[i := b] == Table.Splice(bs, i, [b])
  {
  }

  lemma NarrowerHalf(bs: seq<Bucket>, i: nat, b: Bucket, x: nat, k: nat, now: nat, top: nat)
    requires i < |bs| && b.lo == bs[i].lo && b.hi == bs[i].hi && b.lo < b.hi && b.Covers(x)
    requires Tiles(bs, 0, top) && Tiles(AfterSplit(bs, i, b, k, now), 0, top) && x <= top
    requires i == Table.IndexFor(bs, x)
    ensures Width(AfterSplit(bs, i, b, k, now), x) < Width(bs, x)
  {
    AfterSplitIndex(bs, i, b, x, k, now, top);
    SpliceHalf(bs, i, b, x, [], k, now);
  }
}

/** The refresh pass: draw one identifier in every bucket that no lookup touched for an hour, and look
    each of them up while the table goes on changing. */
module Refresh {
  import opened Bits
  import opened Nodes
  import opened Buckets
  import opened Insertion
  import opened Table
  import opened TableRuns

  const LONELY_SECS: nat := 3600

  predicate IsLonely(b: Bucket, now: nat) {
    now > b.updated && now - b.updated > LONELY_SECS
  }

  function Lonely(bs: seq<Bucket>, now: nat): seq<Bucket> {
    if bs == [] then []
    else if IsLonely(bs[0], now) then [bs[0]] + Lonely(bs[1..], now)
    else Lonely(bs[1..], now)
  }

  lemma {:induction false} LonelyMembers(bs: seq<Bucket>, now: nat)
    ensures forall b :: b in Lonely(bs, now) <==> b in bs && IsLonely(b, now)
  {
    if bs != [] {
      LonelyMembers(bs[1..], now);
    }
  }

  /** The 20-byte identifier made of a 16-byte point and four zero bytes. */
  function PointId(r: nat): Id {
    ToBytes(r, 16) + [0, 0, 0, 0]
  }

  /** The identifier folds back to its point. */
  lemma PointFolds(r: nat)
    requires r < Pow2(8 * 16)
    ensures Fold(PointId(r)) == r
  {
    var id: Id := PointId(r);
    assert id[..16] == ToBytes(r, 16);
    assert id[16..] == [0, 0, 0, 0];
    ZeroTail();
    FromToBytes(r, 16);
    XorZero(r);
  }

  lemma ZeroTail()
    ensures Tail([0, 0, 0, 0]) == 0
  {
    ZeroBytes([0, 0, 0, 0]);
  }

  lemma {:induction false} ZeroBytes(s: seq<byte>)
    requires forall i | 0 <= i < |s| :: s[i] == 0
    ensures FromBytes(s) == 0
  {
    if s != [] {
      ZeroBytes(s[..|s| - 1]);
    }
  }

  /** The identifier falls into the range of the bucket. */
  ghost predicate Drawn(id: Id, b: Bucket) {
    b.Covers(Fold(id))
  }

  method DrawIn(b: Bucket) returns (id: Id)
    requires b.lo <= b.hi < Pow2(8 * 16)
    ensures Drawn(id, b)
  {
    var r :| b.lo <= r <= b.hi;
    PointFolds(r);
    id := PointId(r);
  }

  ghost predicate AllDrawn(ids: seq<Id>, l: seq<Bucket>) {
    |ids| == |l| && forall i | 0 <= i < |l| :: Drawn(ids[i], l[i])
  }

  /** One identifier for each lonely bucket, and each folds into the range of its bucket. */
  method GetRefreshIds(bs: seq<Bucket>, now: nat) returns (ids: seq<Id>)
    requires forall b | b in bs :: b.lo <= b.hi < Pow2(8 * 16)
    ensures AllDrawn(ids, Lonely(bs, now))
    ensures Reached(ids, bs, now)
  {
    LonelyMembers(bs, now);
    var l := Lonely(bs, now);
    ids := [];
    for i := 0 to |l|
      invariant AllDrawn(ids, l[..i])
    {
      assert l[i] in bs;
      var id := DrawIn(l[i]);
      OneLonger(l, i);
      DrawnOne(ids, l[..i], id, l[i]);
      ids := ids + [id];
    }
    assert l[..|l|] == l;
    DrawnExactly(ids, l, bs, now);
  }

  /** No lookup has touched the bucket for more than an hour. */
  predicate Neglected(b: Bucket, now: nat) {
    now > b.updated + 3600
  }

  /** Every neglected bucket has an identifier in its range, and every identifier is in the range of one. */
  ghost predicate Reached(ids: seq<Id>, bs: seq<Bucket>, now: nat) {
    && (forall b | b in bs && Neglected(b, now) :: exists id :: id in ids && Drawn(id, b))
    && (forall id | id in ids :: exists b :: b in bs && Neglected(b, now) && Drawn(id, b))
  }

  lemma DrawnExactly(ids: seq<Id>, l: seq<Bucket>, bs: seq<Bucket>, now: nat)
    requires AllDrawn(ids, l) && l == Lonely(bs, now)
    ensures Reached(ids, bs, now)
  {
    LonelyMembers(bs, now);
    forall b | b in bs && Neglected(b, now) ensures exists id :: id in ids && Drawn(id, b) {
      assert b in l;
      var i :| 0 <= i < |l| && l[i] == b;
      assert ids[i] in ids && Drawn(ids[i], l[i]);
    }
    forall id | id in ids ensures exists b :: b in bs && Neglected(b, now) && Drawn(id, b) {
      var i :| 0 <= i < |ids| && ids[i] == id;
      assert l[i] in l && IsLonely(l[i], now) && Neglected(l[i], now) && Drawn(ids[i], l[i]);
    }
  }

  lemma OneLonger<T>(s: seq<T>, i: nat)
    requires i < |s|
    ensures s[..i + 1] == s[..i] + [s[i]]
  {
  }

  lemma DrawnOne(ids: seq<Id>, l: seq<Bucket>, id: Id, b: Bucket)
    requires AllDrawn(ids, l) && Drawn(id, b)
    ensures AllDrawn(ids + [id], l + [b])
  {
  }

  // ---------- Looking the identifiers up while the table changes

  predicate Inside(c: Bucket, b: Bucket) {
    b.lo <= c.lo && c.hi <= b.hi
  }

  predicate Disjoint(c: Bucket, b: Bucket) {
    c.hi < b.lo || b.hi < c.lo
  }

  /** Every bucket that covers a point of `b` lies inside `b` and was stamped at or after `t`. */
  ghost predicate Renewed(bs: seq<Bucket>, b: Bucket, t: nat) {
    forall c | c in bs :: Disjoint(c, b) || (Inside(c, b) && c.updated >= t)
  }

  ghost predicate Whole(bs: seq<Bucket>, b: Bucket) {
    exists c :: c in bs && c.lo == b.lo && c.hi == b.hi
  }

  /** The clock of the operations never runs before `t`. */
  ghost predicate Since(op: Op, t: nat) {
    !op.Remove? ==> op.now >= t
  }

  ghost predicate Hits(op: Op, b: Bucket) {
    op.Lookup? && b.Covers(op.target.longId)
  }

  /** One bucket became a row of buckets for the same range: the same stamp on one bucket, or stamps
      from `t` on. */
  ghost predicate Restamped(b: Bucket, row: seq<Bucket>, t: nat) {
    || (|row| == 1 && row[0].lo == b.lo && row[0].hi == b.hi && row[0].updated == b.updated)
    || (forall c | c in row :: c.updated >= t)
  }

  lemma SpliceRenewed(bs: seq<Bucket>, i: nat, row: seq<Bucket>, b: Bucket, t: nat, hi: nat)
    requires Tiles(bs, 0, hi) && i < |bs| && Restamped(bs[i], row, t) && Tiles(row, bs[i].lo, bs[i].hi)
    requires Whole(bs, b) || Renewed(bs, b, t)
    ensures var bs' := Splice(bs, i, row);
      (Whole(bs', b) || Renewed(bs', b, t)) && (Renewed(bs, b, t) ==> Renewed(bs', b, t))
  {
    var bs' := Splice(bs, i, row);
    assert bs[i] in bs;
    if Renewed(bs, b, t) {
      forall c | c in bs' ensures Disjoint(c, b) || (Inside(c, b) && c.updated >= t) {
        if c in row {
          RowInside(row, bs[i], c);
        } else {
          assert c in bs;
        }
      }
    } else {
      var c0 :| c0 in bs && c0.lo == b.lo && c0.hi == b.hi;
      if c0 != bs[i] {
        var j :| 0 <= j < |bs| && bs[j] == c0;
        assert c0 in bs';
      } else if |row| == 1 && row[0].lo == b.lo && row[0].hi == b.hi {
        assert row[0] in bs';
      } else {
        forall c | c in bs' ensures Disjoint(c, b) || (Inside(c, b) && c.updated >= t) {
          if c in row {
            RowInside(row, bs[i], c);
          } else {
            OthersOutside(bs, i, b, c, hi);
          }
        }
      }
    }
  }

  lemma RowInside(row: seq<Bucket>, b: Bucket, c: Bucket)
    requires Tiles(row, b.lo, b.hi) && c in row
    ensures Inside(c, b)
  {
    var j :| 0 <= j < |row| && row[j] == c;
    if 0 < j {
      TilesOrder(row, b.lo, b.hi, 0, j);
    }
    if j < |row| - 1 {
      TilesOrder(row, b.lo, b.hi, j, |row| - 1);
    }
  }

  lemma OthersOutside(bs: seq<Bucket>, i: nat, b: Bucket, c: Bucket, hi: nat)
    requires Tiles(bs, 0, hi) && i < |bs| && bs[i].lo == b.lo && bs[i].hi == b.hi
    requires c in bs[..i] || c in bs[i + 1..]
    ensures Disjoint(c, b)
  {
    var j :| 0 <= j < |bs| && j != i && bs[j] == c;
    if i < j {
      TilesOrder(bs, 0, hi, i, j);
    } else {
      TilesOrder(bs, 0, hi, j, i);
    }
  }

  lemma InsertRestamps(b: Bucket, node: Node, local: nat, k: nat, now: nat, t: nat)
    requires b.WellFormed(k) && b.Covers(node.longId) && Insert(b, node, local, k, now).Done? && now >= t
    ensures Restamped(b, Insert(b, node, local, k, now).buckets, t)
  {
    var r := Insert(b, node, local, k, now);
    forall c | c in r.buckets ensures c.updated == if r.splits == 0 then b.updated else now {
      InsertStamps(b, node, local, k, now, c);
    }
    InsertWell(b, node, local, k, now);
    if r.splits == 0 {
      assert r.buckets == [AddNode(b, node, k).0];
      assert r.buckets[0] in r.buckets;
    }
  }

  lemma AddRenewed(bs: seq<Bucket>, node: Node, local: nat, k: nat, now: nat, b: Bucket, t: nat, hi: nat)
    requires Tiles(bs, 0, hi) && AllWell(bs, k) && node.longId <= hi && now >= t
    requires InsertContact(bs, node, local, k, now).Returned?
    requires Whole(bs, b) || Renewed(bs, b, t)
    ensures var bs' := InsertContact(bs, node, local, k, now).buckets;
      (Whole(bs', b) || Renewed(bs', b, t)) && (Renewed(bs, b, t) ==> Renewed(bs', b, t))
  {
    var i := IndexFor(bs, node.longId);
    IndexIs(bs, 0, hi, node.longId);
    assert bs[i] in bs;
    InsertWell(bs[i], node, local, k, now);
    InsertRestamps(bs[i], node, local, k, now, t);
    SpliceRenewed(bs, i, Insert(bs[i], node, local, k, now).buckets, b, t, hi);
  }

  lemma ReplaceRenewed(bs: seq<Bucket>, i: nat, c: Bucket, b: Bucket, t: nat, hi: nat)
    requires Tiles(bs, 0, hi) && i < |bs| && c.lo == bs[i].lo && c.hi == bs[i].hi
    requires c.updated == bs[i].updated || c.updated >= t
    requires Whole(bs, b) || Renewed(bs, b, t)
    ensures var bs' := bs[i := c];
      (Whole(bs', b) || Renewed(bs', b, t)) && (Renewed(bs, b, t) ==> Renewed(bs', b, t))
  {
    assert bs[i := c] == Splice(bs, i, [c]);
    SpliceRenewed(bs, i, [c], b, t, hi);
  }

  /** A step keeps a renewed range renewed and a whole bucket whole or its parts renewed; a lookup
      into the range renews it. */
  lemma StepRenewed(c: Config, bs: seq<Bucket>, op: Op, bs': seq<Bucket>, b: Bucket, t: nat)
    requires c.k >= 1 && Inv(bs, c.local, c.k, c.f, c.w) && Next(c, bs, op, bs') && Since(op, t)
    requires Whole(bs, b) || Renewed(bs, b, t)
    ensures Whole(bs', b) || Renewed(bs', b, t)
    ensures Renewed(bs, b, t) || Hits(op, b) ==> Renewed(bs', b, t)
  {
    var hi := Pow2(c.w) - 1;
    match op
    case Add(node, now) =>
      if node.id != c.local.id {
        AddRenewed(bs, node, c.local.longId, c.k, now, b, t, hi);
      }
    case Remove(node) =>
      var i := IndexFor(bs, node.longId);
      ReplaceRenewed(bs, i, RemoveNode(bs[i], node.id), b, t, hi);
    case Lookup(target, now) =>
      var i := IndexFor(bs, target.longId);
      ReplaceRenewed(bs, i, bs[i].(updated := now), b, t, hi);
      if Hits(op, b) && !Renewed(bs, b, t) {
        LookupRenews(bs, target, now, b, t, hi);
      }
  }

  lemma LookupRenews(bs: seq<Bucket>, target: Node, now: nat, b: Bucket, t: nat, hi: nat)
    requires Tiles(bs, 0, hi) && Whole(bs, b) && b.Covers(target.longId) && now >= t
    ensures Renewed(Touch(bs, target, now), b, t)
  {
    var c0 :| c0 in bs && c0.lo == b.lo && c0.hi == b.hi;
    var j :| 0 <= j < |bs| && bs[j] == c0;
    if j < |bs| - 1 {
      TilesOrder(bs, 0, hi, j, |bs| - 1);
    }
    IndexIs(bs, 0, hi, target.longId);
    var i := IndexFor(bs, target.longId);
    assert i == j;
    var bs' := Touch(bs, target, now);
    forall c | c in bs' ensures Disjoint(c, b) || (Inside(c, b) && c.updated >= t) {
      if c != bs'[i] {
        var m :| 0 <= m < |bs'| && bs'[m] == c;
        OthersOutside(bs, i, b, bs[m], hi);
      }
    }
  }

  /** Once a lookup has hit the range of a bucket, everything over the range is renewed, whatever else
      happens to the table before and after. */
  lemma {:induction false} PathRenewed(c: Config, bs0: seq<Bucket>, ops: seq<Op>, bs: seq<Bucket>, b: Bucket, t: nat)
    requires c.k >= 1 && Inv(bs0, c.local, c.k, c.f, c.w) && Path(c, bs0, ops, bs) && b in bs0
    requires forall op | op in ops :: Since(op, t)
    ensures Whole(bs, b) || Renewed(bs, b, t)
    ensures (exists op :: op in ops && Hits(op, b)) ==> Renewed(bs, b, t)
  {
    if ops != [] {
      var last := |ops| - 1;
      var mid :| Path(c, bs0, ops[..last], mid) && Next(c, mid, ops[last], bs);
      PathSafe(c, bs0, ops[..last], mid);
      PathRenewed(c, bs0, ops[..last], mid, b, t);
      StepRenewed(c, mid, ops[last], bs, b, t);
      HitsSplit(ops, b);
    }
  }

  lemma HitsSplit(ops: seq<Op>, b: Bucket)
    requires ops != []
    ensures var last := |ops| - 1;
      (exists op :: op in ops && Hits(op, b)) ==>
        (exists op :: op in ops[..last] && Hits(op, b)) || Hits(ops[last], b)
  {
    var last := |ops| - 1;
    assert forall op | op in ops :: op in ops[..last] || op == ops[last];
  }

  ghost predicate LookedUp(id: Id, ops: seq<Op>) {
    exists op :: op in ops && op.Lookup? && op.target.longId == Fold(id)
  }

  lemma LookupHits(id: Id, ops: seq<Op>, b: Bucket)
    requires Drawn(id, b) && LookedUp(id, ops)
    ensures exists op :: op in ops && Hits(op, b)
  {
    var op :| op in ops && op.Lookup? && op.target.longId == Fold(id);
    assert Hits(op, b);
  }

  /** A refresh pass reaches every lonely bucket: when every drawn identifier has been looked up, every
      bucket over any point of a range that was lonely at the draw lies inside that range and has a stamp
      from the draw or later, even if buckets split and contacts came and went in between. */
  lemma RefreshReaches(c: Config, bs0: seq<Bucket>, t: nat, ids: seq<Id>, ops: seq<Op>, bs: seq<Bucket>, b: Bucket)
    requires c.k >= 1 && Inv(bs0, c.local, c.k, c.f, c.w) && Path(c, bs0, ops, bs)
    requires AllDrawn(ids, Lonely(bs0, t))
    requires forall op | op in ops :: Since(op, t)
    requires forall id | id in ids :: LookedUp(id, ops)
    requires b in bs0 && IsLonely(b, t)
    ensures Renewed(bs, b, t)
    ensures forall d, now: nat | d in bs && !Disjoint(d, b) && now <= t + LONELY_SECS :: !IsLonely(d, now)
  {
    LonelyMembers(bs0, t);
    var l := Lonely(bs0, t);
    var i :| 0 <= i < |l| && l[i] == b;
    LookupHits(ids[i], ops, b);
    PathRenewed(c, bs0, ops, bs, b, t);
  }
}

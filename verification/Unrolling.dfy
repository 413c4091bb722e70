/** The recursion of an insertion over the bucket vector, call by call, without the answer that it never
    returns. */
module Unrolling {
  import opened Bits
  import opened Nodes
  import opened Contacts
  import opened Buckets
  import opened Insertion
  import opened Table
  import opened RoutingTables

  /** The search for a point ends in a bucket that covers it. */
  ghost predicate Found(bs: seq<Bucket>, x: nat) {
    bs != [] && bs[IndexFor(bs, x)].Covers(x)
  }

  lemma FoundIf(bs: seq<Bucket>, x: nat, j: nat)
    requires j < |bs| && bs[j].Covers(x)
    ensures Found(bs, x)
  {
  }

  /** After a split, one of the halves covers the point. */
  lemma FoundAfterSplit(bs: seq<Bucket>, b: Bucket, x: nat, k: nat, now: nat)
    requires Found(bs, x) && b.Covers(x)
    ensures Found(AfterSplit(bs, IndexFor(bs, x), b, k, now), x)
  {
    var i := IndexFor(bs, x);
    var bs2 := AfterSplit(bs, i, b, k, now);
    assert bs2[i] == LowHalf(b, k, now) && bs2[i + 1] == HighHalf(b, k, now);
    FoundIf(bs2, x, if x <= Midpoint(b) then i else i + 1);
  }

  /** The first `fuel` calls of the program's recursion; `None` if they do not come to an end. Each call finds the
      bucket, adds, and after a refusal splits the bucket in the vector and starts over. */
  ghost function Unroll(bs: seq<Bucket>, node: Node, local: nat, k: nat, now: nat, fuel: nat): Option<Result>
    requires Found(bs, node.longId)
    decreases fuel
  {
    if fuel == 0 then None
    else
      var i := IndexFor(bs, node.longId);
      var (b1, ok) := AddNode(bs[i], node, k);
      if ok then Some(Returned(Splice(bs, i, [b1]), None, 0))
      else if !MaySplit(b1, local) then Some(Returned(Splice(bs, i, [b1]), Head(b1.nodes), 0))
      else
        FoundAfterSplit(bs, b1, node.longId, k, now);
        Later(Unroll(AfterSplit(bs, i, b1, k, now), node, local, k, now, fuel - 1))
  }

  /** One more split than the rest of the recursion makes. */
  function Later(r: Option<Result>): Option<Result> {
    if r.None? || r.value.NoReturn? then None else Some(r.value.(splits := r.value.splits + 1))
  }

  // ---------- A full bucket of one point is met again and again

  /** The first bucket around the contact's point is `h`, which refuses it, may split and is its own lower half. */
  ghost predicate Trapped(bs: seq<Bucket>, i: nat, h: Bucket, node: Node, local: nat, k: nat, now: nat) {
    && i < |bs| && bs[i] == h && (forall j | 0 <= j < i :: !bs[j].Covers(node.longId))
    && h.lo == h.hi == node.longId && AddNode(h, node, k) == (h, false) && MaySplit(h, local)
    && LowHalf(h, k, now) == h
  }

  lemma TrappedIndex(bs: seq<Bucket>, i: nat, h: Bucket, node: Node, local: nat, k: nat, now: nat)
    requires Trapped(bs, i, h, node, local, k, now)
    ensures Found(bs, node.longId) && IndexFor(bs, node.longId) == i
  {
    FoundIf(bs, node.longId, i);
  }

  lemma TrappedAgain(bs: seq<Bucket>, i: nat, h: Bucket, node: Node, local: nat, k: nat, now: nat)
    requires Trapped(bs, i, h, node, local, k, now)
    ensures Trapped(AfterSplit(bs, i, h, k, now), i, h, node, local, k, now)
  {
    var bs2 := AfterSplit(bs, i, h, k, now);
    assert bs2[i] == h && forall j | 0 <= j < i :: bs2[j] == bs[j];
  }

  lemma {:induction false} TrappedForever(bs: seq<Bucket>, i: nat, h: Bucket, node: Node, local: nat, k: nat, now: nat, fuel: nat)
    requires Trapped(bs, i, h, node, local, k, now)
    ensures Found(bs, node.longId) && Unroll(bs, node, local, k, now, fuel).None?
    decreases fuel
  {
    TrappedIndex(bs, i, h, node, local, k, now);
    if fuel > 0 {
      TrappedAgain(bs, i, h, node, local, k, now);
      TrappedForever(AfterSplit(bs, i, h, k, now), i, h, node, local, k, now, fuel - 1);
    }
  }

  /** A jam at a single point is a trap after the next split. */
  lemma IntoTheTrap(bs: seq<Bucket>, i: nat, b1: Bucket, node: Node, local: nat, k: nat, now: nat)
    requires i < |bs| && (forall j | 0 <= j < i :: !bs[j].Covers(node.longId)) && MaySplit(b1, local)
    requires b1.WellFormed(k) && |b1.nodes| == k && b1.lo == b1.hi == node.longId && node.id !in Ids(b1.nodes)
    requires b1.repl != [] && b1.repl[|b1.repl| - 1] == node
    ensures Trapped(AfterSplit(bs, i, b1, k, now), i, b1.(updated := now), node, local, k, now)
  {
    var h, bs2 := b1.(updated := now), AfterSplit(bs, i, b1, k, now);
    OnePointStays(b1, node, k, now);
    assert bs2[i] == LowHalf(b1, k, now) && forall j | 0 <= j < i :: bs2[j] == bs[j];
  }

  // ---------- The recursion is the insertion on values

  lemma AtTheBucket(bs: seq<Bucket>, x: nat, k: nat, top: nat)
    requires Tiles(bs, 0, top) && AllWell(bs, k) && x <= top
    ensures var i := IndexFor(bs, x);
      Found(bs, x) && bs[i].WellFormed(k) && forall j | 0 <= j < i :: !bs[j].Covers(x)
  {
    IndexIs(bs, 0, top, x);
    assert bs[IndexFor(bs, x)] in bs;
  }

  /** After a refusal and a split, an insertion is the insertion into the half, rejoined. */
  lemma InsertSplit(b: Bucket, b1: Bucket, node: Node, local: nat, k: nat, now: nat)
    requires b.lo <= b.hi && AddNode(b, node, k) == (b1, false) && MaySplit(b1, local) && b1.lo < b1.hi
    ensures var r, h := Insert(b, node, local, k, now), Insert(Half(b1, node.longId, k, now), node, local, k, now);
      if h.Diverges? then r == Diverges
      else r == Done(Rejoin(b1, node.longId, h.buckets, k, now), h.lru, h.splits + 1)
  {
  }

  /** The insertion into a table, for the bucket around the contact and its own result. */
  lemma InsertAt(bs: seq<Bucket>, i: nat, b: Bucket, node: Node, local: nat, k: nat, now: nat)
    requires bs != [] && (forall c | c in bs :: c.lo <= c.hi) && i == IndexFor(bs, node.longId) && b == bs[i]
    ensures b.lo <= b.hi
    ensures var r := Insert(b, node, local, k, now);
      InsertContact(bs, node, local, k, now) == if r.Diverges? then NoReturn else Returned(Splice(bs, i, r.buckets), r.lru, r.splits)
  {
    assert bs[i] in bs;
  }

  lemma Ranges(bs: seq<Bucket>, top: nat)
    requires Tiles(bs, 0, top)
    ensures bs != [] && forall b | b in bs :: b.lo <= b.hi
  {
  }

  /** The table after a refusal and a split: a tiling, whose bucket around the contact is the half. */
  lemma SplitTable(bs: seq<Bucket>, i: nat, b1: Bucket, node: Node, k: nat, now: nat, top: nat) returns (j: nat)
    requires Tiles(bs, 0, top) && AllWell(bs, k) && node.longId <= top && i == IndexFor(bs, node.longId)
    requires AddNode(bs[i], node, k) == (b1, false) && bs[i].lo < bs[i].hi && bs[i].Covers(node.longId)
    ensures b1.lo == bs[i].lo && b1.hi == bs[i].hi && b1.WellFormed(k)
    ensures var bs2 := AfterSplit(bs, i, b1, k, now);
      && Tiles(bs2, 0, top) && AllWell(bs2, k)
      && j < |bs2| && j == IndexFor(bs2, node.longId) && bs2[j] == Half(b1, node.longId, k, now)
      && j == if node.longId <= Midpoint(b1) then i else i + 1
  {
    AtTheBucket(bs, node.longId, k, top);
    Refused(bs[i], node, k);
    AfterSplitTiles(bs, i, b1, k, now, top);
    AfterSplitIndex(bs, i, b1, node.longId, k, now, top);
    SpliceHalf(bs, i, b1, node.longId, [], k, now);
    j := if node.longId <= Midpoint(b1) then i else i + 1;
  }

  /** Two results that differ by one split. */
  predicate OneMore(r: Result, r2: Result) {
    if r2.NoReturn? then r.NoReturn? else r == Returned(r2.buckets, r2.lru, r2.splits + 1)
  }

  /** The insertion into the table after a split makes one split less. */
  lemma SplitStep(bs: seq<Bucket>, i: nat, b1: Bucket, node: Node, local: nat, k: nat, now: nat, top: nat)
    requires Tiles(bs, 0, top) && AllWell(bs, k) && node.longId <= top && i == IndexFor(bs, node.longId)
    requires AddNode(bs[i], node, k) == (b1, false) && bs[i].lo < bs[i].hi && bs[i].Covers(node.longId) && MaySplit(b1, local)
    ensures b1.lo <= b1.hi
    ensures var bs2 := AfterSplit(bs, i, b1, k, now);
      && Tiles(bs2, 0, top) && AllWell(bs2, k)
      && OneMore(InsertContact(bs, node, local, k, now), InsertContact(bs2, node, local, k, now))
  {
    var j := SplitTable(bs, i, b1, node, k, now, top);
    var bs2, half := AfterSplit(bs, i, b1, k, now), Half(b1, node.longId, k, now);
    Ranges(bs, top);
    Ranges(bs2, top);
    InsertAt(bs, i, bs[i], node, local, k, now);
    InsertAt(bs2, j, half, node, local, k, now);
    InsertSplit(bs[i], b1, node, local, k, now);
    var h := Insert(half, node, local, k, now);
    if h.Done? {
      SpliceHalf(bs, i, b1, node.longId, h.buckets, k, now);
    }
  }

  /** What the recursion has come to after `fuel` calls, for an insertion with this result. */
  function Within(r: Result, fuel: nat): Option<Result> {
    if r.Returned? && r.splits < fuel then Some(r) else None
  }

  lemma WithinLater(r: Result, r2: Result, fuel: nat)
    requires OneMore(r, r2) && fuel > 0
    ensures Within(r, fuel) == Later(Within(r2, fuel - 1))
  {
  }

  /** Without a split the recursion ends at once. */
  lemma EndsAtOnce(bs: seq<Bucket>, node: Node, local: nat, k: nat, now: nat, top: nat, fuel: nat)
    requires Tiles(bs, 0, top) && AllWell(bs, k) && node.longId <= top && Found(bs, node.longId) && fuel > 0
    requires var (b1, ok) := AddNode(bs[IndexFor(bs, node.longId)], node, k); ok || !MaySplit(b1, local)
    ensures Unroll(bs, node, local, k, now, fuel) == Within(InsertContact(bs, node, local, k, now), fuel)
  {
    Ranges(bs, top);
    InsertAt(bs, IndexFor(bs, node.longId), bs[IndexFor(bs, node.longId)], node, local, k, now);
  }

  /** A call that splits a single point is lost. */
  lemma LostAtAPoint(bs: seq<Bucket>, i: nat, b1: Bucket, node: Node, local: nat, k: nat, now: nat, top: nat, fuel: nat)
    requires k >= 1 && Tiles(bs, 0, top) && AllWell(bs, k) && node.longId <= top && Found(bs, node.longId) && fuel > 0
    requires i == IndexFor(bs, node.longId) && AddNode(bs[i], node, k) == (b1, false) && MaySplit(b1, local) && bs[i].lo == bs[i].hi
    ensures Unroll(bs, node, local, k, now, fuel).None? && InsertContact(bs, node, local, k, now).NoReturn?
  {
    AtTheBucket(bs, node.longId, k, top);
    Refused(bs[i], node, k);
    AddRefuses(bs[i], node, k);
    IntoTheTrap(bs, i, b1, node, local, k, now);
    TrappedForever(AfterSplit(bs, i, b1, k, now), i, b1.(updated := now), node, local, k, now, fuel - 1);
    Ranges(bs, top);
    InsertAt(bs, i, bs[i], node, local, k, now);
  }

  /** A split leaves the rest of the recursion. */
  lemma UnrollSplits(bs: seq<Bucket>, i: nat, b1: Bucket, node: Node, local: nat, k: nat, now: nat, fuel: nat)
    requires Found(bs, node.longId) && i == IndexFor(bs, node.longId) && fuel > 0
    requires AddNode(bs[i], node, k) == (b1, false) && MaySplit(b1, local)
    ensures b1.lo == bs[i].lo && b1.hi == bs[i].hi && Found(AfterSplit(bs, i, b1, k, now), node.longId)
    ensures Unroll(bs, node, local, k, now, fuel) == Later(Unroll(AfterSplit(bs, i, b1, k, now), node, local, k, now, fuel - 1))
  {
    FoundAfterSplit(bs, b1, node.longId, k, now);
  }

  /** The recursion on this table and the insertion agree. */
  ghost predicate Agree(bs: seq<Bucket>, node: Node, local: nat, k: nat, now: nat, fuel: nat) {
    && Found(bs, node.longId) && (forall b | b in bs :: b.lo <= b.hi)
    && Unroll(bs, node, local, k, now, fuel) == Within(InsertContact(bs, node, local, k, now), fuel)
  }

  lemma AgreeFromSplit(bs: seq<Bucket>, i: nat, b1: Bucket, node: Node, local: nat, k: nat, now: nat, top: nat, fuel: nat)
    requires Tiles(bs, 0, top) && AllWell(bs, k) && node.longId <= top && Found(bs, node.longId) && fuel > 0
    requires i == IndexFor(bs, node.longId) && AddNode(bs[i], node, k) == (b1, false) && MaySplit(b1, local) && bs[i].lo < bs[i].hi
    requires Agree(AfterSplit(bs, i, b1, k, now), node, local, k, now, fuel - 1)
    ensures Agree(bs, node, local, k, now, fuel)
  {
    SplitStep(bs, i, b1, node, local, k, now, top);
    UnrollSplits(bs, i, b1, node, local, k, now, fuel);
    var bs2 := AfterSplit(bs, i, b1, k, now);
    WithinLater(InsertContact(bs, node, local, k, now), InsertContact(bs2, node, local, k, now), fuel);
  }

  lemma AgreeWithout(bs: seq<Bucket>, node: Node, local: nat, k: nat, now: nat, top: nat, fuel: nat)
    requires k >= 1 && Tiles(bs, 0, top) && AllWell(bs, k) && node.longId <= top && Found(bs, node.longId)
    requires fuel == 0 || var b := bs[IndexFor(bs, node.longId)]; var (b1, ok) := AddNode(b, node, k); ok || !MaySplit(b1, local) || b.lo == b.hi
    ensures Agree(bs, node, local, k, now, fuel)
  {
    Ranges(bs, top);
    if fuel > 0 {
      var i := IndexFor(bs, node.longId);
      var (b1, ok) := AddNode(bs[i], node, k);
      if ok || !MaySplit(b1, local) {
        EndsAtOnce(bs, node, local, k, now, top, fuel);
      } else {
        LostAtAPoint(bs, i, b1, node, local, k, now, top, fuel);
      }
    }
  }

  /** The recursion of the program ends exactly when the insertion returns, after one call more than it makes
      splits, and with its result. */
  lemma {:induction false} UnrollIsInsert(bs: seq<Bucket>, node: Node, local: nat, k: nat, now: nat, top: nat, fuel: nat)
    requires k >= 1 && Tiles(bs, 0, top) && AllWell(bs, k) && node.longId <= top
    ensures Agree(bs, node, local, k, now, fuel)
    decreases fuel
  {
    AtTheBucket(bs, node.longId, k, top);
    var i := IndexFor(bs, node.longId);
    var (b1, ok) := AddNode(bs[i], node, k);
    if fuel == 0 || ok || !MaySplit(b1, local) || bs[i].lo == bs[i].hi {
      AgreeWithout(bs, node, local, k, now, top, fuel);
    } else {
      SplitStep(bs, i, b1, node, local, k, now, top);
      UnrollIsInsert(AfterSplit(bs, i, b1, k, now), node, local, k, now, top, fuel - 1);
      AgreeFromSplit(bs, i, b1, node, local, k, now, top, fuel);
    }
  }

  /** The recursion comes to an end within this many calls. */
  ghost predicate Ends(bs: seq<Bucket>, node: Node, local: nat, k: nat, now: nat, fuel: nat)
    requires Found(bs, node.longId)
  {
    Unroll(bs, node, local, k, now, fuel).Some?
  }

  lemma EndsWithin(bs: seq<Bucket>, node: Node, local: nat, k: nat, now: nat, top: nat, fuel: nat)
    requires k >= 1 && Tiles(bs, 0, top) && AllWell(bs, k) && node.longId <= top
    ensures Found(bs, node.longId) && forall b | b in bs :: b.lo <= b.hi
    ensures Ends(bs, node, local, k, now, fuel) <==> Within(InsertContact(bs, node, local, k, now), fuel).Some?
  {
    UnrollIsInsert(bs, node, local, k, now, top, fuel);
  }

  /** That an addition does not return means that no number of calls of the program's recursion comes to an
      end. */
  lemma NoReturnIsForever(bs: seq<Bucket>, node: Node, local: Node, k: nat, now: nat, f: Id -> nat, w: nat)
    requires k >= 1 && Inv(bs, local, k, f, w) && Offered(node, f, w) && node.id != local.id
    ensures Found(bs, node.longId)
    ensures AddContact(bs, node, local, k, now).NoReturn? <==>
            forall fuel: nat :: !Ends(bs, node, local.longId, k, now, fuel)
  {
    var r := AddContact(bs, node, local, k, now);
    AtTheBucket(bs, node.longId, k, Pow2(w) - 1);
    if r.NoReturn? {
      forall fuel: nat ensures !Ends(bs, node, local.longId, k, now, fuel) {
        EndsWithin(bs, node, local.longId, k, now, Pow2(w) - 1, fuel);
      }
    } else {
      EndsWithin(bs, node, local.longId, k, now, Pow2(w) - 1, r.splits + 1);
    }
  }
}

/** The routing table as a row of buckets that tiles the whole space, and what every run of its
    operations keeps. `f` is the fold from identifiers to routing points and `w` the width of the
    space in bits; nothing here depends on which fold it is. */
module Table {
  import opened Bits
  import opened Nodes
  import opened Contacts
  import opened Buckets
  import opened Insertion

  /** The first bucket that covers `x`, or the last bucket. */
  function IndexFrom(bs: seq<Bucket>, x: nat, i: nat): (r: nat)
    requires i < |bs|
    ensures i <= r < |bs|
    ensures forall j | i <= j < r :: !bs[j].Covers(x)
    ensures bs[r].Covers(x) || r == |bs| - 1
    decreases |bs| - i
  {
    if bs[i].Covers(x) || i == |bs| - 1 then i else IndexFrom(bs, x, i + 1)
  }

  function IndexFor(bs: seq<Bucket>, x: nat): (r: nat)
    requires bs != []
  {
    IndexFrom(bs, x, 0)
  }

  /** The row with the bucket at `i` replaced by `row`. */
  function Splice(bs: seq<Bucket>, i: nat, row: seq<Bucket>): seq<Bucket>
    requires i < |bs|
  {
    bs[..i] + row + bs[i + 1..]
  }

  datatype Result = Returned(buckets: seq<Bucket>, lru: Option<Node>, splits: nat) | NoReturn

  /** Insertion into the bucket around the contact; `local` is the owner's routing point. */
  function InsertContact(bs: seq<Bucket>, node: Node, local: nat, k: nat, now: nat): Result
    requires forall b | b in bs :: b.lo <= b.hi
    requires bs != []
  {
    var i := IndexFor(bs, node.longId);
    var r := Insert(bs[i], node, local, k, now);
    if r.Diverges? then NoReturn else Returned(Splice(bs, i, r.buckets), r.lru, r.splits)
  }

  function AddContact(bs: seq<Bucket>, node: Node, local: Node, k: nat, now: nat): Result
    requires forall b | b in bs :: b.lo <= b.hi
    requires bs != []
  {
    if node.id == local.id then Returned(bs, None, 0)
    else InsertContact(bs, node, local.longId, k, now)
  }

  function RemoveContact(bs: seq<Bucket>, node: Node): seq<Bucket>
    requires bs != []
  {
    var i := IndexFor(bs, node.longId);
    bs[i := RemoveNode(bs[i], node.id)]
  }

  /** A lookup stamps the bucket around its target. */
  function Touch(bs: seq<Bucket>, target: Node, now: nat): seq<Bucket>
    requires bs != []
  {
    var i := IndexFor(bs, target.longId);
    bs[i := bs[i].(updated := now)]
  }

  // ---------- The invariant

  ghost predicate Genuine(bs: seq<Bucket>, local: Node, f: Id -> nat) {
    forall b, n | b in bs && Holds(b, n) :: n.longId == f(n.id) && n.id != local.id
  }

  ghost predicate Inv(bs: seq<Bucket>, local: Node, k: nat, f: Id -> nat, w: nat) {
    && Tiles(bs, 0, Pow2(w) - 1)
    && AllWell(bs, k)
    && AllAligned(bs)
    && Genuine(bs, local, f)
  }

  /** In a tiling every point lies in exactly one bucket, the one the search finds. */
  lemma {:induction false} TilesOrder(bs: seq<Bucket>, lo: nat, hi: nat, i: nat, j: nat)
    requires Tiles(bs, lo, hi) && i < j < |bs|
    ensures bs[i].hi < bs[j].lo
    decreases j
  {
    if i < j - 1 {
      TilesOrder(bs, lo, hi, i, j - 1);
    }
  }

  lemma {:induction false} TilesCover(bs: seq<Bucket>, lo: nat, hi: nat, x: nat)
    requires Tiles(bs, lo, hi) && lo <= x <= hi
    ensures exists i :: 0 <= i < |bs| && bs[i].Covers(x)
    decreases |bs|
  {
    var last := |bs| - 1;
    if !bs[last].Covers(x) {
      assert x < bs[last].lo;
      var front := bs[..last];
      assert last > 0;
      assert front[last - 1].hi == bs[last].lo - 1;
      TilesCover(front, lo, bs[last].lo - 1, x);
      var i :| 0 <= i < |front| && front[i].Covers(x);
      assert bs[i].Covers(x);
    }
  }

  lemma IndexIs(bs: seq<Bucket>, lo: nat, hi: nat, x: nat)
    requires Tiles(bs, lo, hi) && lo <= x <= hi
    ensures var i := IndexFor(bs, x);
      bs[i].Covers(x) && forall j | 0 <= j < |bs| && bs[j].Covers(x) :: j == i
  {
    var i := IndexFor(bs, x);
    TilesCover(bs, lo, hi, x);
    forall j | 0 <= j < |bs| && bs[j].Covers(x) ensures j == i {
      if i < j {
        TilesOrder(bs, lo, hi, i, j);
      }
    }
  }

  lemma {:induction false} KnownIff(bs: seq<Bucket>, id: Id)
    ensures id in KnownIn(bs) <==> exists b :: b in bs && id in b.Known()
  {
    if bs != [] {
      KnownIff(bs[1..], id);
      if id in KnownIn(bs) {
        if id in bs[0].Known() {
          assert bs[0] in bs;
        } else {
          var b :| b in bs[1..] && id in b.Known();
          assert b in bs;
        }
      }
    }
  }

  /** A known identifier is known to the bucket around its routing point and to no other: no
      identifier occurs twice in the table. */
  lemma HomeBucket(bs: seq<Bucket>, local: Node, k: nat, f: Id -> nat, w: nat, id: Id)
    requires Inv(bs, local, k, f, w) && f(id) < Pow2(w)
    ensures var i := IndexFor(bs, f(id));
      && bs[i].Covers(f(id))
      && (forall j | 0 <= j < |bs| && id in bs[j].Known() :: j == i)
      && (id in KnownIn(bs) <==> id in bs[i].Known())
  {
    IndexIs(bs, 0, Pow2(w) - 1, f(id));
    KnownIff(bs, id);
    var i := IndexFor(bs, f(id));
    forall j | 0 <= j < |bs| && id in bs[j].Known() ensures j == i {
      var n :| Holds(bs[j], n) && n.id == id;
      assert bs[j] in bs;
      assert bs[j].WellFormed(k);
      assert bs[j].Covers(f(id));
    }
  }

  // ---------- Adding a contact

  lemma TilesConcat(a: seq<Bucket>, b: seq<Bucket>, lo: nat, mid: nat, hi: nat)
    requires Tiles(a, lo, mid) && Tiles(b, mid + 1, hi)
    ensures Tiles(a + b, lo, hi)
  {
  }

  lemma SpliceTiles(bs: seq<Bucket>, i: nat, row: seq<Bucket>, lo: nat, hi: nat)
    requires i < |bs| && Tiles(bs, lo, hi) && Tiles(row, bs[i].lo, bs[i].hi)
    ensures Tiles(Splice(bs, i, row), lo, hi)
  {
    var front, back := bs[..i], bs[i + 1..];
    if i > 0 {
      TilesConcat(front, row, lo, bs[i - 1].hi, bs[i].hi);
    } else {
      assert front + row == row;
    }
    if i < |bs| - 1 {
      TilesConcat(front + row, back, lo, bs[i].hi, hi);
    } else {
      assert front + row + back == front + row;
    }
  }

  lemma SpliceSplit(bs: seq<Bucket>, i: nat, row: seq<Bucket>)
    requires i < |bs|
    ensures KnownIn(bs) == KnownIn(bs[..i]) + bs[i].Known() + KnownIn(bs[i + 1..])
    ensures PrimariesIn(bs) == PrimariesIn(bs[..i]) + Ids(bs[i].nodes) + PrimariesIn(bs[i + 1..])
    ensures KnownIn(Splice(bs, i, row)) == KnownIn(bs[..i]) + KnownIn(row) + KnownIn(bs[i + 1..])
    ensures PrimariesIn(Splice(bs, i, row)) == PrimariesIn(bs[..i]) + PrimariesIn(row) + PrimariesIn(bs[i + 1..])
  {
    RowConcat(bs[..i], row);
    RowConcat(bs[..i] + row, bs[i + 1..]);
    RowConcat(bs[..i], [bs[i]]);
    RowConcat(bs[..i] + [bs[i]], bs[i + 1..]);
    assert bs == bs[..i] + [bs[i]] + bs[i + 1..];
  }

  /** The contact that `AddContact` is asked to take: its point is its fold and lies in the space. */
  ghost predicate Offered(node: Node, f: Id -> nat, w: nat) {
    node.longId == f(node.id) < Pow2(w)
  }

  lemma AddTiled(bs: seq<Bucket>, node: Node, local: nat, k: nat, now: nat, w: nat)
    requires Tiles(bs, 0, Pow2(w) - 1) && AllWell(bs, k) && node.longId < Pow2(w)
    ensures var r := InsertContact(bs, node, local, k, now);
      r.Returned? ==> Tiles(r.buckets, 0, Pow2(w) - 1) && AllWell(r.buckets, k)
  {
    var i := IndexFor(bs, node.longId);
    IndexIs(bs, 0, Pow2(w) - 1, node.longId);
    assert bs[i] in bs;
    InsertWell(bs[i], node, local, k, now);
    var r := Insert(bs[i], node, local, k, now);
    if r.Done? {
      SpliceTiles(bs, i, r.buckets, 0, Pow2(w) - 1);
    }
  }

  lemma AddAligned(bs: seq<Bucket>, node: Node, local: nat, k: nat, now: nat, w: nat)
    requires Tiles(bs, 0, Pow2(w) - 1) && AllAligned(bs) && node.longId < Pow2(w)
    ensures var r := InsertContact(bs, node, local, k, now); r.Returned? ==> AllAligned(r.buckets)
  {
    var i := IndexFor(bs, node.longId);
    IndexIs(bs, 0, Pow2(w) - 1, node.longId);
    assert bs[i] in bs;
    var e :| Dyadic(bs[i].lo, bs[i].hi, e);
    var c, d := InsertAligned(bs[i], node, local, e, k, now);
  }

  lemma AddGenuine(bs: seq<Bucket>, node: Node, local: Node, k: nat, now: nat, f: Id -> nat)
    requires bs != [] && (forall b | b in bs :: b.lo <= b.hi) && Genuine(bs, local, f)
    requires node.longId == f(node.id) && node.id != local.id
    ensures var r := InsertContact(bs, node, local.longId, k, now);
      r.Returned? ==> Genuine(r.buckets, local, f)
  {
    var a := InsertContact(bs, node, local.longId, k, now);
    if a.Returned? {
      var i := IndexFor(bs, node.longId);
      var r := Insert(bs[i], node, local.longId, k, now);
      assert bs[i] in bs;
      forall b, n | b in a.buckets && Holds(b, n) ensures n.longId == f(n.id) && n.id != local.id {
        if b in r.buckets {
          InsertOrigin(bs[i], node, local.longId, k, now, b, n);
        } else {
          assert b in bs;
        }
      }
    }
  }

  /** Adding a contact keeps the table invariant. */
  lemma AddKeepsInv(bs: seq<Bucket>, node: Node, local: Node, k: nat, now: nat, f: Id -> nat, w: nat)
    requires Inv(bs, local, k, f, w) && Offered(node, f, w)
    ensures var r := AddContact(bs, node, local, k, now);
      r.Returned? ==> Inv(r.buckets, local, k, f, w)
  {
    if node.id != local.id {
      AddTiled(bs, node, local.longId, k, now, w);
      AddAligned(bs, node, local.longId, k, now, w);
      AddGenuine(bs, node, local, k, now, f);
    }
  }

  /** Each split halves the bucket around the contact: from 2^e points it comes down to the 2^d
      points of `c`, so one addition makes at most `w` splits. */
  lemma AddSplits(bs: seq<Bucket>, node: Node, local: Node, k: nat, now: nat, f: Id -> nat, w: nat)
    returns (c: Bucket, d: nat, e: nat)
    requires Inv(bs, local, k, f, w) && Offered(node, f, w)
    ensures var r, b := AddContact(bs, node, local, k, now), bs[IndexFor(bs, node.longId)];
      r.Returned? ==>
        && r.splits <= e <= w && Dyadic(b.lo, b.hi, e)
        && c in r.buckets && c.Covers(node.longId) && Dyadic(c.lo, c.hi, d) && d + r.splits == e
  {
    var a := AddContact(bs, node, local, k, now);
    var i := IndexFor(bs, node.longId);
    IndexIs(bs, 0, Pow2(w) - 1, node.longId);
    assert bs[i] in bs;
    e :| Dyadic(bs[i].lo, bs[i].hi, e);
    BlockWidth(bs[i].lo, bs[i].hi, e);
    InSpace(bs, i, w);
    PowerBelow(e, w);
    c, d := bs[i], e;
    if a.Returned? && node.id != local.id {
      c, d := InsertAligned(bs[i], node, local.longId, e, k, now);
    }
  }

  lemma InSpace(bs: seq<Bucket>, i: nat, w: nat)
    requires i < |bs| && Tiles(bs, 0, Pow2(w) - 1)
    ensures bs[i].hi < Pow2(w)
  {
    if i < |bs| - 1 {
      TilesOrder(bs, 0, Pow2(w) - 1, i, |bs| - 1);
    }
  }

  lemma {:induction false} PowerBelow(e: nat, w: nat)
    requires Pow2(e) <= Pow2(w)
    ensures e <= w
  {
    if w == 0 {
      assert e > 0 ==> Pow2(e) == 2 * Pow2(e - 1);
    } else if e > 0 {
      PowerBelow(e - 1, w - 1);
    }
  }

  /** The known identifiers, apart from `node`, that fold to its point. */
  ghost function Rivals(bs: seq<Bucket>, node: Node, f: Id -> nat): set<Id> {
    set id | id in KnownIn(bs) && f(id) == node.longId && id != node.id
  }

  /** Adding a contact returns when fewer than k other known identifiers fold to the same point. */
  lemma AddReturns(bs: seq<Bucket>, node: Node, local: Node, k: nat, now: nat, f: Id -> nat, w: nat)
    requires Inv(bs, local, k, f, w) && Offered(node, f, w)
    requires |Rivals(bs, node, f)| < k
    ensures AddContact(bs, node, local, k, now).Returned?
  {
    var i := IndexFor(bs, node.longId);
    IndexIs(bs, 0, Pow2(w) - 1, node.longId);
    assert bs[i] in bs;
    var b1 := AddNode(bs[i], node, k).0;
    forall id | id in Twins(b1, node) ensures id in Rivals(bs, node, f) {
      TwinsShrink(bs[i], node, k, now);
      var n :| n in bs[i].nodes + bs[i].repl && n.longId == node.longId && n.id != node.id && n.id == id;
      assert Holds(bs[i], n);
      KnownIff(bs, id);
    }
    SubsetSize(Twins(b1, node), Rivals(bs, node, f));
    InsertReturns(bs[i], node, local.longId, k, now);
  }

  /** What the table may lose when `node` is added: the oldest replacement of a list at its cap. */
  ghost function Lost(bs: seq<Bucket>, node: Node, local: Node, k: nat): set<Id>
    requires bs != []
  {
    if node.id == local.id then {} else Evicted(bs[IndexFor(bs, node.longId)], node, k)
  }

  /** Adding a contact fails to return exactly when it is refused, k others in its bucket fold to its
      point, and every block around the point in the bucket's range may split. */
  lemma AddJams(bs: seq<Bucket>, node: Node, local: Node, k: nat, now: nat, f: Id -> nat, w: nat)
    requires k >= 1 && Inv(bs, local, k, f, w) && Offered(node, f, w)
    ensures var (b1, ok) := AddNode(bs[IndexFor(bs, node.longId)], node, k);
      && b1.Covers(node.longId)
      && (AddContact(bs, node, local, k, now).NoReturn? <==>
            node.id != local.id && !ok && |Twins(b1, node)| >= k && SplitsDown(b1, node.longId, local.longId, k, now))
  {
    var i := IndexFor(bs, node.longId);
    IndexIs(bs, 0, Pow2(w) - 1, node.longId);
    assert bs[i] in bs;
    InsertJams(bs[i], node, local.longId, k, now);
  }

  /** Adding a contact conserves contacts: afterwards the table knows what it knew and the contact,
      except for at most one identifier, which was the oldest of 5k replacements; and every primary
      is still a primary. */
  lemma AddConserves(bs: seq<Bucket>, node: Node, local: Node, k: nat, now: nat, f: Id -> nat, w: nat)
    requires k >= 1 && Inv(bs, local, k, f, w) && Offered(node, f, w)
    ensures var r, lost := AddContact(bs, node, local, k, now), Lost(bs, node, local, k);
      r.Returned? ==>
        && PrimariesIn(bs) <= PrimariesIn(r.buckets)
        && (node.id == local.id ==> r.buckets == bs)
        && (node.id != local.id ==> KnownIn(r.buckets) == KnownIn(bs) + {node.id} - lost)
        && |lost| <= 1
        && (forall id | id in lost ::
              var b := bs[IndexFor(bs, node.longId)];
              |b.nodes| == k && |b.repl| == 5 * k && id == b.repl[0].id && node.id !in KnownIn(bs))
  {
    var a := AddContact(bs, node, local, k, now);
    if a.Returned? && node.id != local.id {
      var i := IndexFor(bs, node.longId);
      HomeBucket(bs, local, k, f, w, node.id);
      assert bs[i] in bs;
      var r := Insert(bs[i], node, local.longId, k, now);
      InsertContacts(bs[i], node, local.longId, k, now);
      SpliceSplit(bs, i, r.buckets);
      forall id | id in Evicted(bs[i], node, k)
        ensures id !in KnownIn(bs[..i]) && id !in KnownIn(bs[i + 1..]) && id == bs[i].repl[0].id
      {
        OnlyHere(bs, local, k, f, w, i, id);
      }
    }
  }

  lemma OnlyHere(bs: seq<Bucket>, local: Node, k: nat, f: Id -> nat, w: nat, i: nat, id: Id)
    requires Inv(bs, local, k, f, w) && i < |bs| && id in bs[i].Known()
    ensures id !in KnownIn(bs[..i]) && id !in KnownIn(bs[i + 1..])
  {
    var n :| Holds(bs[i], n) && n.id == id;
    assert bs[i] in bs && bs[i].WellFormed(k);
    InSpace(bs, i, w);
    HomeBucket(bs, local, k, f, w, id);
    KnownIff(bs[..i], id);
    KnownIff(bs[i + 1..], id);
    forall b | b in bs[..i] ensures id !in b.Known() {
      var j :| 0 <= j < i && bs[j] == b;
    }
    forall b | b in bs[i + 1..] ensures id !in b.Known() {
      var j :| i + 1 <= j < |bs| && bs[j] == b;
    }
  }

  /** The answer tells the place of the contact: with no contact to ping it is the newest primary of
      its bucket; otherwise it is the newest replacement of a full bucket that may not split and
      whose oldest primary is the contact to ping. */
  lemma AddPlaces(bs: seq<Bucket>, node: Node, local: Node, k: nat, now: nat, f: Id -> nat, w: nat)
    returns (c: Bucket)
    requires k >= 1 && Inv(bs, local, k, f, w) && Offered(node, f, w) && node.id != local.id
    ensures var r := AddContact(bs, node, local, k, now);
      r.Returned? ==>
        && c in r.buckets && c.Covers(node.longId)
        && (r.lru.None? ==> Seated(c, node))
        && (r.lru.Some? ==> Parked(c, node, r.lru.value, k) && !c.Covers(local.longId) && Depth(c.nodes) % 5 == 0)
  {
    var i := IndexFor(bs, node.longId);
    IndexIs(bs, 0, Pow2(w) - 1, node.longId);
    assert bs[i] in bs;
    c := InsertPlaces(bs[i], node, local.longId, k, now);
  }

  /** There is a contact to ping exactly when the new contact is not a primary. */
  lemma AddAnswer(bs: seq<Bucket>, node: Node, local: Node, k: nat, now: nat, f: Id -> nat, w: nat)
    requires k >= 1 && Inv(bs, local, k, f, w) && Offered(node, f, w) && node.id != local.id
    ensures var r := AddContact(bs, node, local, k, now);
      r.Returned? ==> (r.lru.None? <==> node.id in PrimariesIn(r.buckets))
  {
    var r := AddContact(bs, node, local, k, now);
    if r.Returned? {
      var c := AddPlaces(bs, node, local, k, now, f, w);
      AddKeepsInv(bs, node, local, k, now, f, w);
      PlacePrimary(r.buckets, local, k, f, w, c, node, r.lru);
    }
  }

  lemma PlacePrimary(bs: seq<Bucket>, local: Node, k: nat, f: Id -> nat, w: nat, c: Bucket, node: Node,
                     lru: Option<Node>)
    requires Inv(bs, local, k, f, w) && c in bs && Offered(node, f, w)
    requires if lru.None? then Seated(c, node) else Parked(c, node, lru.value, k)
    ensures node.id in PrimariesIn(bs) <==> lru.None?
  {
    PrimaryHere(bs, local, k, f, w, c, node);
    assert c.WellFormed(k);
    assert lru.Some? ==> node.id in Ids(c.repl);
  }

  lemma {:induction false} PrimariesIff(bs: seq<Bucket>, id: Id)
    ensures id in PrimariesIn(bs) <==> exists b :: b in bs && id in Ids(b.nodes)
  {
    if bs != [] {
      PrimariesIff(bs[1..], id);
      if id in PrimariesIn(bs) {
        if id in Ids(bs[0].nodes) {
          assert bs[0] in bs;
        } else {
          var b :| b in bs[1..] && id in Ids(b.nodes);
          assert b in bs;
        }
      }
    }
  }

  /** A contact held by a bucket is a primary of the table exactly when it is one of that bucket. */
  lemma PrimaryHere(bs: seq<Bucket>, local: Node, k: nat, f: Id -> nat, w: nat, c: Bucket, node: Node)
    requires Inv(bs, local, k, f, w) && c in bs && Holds(c, node) && Offered(node, f, w)
    ensures node.id in PrimariesIn(bs) <==> node in c.nodes
  {
    HomeBucket(bs, local, k, f, w, node.id);
    PrimariesIff(bs, node.id);
    assert c.WellFormed(k);
    var i :| 0 <= i < |bs| && bs[i] == c;
    forall b | b in bs && node.id in Ids(b.nodes) ensures b == c {
      var j :| 0 <= j < |bs| && bs[j] == b;
    }
  }

  // ---------- Removing and looking up

  /** One bucket replaced by another for the same range that holds none but its contacts. */
  lemma ReplaceKeepsInv(bs: seq<Bucket>, i: nat, b': Bucket, local: Node, k: nat, f: Id -> nat, w: nat)
    requires Inv(bs, local, k, f, w) && i < |bs|
    requires b'.WellFormed(k) && b'.lo == bs[i].lo && b'.hi == bs[i].hi
    requires forall n | Holds(b', n) :: Holds(bs[i], n)
    ensures Inv(bs[i := b'], local, k, f, w)
  {
    assert bs[i] in bs;
    var r := bs[i := b'];
    forall b, n | b in r && Holds(b, n) ensures n.longId == f(n.id) && n.id != local.id {
      assert b == b' || b in bs;
    }
  }

  lemma RemoveHolds(b: Bucket, id: Id, n: Node)
    requires Holds(RemoveNode(b, id), n)
    ensures Holds(b, n)
  {
    WithoutMembers(b.nodes, id);
    WithoutMembers(b.repl, id);
    assert n in Without(b.nodes, id) || n in Without(b.repl, id);
  }

  /** Removing a contact keeps the table invariant. */
  lemma RemoveKeepsInv(bs: seq<Bucket>, node: Node, local: Node, k: nat, f: Id -> nat, w: nat)
    requires Inv(bs, local, k, f, w)
    ensures Inv(RemoveContact(bs, node), local, k, f, w)
  {
    var i := IndexFor(bs, node.longId);
    assert bs[i] in bs;
    RemoveNodeFacts(bs[i], node.id, k);
    var b' := RemoveNode(bs[i], node.id);
    forall n | Holds(b', n) ensures Holds(bs[i], n) {
      RemoveHolds(bs[i], node.id, n);
    }
    ReplaceKeepsInv(bs, i, b', local, k, f, w);
  }

  lemma ReplaceContacts(bs: seq<Bucket>, i: nat, b': Bucket)
    requires i < |bs|
    ensures KnownIn(bs) == KnownIn(bs[..i]) + bs[i].Known() + KnownIn(bs[i + 1..])
    ensures KnownIn(bs[i := b']) == KnownIn(bs[..i]) + b'.Known() + KnownIn(bs[i + 1..])
    ensures Ids(bs[i].nodes) == Ids(b'.nodes) ==> PrimariesIn(bs[i := b']) == PrimariesIn(bs)
    ensures forall id | Ids(bs[i].nodes) - {id} <= Ids(b'.nodes) ::
              PrimariesIn(bs) - {id} <= PrimariesIn(bs[i := b'])
  {
    assert bs[i := b'] == Splice(bs, i, [b']);
    SpliceSplit(bs, i, [b']);
  }

  lemma NotElsewhere(bs: seq<Bucket>, node: Node, local: Node, k: nat, f: Id -> nat, w: nat)
    requires Inv(bs, local, k, f, w) && Offered(node, f, w)
    ensures var i := IndexFor(bs, node.longId);
      bs[i].WellFormed(k) && node.id !in KnownIn(bs[..i]) && node.id !in KnownIn(bs[i + 1..])
  {
    var i := IndexFor(bs, node.longId);
    assert bs[i] in bs;
    HomeBucket(bs, local, k, f, w, node.id);
    if node.id in bs[i].Known() {
      OnlyHere(bs, local, k, f, w, i, node.id);
    } else {
      SpliceSplit(bs, i, []);
    }
  }

  /** Removing a contact forgets that identifier everywhere and nothing else, and demotes nobody. */
  lemma RemoveForgets(bs: seq<Bucket>, node: Node, local: Node, k: nat, f: Id -> nat, w: nat)
    requires Inv(bs, local, k, f, w) && Offered(node, f, w)
    ensures var r := RemoveContact(bs, node);
      KnownIn(r) == KnownIn(bs) - {node.id} && PrimariesIn(bs) - {node.id} <= PrimariesIn(r)
  {
    var i := IndexFor(bs, node.longId);
    NotElsewhere(bs, node, local, k, f, w);
    RemoveContacts(bs[i], node.id, k);
    ReplaceContacts(bs, i, RemoveNode(bs[i], node.id));
  }

  /** Only the bucket around the contact changes, as a removal from it does. */
  lemma RemoveInPlace(bs: seq<Bucket>, node: Node, local: Node, k: nat, f: Id -> nat, w: nat) returns (i: nat)
    requires Inv(bs, local, k, f, w) && Offered(node, f, w)
    ensures i < |bs| && bs[i].Covers(node.longId)
    ensures var r := RemoveContact(bs, node); |r| == |bs| && Removed(bs[i], node.id, r[i]) && r == bs[i := r[i]]
  {
    i := IndexFor(bs, node.longId);
    IndexIs(bs, 0, Pow2(w) - 1, node.longId);
    assert bs[i] in bs;
    RemoveExactly(bs[i], node.id);
  }

  lemma RemoveContacts(b: Bucket, id: Id, k: nat)
    requires b.WellFormed(k)
    ensures RemoveNode(b, id).Known() == b.Known() - {id}
    ensures Ids(b.nodes) - {id} <= Ids(RemoveNode(b, id).nodes)
  {
    RemoveNodeFacts(b, id, k);
  }

  /** A lookup changes nothing but one stamp. */
  lemma TouchKeepsInv(bs: seq<Bucket>, target: Node, local: Node, k: nat, now: nat, f: Id -> nat, w: nat)
    requires Inv(bs, local, k, f, w)
    ensures Inv(Touch(bs, target, now), local, k, f, w)
  {
    var i := IndexFor(bs, target.longId);
    var b' := bs[i].(updated := now);
    assert bs[i] in bs;
    assert bs[i].WellFormed(k);
    ReplaceKeepsInv(bs, i, b', local, k, f, w);
  }

  lemma TouchContacts(bs: seq<Bucket>, target: Node, now: nat)
    requires bs != []
    ensures var r := Touch(bs, target, now); KnownIn(r) == KnownIn(bs) && PrimariesIn(r) == PrimariesIn(bs)
  {
    var i := IndexFor(bs, target.longId);
    ReplaceContacts(bs, i, bs[i].(updated := now));
  }
}

/** Every run of the routing table: any sequence of additions, removals and lookups. */
module TableRuns {
  import opened Bits
  import opened Nodes
  import opened Contacts
  import opened Buckets
  import opened Insertion
  import opened Table

  datatype Op =
    | Add(node: Node, now: nat)
    | Remove(node: Node)
    | Lookup(target: Node, now: nat)

  /** The owner, the bucket size, the fold and the width of the space stay fixed in a run. */
  datatype Config = Config(local: Node, k: nat, f: Id -> nat, w: nat)

  /** The configuration of a program: the fold and the width of real identifiers. */
  ghost predicate IsNode(c: Config) {
    c.k >= 1 && c.f == Fold && c.w == BITS && c.local.longId == Fold(c.local.id)
  }

  function Start(w: nat, now: nat): seq<Bucket> {
    [Bucket(0, Pow2(w) - 1, [], [], now)]
  }

  ghost predicate Next(c: Config, bs: seq<Bucket>, op: Op, bs': seq<Bucket>) {
    && bs != [] && (forall b | b in bs :: b.lo <= b.hi)
    && match op
       case Add(node, now) =>
         && Offered(node, c.f, c.w)
         && var r := AddContact(bs, node, c.local, c.k, now);
           r.Returned? && bs' == r.buckets
       case Remove(node) => Offered(node, c.f, c.w) && bs' == RemoveContact(bs, node)
       case Lookup(target, now) => bs' == Touch(bs, target, now)
  }

  /** Some run of the operations `ops` leads from `bs0` to `bs`. */
  ghost predicate Path(c: Config, bs0: seq<Bucket>, ops: seq<Op>, bs: seq<Bucket>) {
    if ops == [] then bs == bs0
    else
      var last := |ops| - 1;
      exists mid :: Path(c, bs0, ops[..last], mid) && Next(c, mid, ops[last], bs)
  }

  lemma PathSnoc(c: Config, bs0: seq<Bucket>, ops: seq<Op>, mid: seq<Bucket>, op: Op, bs: seq<Bucket>)
    requires Path(c, bs0, ops, mid) && Next(c, mid, op, bs)
    ensures Path(c, bs0, ops + [op], bs)
  {
    assert (ops + [op])[..|ops|] == ops;
  }

  /** Some run of the operations `ops` leads from an empty table to `bs`. */
  ghost predicate Reaches(c: Config, ops: seq<Op>, bs: seq<Bucket>) {
    exists now :: Path(c, Start(c.w, now), ops, bs)
  }

  /** The identifiers offered by additions. */
  ghost function OfferedIds(ops: seq<Op>): set<Id> {
    set op | op in ops && op.Add? :: op.node.id
  }

  lemma OfferedLast(ops: seq<Op>, i: nat)
    requires i < |ops|
    ensures var last := |ops| - 1;
      OfferedIds(ops[i..]) == OfferedIds(ops[..last][i..]) + OfferedIds([ops[last]])
  {
    var last := |ops| - 1;
    assert ops[i..] == ops[..last][i..] + [ops[last]];
  }

  lemma StartInv(c: Config, now: nat)
    ensures Inv(Start(c.w, now), c.local, c.k, c.f, c.w) && KnownIn(Start(c.w, now)) == {}
  {
    WholeSpace(c.w);
    var b := Start(c.w, now)[0];
    assert Aligned(b.lo, b.hi);
    assert Start(c.w, now)[1..] == [];
  }

  /** A step keeps the invariant, and only an addition brings a new identifier, its own. */
  lemma StepSafe(c: Config, bs: seq<Bucket>, op: Op, bs': seq<Bucket>)
    requires c.k >= 1 && Inv(bs, c.local, c.k, c.f, c.w) && Next(c, bs, op, bs')
    ensures Inv(bs', c.local, c.k, c.f, c.w)
    ensures KnownIn(bs') <= KnownIn(bs) + OfferedIds([op])
    ensures op.Remove? ==> op.node.id !in KnownIn(bs')
  {
    match op
    case Add(node, now) =>
      AddKeepsInv(bs, node, c.local, c.k, now, c.f, c.w);
      AddConserves(bs, node, c.local, c.k, now, c.f, c.w);
      assert op in [op] && op.node.id in OfferedIds([op]);
    case Remove(node) =>
      RemoveKeepsInv(bs, node, c.local, c.k, c.f, c.w);
      RemoveForgets(bs, node, c.local, c.k, c.f, c.w);
    case Lookup(target, now) =>
      TouchKeepsInv(bs, target, c.local, c.k, now, c.f, c.w);
      TouchContacts(bs, target, now);
  }

  lemma {:induction false} PathSafe(c: Config, bs0: seq<Bucket>, ops: seq<Op>, bs: seq<Bucket>)
    requires c.k >= 1 && Inv(bs0, c.local, c.k, c.f, c.w) && Path(c, bs0, ops, bs)
    ensures Inv(bs, c.local, c.k, c.f, c.w) && KnownIn(bs) <= KnownIn(bs0) + OfferedIds(ops)
  {
    assert ops[0..] == ops;
    if ops != [] {
      var last := |ops| - 1;
      assert ops[..last][0..] == ops[..last];
      var mid :| Path(c, bs0, ops[..last], mid) && Next(c, mid, ops[last], bs);
      PathSafe(c, bs0, ops[..last], mid);
      StepSafe(c, mid, ops[last], bs);
      OfferedLast(ops, 0);
    }
  }

  /** Every reachable table satisfies the invariant and knows only identifiers that were offered. */
  lemma RunSafe(c: Config, ops: seq<Op>, bs: seq<Bucket>)
    requires c.k >= 1 && Reaches(c, ops, bs)
    ensures Inv(bs, c.local, c.k, c.f, c.w) && KnownIn(bs) <= OfferedIds(ops)
  {
    var now :| Path(c, Start(c.w, now), ops, bs);
    StartInv(c, now);
    PathSafe(c, Start(c.w, now), ops, bs);
  }

  /** Operation `i` removes the identifier, and none after it offers it. */
  ghost predicate GoneSince(ops: seq<Op>, i: nat, id: Id) {
    i < |ops| && ops[i].Remove? && ops[i].node.id == id && id !in OfferedIds(ops[i..])
  }

  /** A removed identifier is nowhere in the table until it is offered again. */
  lemma {:induction false} RemovedStaysOut(c: Config, bs0: seq<Bucket>, ops: seq<Op>, bs: seq<Bucket>, i: nat, id: Id)
    requires c.k >= 1 && Inv(bs0, c.local, c.k, c.f, c.w) && Path(c, bs0, ops, bs) && GoneSince(ops, i, id)
    ensures id !in KnownIn(bs)
    decreases |ops|
  {
    var mid := OutAfter(c, bs0, ops, bs, id);
    if i < |ops| - 1 {
      GoneBefore(ops, i, id);
      RemovedStaysOut(c, bs0, ops[..|ops| - 1], mid, i, id);
    }
  }

  lemma GoneBefore(ops: seq<Op>, i: nat, id: Id)
    requires GoneSince(ops, i, id) && i < |ops| - 1
    ensures GoneSince(ops[..|ops| - 1], i, id) && id !in OfferedIds([ops[|ops| - 1]])
  {
    OfferedLast(ops, i);
  }

  /** The last step of a run brings back nobody that it does not offer. */
  lemma OutAfter(c: Config, bs0: seq<Bucket>, ops: seq<Op>, bs: seq<Bucket>, id: Id) returns (mid: seq<Bucket>)
    requires c.k >= 1 && Inv(bs0, c.local, c.k, c.f, c.w) && ops != [] && Path(c, bs0, ops, bs)
    ensures Path(c, bs0, ops[..|ops| - 1], mid)
    ensures var op := ops[|ops| - 1];
      (op.Remove? && op.node.id == id) || (id !in KnownIn(mid) && id !in OfferedIds([op])) ==> id !in KnownIn(bs)
  {
    var last := |ops| - 1;
    mid :| Path(c, bs0, ops[..last], mid) && Next(c, mid, ops[last], bs);
    PathSafe(c, bs0, ops[..last], mid);
    StepSafe(c, mid, ops[last], bs);
  }

  ghost function FoldedTo(ids: set<Id>, f: Id -> nat, x: nat): set<Id> {
    set id | id in ids && f(id) == x
  }

  /** At most k of the identifiers fold to any one point. */
  ghost predicate Sparse(ids: set<Id>, f: Id -> nat, k: nat) {
    forall x: nat :: |FoldedTo(ids, f, x)| <= k
  }

  /** When at most k of the offered identifiers fold to one point, every addition returns. */
  lemma RunReturns(c: Config, ops: seq<Op>, bs: seq<Bucket>, node: Node, now: nat)
    requires c.k >= 1 && Reaches(c, ops, bs) && Offered(node, c.f, c.w)
    requires Sparse(OfferedIds(ops) + {node.id}, c.f, c.k)
    ensures Inv(bs, c.local, c.k, c.f, c.w)
    ensures AddContact(bs, node, c.local, c.k, now).Returned?
  {
    RunSafe(c, ops, bs);
    var near := FoldedTo(OfferedIds(ops) + {node.id}, c.f, node.longId);
    assert Rivals(bs, node, c.f) <= near - {node.id};
    SubsetSize(Rivals(bs, node, c.f), near - {node.id});
    AddReturns(bs, node, c.local, c.k, now, c.f, c.w);
  }
}

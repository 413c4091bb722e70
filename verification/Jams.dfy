/** A run of the table that ends in an addition from which the program never comes back. */
module Jams {
  import opened Bits
  import opened Nodes
  import opened Contacts
  import opened Buckets
  import opened Insertion
  import opened Table
  import opened TableRuns

  /** Other contacts at the owner's point, offered in order. */
  ghost predicate Crowd(c: Config, nodes: seq<Node>) {
    && NoDup(nodes)
    && forall n | n in nodes :: Offered(n, c.f, c.w) && n.longId == c.local.longId && n.id != c.local.id
  }

  function Adds(nodes: seq<Node>, now: nat): seq<Op> {
    seq(|nodes|, i requires 0 <= i < |nodes| => Add(nodes[i], now))
  }

  function OneBucket(c: Config, nodes: seq<Node>, now: nat): seq<Bucket> {
    [Bucket(0, Pow2(c.w) - 1, nodes, [], now)]
  }

  /** While there is room, the one bucket of a new table takes everybody. */
  lemma TakesOne(c: Config, nodes: seq<Node>, n: Node, now: nat)
    requires Crowd(c, nodes + [n]) && |nodes| < c.k
    ensures Next(c, OneBucket(c, nodes, now), Add(n, now), OneBucket(c, nodes + [n], now))
  {
    var bs, b := OneBucket(c, nodes, now), Bucket(0, Pow2(c.w) - 1, nodes, [], now);
    assert n in nodes + [n];
    NoDupConcat(nodes, [n]);
    assert AddNode(b, n, c.k) == (b.(nodes := nodes + [n]), true);
    var r := AddContact(bs, n, c.local, c.k, now);
    assert IndexFor(bs, n.longId) == 0;
    assert Splice(bs, 0, [b.(nodes := nodes + [n])]) == OneBucket(c, nodes + [n], now);
  }

  lemma CrowdFront(c: Config, front: seq<Node>, n: Node)
    requires Crowd(c, front + [n])
    ensures Crowd(c, front)
  {
    NoDupConcat(front, [n]);
    assert forall m | m in front :: m in front + [n];
  }

  lemma AddsLast(front: seq<Node>, n: Node, now: nat)
    ensures Adds(front + [n], now) == Adds(front, now) + [Add(n, now)]
  {
  }

  lemma {:induction false} FirstFit(c: Config, nodes: seq<Node>, now: nat)
    requires Crowd(c, nodes) && |nodes| <= c.k
    ensures Path(c, Start(c.w, now), Adds(nodes, now), OneBucket(c, nodes, now))
  {
    if nodes != [] {
      var last := |nodes| - 1;
      var front, n := nodes[..last], nodes[last];
      assert nodes == front + [n];
      CrowdFront(c, front, n);
      FirstFit(c, front, now);
      TakesOne(c, front, n, now);
      PathSnoc(c, Start(c.w, now), Adds(front, now), OneBucket(c, front, now), Add(n, now), OneBucket(c, nodes, now));
      AddsLast(front, n, now);
    }
  }

  /** The program does not come back from the addition. */
  ghost predicate Stuck(c: Config, bs: seq<Bucket>, node: Node, now: nat) {
    bs != [] && (forall b | b in bs :: b.lo <= b.hi) && AddContact(bs, node, c.local, c.k, now).NoReturn?
  }

  /** After k contacts at the owner's point, the addition of one more does not return. */
  lemma JamReached(c: Config, nodes: seq<Node>, now: nat)
    requires c.k >= 1 && |nodes| == c.k + 1 && Crowd(c, nodes)
    ensures var bs := OneBucket(c, nodes[..c.k], now);
      Reaches(c, Adds(nodes[..c.k], now), bs) && Stuck(c, bs, nodes[c.k], now)
  {
    var first, n := nodes[..c.k], nodes[c.k];
    var bs := OneBucket(c, first, now);
    assert nodes == first + [n];
    NoDupConcat(first, [n]);
    FirstFit(c, first, now);
    RunSafe(c, Adds(first, now), bs);
    AddJams(bs, n, c.local, c.k, now, c.f, c.w);
    assert n in nodes && IndexFor(bs, n.longId) == 0;
    var b1 := AddNode(bs[0], n, c.k).0;
    OwnPointSplits(b1, n.longId, c.k, now);
    AllTwins(first, b1, n, c.k);
  }

  lemma AllTwins(first: seq<Node>, b1: Bucket, n: Node, k: nat)
    requires NoDup(first) && |first| == k && b1.nodes == first && n.id !in Ids(first)
    requires forall m | m in first :: m.longId == n.longId
    ensures |Twins(b1, n)| >= k
  {
    CountIds(first);
    assert Ids(first) <= Twins(b1, n);
    SubsetSize(Ids(first), Twins(b1, n));
  }

  // ---------- Identifiers with one fold

  const TAILS: nat := 0x1_0000_0000

  /** The i-th of the identifiers that fold like `id` and differ from it. */
  function Twin(id: Id, i: nat): Id {
    Unfold(Fold(id), ToBytes(if i < FromBytes(id[16..]) then i else i + 1, 4))
  }

  lemma TailValue(n: nat)
    requires n < TAILS
    ensures FromBytes(ToBytes(n, 4)) == n
  {
    TimesByte(0);
    TimesByte(1);
    TimesByte(2);
    TimesByte(3);
    FromToBytes(n, 4);
  }

  lemma TwinFacts(id: Id, i: nat)
    requires i + 1 < TAILS
    ensures Fold(Twin(id, i)) == Fold(id) && Twin(id, i) != id
    ensures FromBytes(Twin(id, i)[16..]) == if i < FromBytes(id[16..]) then i else i + 1
  {
    var t := if i < FromBytes(id[16..]) then i else i + 1;
    TailValue(t);
    FoldFibre(Twin(id, i), Fold(id), ToBytes(t, 4));
  }

  function TwinNode(id: Id, i: nat): Node {
    MakeNode(Twin(id, i), None, None)
  }

  lemma TwinsApart(id: Id, i: nat, j: nat)
    requires i < j && j + 1 < TAILS
    ensures Twin(id, i) != Twin(id, j)
  {
    TwinFacts(id, i);
    TwinFacts(id, j);
  }

  lemma TwinOffered(c: Config, i: nat)
    requires IsNode(c) && i + 1 < TAILS
    ensures var n := TwinNode(c.local.id, i);
      Offered(n, c.f, c.w) && n.longId == c.local.longId && n.id != c.local.id
  {
    TwinFacts(c.local.id, i);
  }

  lemma TwinCrowd(c: Config, nodes: seq<Node>)
    requires IsNode(c) && |nodes| < TAILS && forall i | 0 <= i < |nodes| :: nodes[i] == TwinNode(c.local.id, i)
    ensures Crowd(c, nodes)
  {
    forall i, j | 0 <= i < j < |nodes| ensures nodes[i].id != nodes[j].id {
      TwinsApart(c.local.id, i, j);
    }
    forall n | n in nodes ensures Offered(n, c.f, c.w) && n.longId == c.local.longId && n.id != c.local.id {
      var i :| 0 <= i < |nodes| && nodes[i] == n;
      TwinOffered(c, i);
    }
  }

  /** For every owner and every bucket size below 2^32 - 1 there is a run of real identifiers after which
      an addition does not return. */
  lemma RealJam(c: Config, now: nat) returns (ops: seq<Op>, bs: seq<Bucket>, node: Node)
    requires IsNode(c) && c.k < TAILS - 1
    ensures Reaches(c, ops, bs) && Stuck(c, bs, node, now) && node == MakeNode(node.id, None, None)
  {
    var nodes := seq(c.k + 1, i requires 0 <= i < c.k + 1 => TwinNode(c.local.id, i));
    TwinCrowd(c, nodes);
    JamReached(c, nodes, now);
    ops, bs, node := Adds(nodes[..c.k], now), OneBucket(c, nodes[..c.k], now), nodes[c.k];
  }
}

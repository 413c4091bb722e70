/** Which holder of a key passes it on to a newcomer (section 2.5 of the Kademlia paper). */
module Replication {
  import opened Bits
  import opened Nodes
  import opened Buckets
  import opened Insertion
  import opened Table
  import opened Sorting
  import opened Neighbors

  /** The newcomer is nearer to the key than the farthest known neighbour. */
  predicate NewNodeClose(node: Node, key: Node, neighbors: seq<Node>) {
    neighbors == [] || node.DistanceTo(key) < neighbors[|neighbors| - 1].DistanceTo(key)
  }

  /** The holder is nearer to the key than the nearest known neighbour. */
  predicate ThisClosest(self: Node, key: Node, neighbors: seq<Node>) {
    neighbors == [] || self.DistanceTo(key) < neighbors[0].DistanceTo(key)
  }

  function KeyNode(key: Id): Node {
    MakeNode(key, None, None)
  }

  /** A stored record; only keys of identifier length take part in replication. */
  datatype Entry = Entry(key: seq<byte>, value: seq<byte>)

  predicate PassesOn(self: Node, node: Node, e: Entry, answer: Id -> seq<Node>) {
    && |e.key| == ID_LEN
    && NewNodeClose(node, KeyNode(e.key), answer(e.key))
    && ThisClosest(self, KeyNode(e.key), answer(e.key))
  }

  /** The entries that the holder sends to the newcomer; `answer` gives the neighbours of a key that
      are known before the newcomer is added. */
  function KeysToReplicate(self: Node, node: Node, entries: seq<Entry>, answer: Id -> seq<Node>): seq<Entry> {
    if entries == [] then []
    else
      var rest := KeysToReplicate(self, node, entries[1..], answer);
      if PassesOn(self, node, entries[0], answer) then [entries[0]] + rest else rest
  }

  lemma {:induction false} ReplicatedMembers(self: Node, node: Node, entries: seq<Entry>,
                                            answer: Id -> seq<Node>, e: Entry)
    ensures e in KeysToReplicate(self, node, entries, answer) <==>
            e in entries && PassesOn(self, node, e, answer)
  {
    if entries != [] {
      ReplicatedMembers(self, node, entries[1..], answer, e);
    }
  }

  /** A stored record is passed on if and only if its key has the length of an identifier and either nobody is known
      near the key, or the newcomer is nearer to it than the last of the neighbours and the holder nearer than
      the first. */
  lemma ReplicatesExactly(self: Node, node: Node, entries: seq<Entry>, answer: Id -> seq<Node>, e: Entry)
    ensures e in KeysToReplicate(self, node, entries, answer) <==>
            && e in entries && |e.key| == ID_LEN
            && var ns, x := answer(e.key), Fold(e.key);
            ns == [] || (Xor(node.longId, x) < Xor(ns[|ns| - 1].longId, x) && Xor(self.longId, x) < Xor(ns[0].longId, x))
  {
    ReplicatedMembers(self, node, entries, answer, e);
  }

  /** With the neighbours in ascending distance: the newcomer is nearer than some neighbour, and the holder nearer
      than all of them. */
  lemma ReplicatesNear(self: Node, node: Node, entries: seq<Entry>, answer: Id -> seq<Node>, e: Entry)
    requires |e.key| == ID_LEN && Ascending(answer(e.key), (n: Node) => n.DistanceTo(KeyNode(e.key)))
    ensures e in KeysToReplicate(self, node, entries, answer) <==>
            && e in entries
            && (answer(e.key) == [] || exists m | m in answer(e.key) :: Xor(node.longId, Fold(e.key)) < Xor(m.longId, Fold(e.key)))
            && (forall m | m in answer(e.key) :: Xor(self.longId, Fold(e.key)) < Xor(m.longId, Fold(e.key)))
  {
    ReplicatesExactly(self, node, entries, answer, e);
    var ns, key := answer(e.key), KeyNode(e.key);
    var dist := (n: Node) => n.DistanceTo(key);
    forall m | m in ns ensures ns[0].DistanceTo(key) <= m.DistanceTo(key) <= ns[|ns| - 1].DistanceTo(key) {
      FirstIsNearest(ns, key, m);
      var i :| 0 <= i < |ns| && ns[i] == m;
      assert dist(ns[i]) <= dist(ns[|ns| - 1]);
    }
    if ns != [] {
      assert ns[0] in ns && ns[|ns| - 1] in ns;
    }
  }

  /** Of two holders that see each other among the neighbours of a key, at most one passes. */
  lemma AtMostOneHolder(a: Node, b: Node, key: Node, seenByA: seq<Node>, seenByB: seq<Node>, a': Node, b': Node)
    requires Ascending(seenByA, (n: Node) => n.DistanceTo(key)) && Ascending(seenByB, (n: Node) => n.DistanceTo(key))
    requires b' in seenByA && b'.longId == b.longId
    requires a' in seenByB && a'.longId == a.longId
    ensures !(ThisClosest(a, key, seenByA) && ThisClosest(b, key, seenByB))
  {
    FirstIsNearest(seenByA, key, b');
    FirstIsNearest(seenByB, key, a');
  }

  lemma FirstIsNearest(r: seq<Node>, key: Node, n: Node)
    requires Ascending(r, (n: Node) => n.DistanceTo(key)) && n in r
    ensures r[0].DistanceTo(key) <= n.DistanceTo(key)
  {
    var dist := (n: Node) => n.DistanceTo(key);
    var i :| 0 <= i < |r| && r[i] == n;
    assert dist(r[0]) <= dist(r[i]);
  }

  // ---------- A fully connected cluster

  /** A member of the cluster knows every other member as a primary. */
  ghost predicate KnowsAll(self: Node, bs: seq<Bucket>, cluster: set<Id>, k: nat, f: Id -> nat, w: nat) {
    && Inv(bs, self, k, f, w)
    && self.longId == f(self.id) && self.id in cluster
    && PrimariesIn(bs) == cluster - {self.id}
  }

  lemma {:induction false} PrimaryOf(bs: seq<Bucket>, id: Id) returns (m: Node)
    requires id in PrimariesIn(bs)
    ensures m in Primaries(bs) && m.id == id
  {
    PrimariesFacts(bs);
    m :| m in Primaries(bs) && m.id == id;
  }

  lemma PrimaryGenuine(bs: seq<Bucket>, local: Node, k: nat, f: Id -> nat, w: nat, m: Node)
    requires Inv(bs, local, k, f, w) && m in Primaries(bs)
    ensures m.longId == f(m.id) && m.id in PrimariesIn(bs)
  {
    var j := PrimaryIndex(bs, m);
    assert bs[j] in bs && Holds(bs[j], m);
    PrimariesFacts(bs);
  }

  /** In a fully connected cluster of at most k + 1 nodes a member passes exactly when it is strictly
      nearer to the key than every other member. */
  lemma OnlyClosestPasses(self: Node, bs: seq<Bucket>, cluster: set<Id>, key: Node, r: seq<Node>,
                          k: nat, f: Id -> nat, w: nat)
    requires k >= 1 && KnowsAll(self, bs, cluster, k, f, w) && |cluster| <= k + 1 && key.id !in cluster
    requires IsAnswer(r, bs, key, None, k)
    ensures ThisClosest(self, key, r) <==>
            forall id | id in cluster && id != self.id :: self.DistanceTo(key) < Xor(f(id), key.longId)
  {
    assert Wanted(bs, key, None) == cluster - {self.id};
    assert |Wanted(bs, key, None)| <= k;
    if ThisClosest(self, key, r) {
      forall id | id in cluster && id != self.id ensures self.DistanceTo(key) < Xor(f(id), key.longId) {
        var m := PrimaryOf(bs, id);
        PrimaryGenuine(bs, self, k, f, w, m);
        AnswerComplete(r, bs, key, None, self, k, f, w, m);
        FirstIsNearest(r, key, m);
      }
    } else {
      AnswerIsPrimary(r, bs, key, None, k, r[0]);
      PrimaryGenuine(bs, self, k, f, w, r[0]);
      assert r[0].id in cluster && r[0].id != self.id;
    }
  }
}

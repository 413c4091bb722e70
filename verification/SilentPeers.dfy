/** A peer that never answers can be among the nodes that a lookup ends with: someone asked after it names it. */
module SilentPeers {
  import opened Nodes
  import opened Contacts
  import opened NodeHeaps
  import opened Crawls
  import opened Replies
  import opened CacheTargets

  /** Two peers, one asked at a time: the nearer one is silent and the farther one names it. */
  ghost predicate Gossip(t: Setting, p: Node, q: Node) {
    && t.peers == [p, q] && t.max == 2 && t.alpha == 1 && p.id != q.id && t.key(p) < t.key(q)
    && !t.net(p).happened && IsMissReply(t.net(q)) && NodeList(t.net(q)) == [p]
  }

  lemma TwoInOrder(s: seq<Node>, p: Node, q: Node, key: Node -> nat)
    requires |s| == 2 && s[0].id != s[1].id && key(s[0]) <= key(s[1]) && key(p) < key(q)
    requires (s[0] == p || s[0] == q) && (s[1] == p || s[1] == q)
    ensures s == [p, q]
  {
  }

  lemma SortedTwo(p: Node, q: Node, key: Node -> nat)
    requires p.id != q.id && key(p) < key(q)
    ensures Sorted([p, q], key, 2) == [p, q]
  {
    var h := [p, q];
    var s := Sorted(h, key, 2);
    SortedFacts(h, key, 2);
    SameMembers(s, h);
    assert s[0] in h && s[1] in h;
    TwoInOrder(s, p, q, key);
  }

  lemma SortedOne(q: Node, key: Node -> nat)
    ensures Sorted([q], key, 2) == [q]
  {
    var s := Sorted([q], key, 2);
    SortedFacts([q], key, 2);
    SameMembers(s, [q]);
    assert s[0] in s;
  }

  lemma OutsideOne(q: Node, ids: set<Id>)
    requires q.id !in ids
    ensures Outside([q], ids) == [q]
  {
    assert [q][1..] == [];
  }

  /** The first round asks the silent peer and drops it. */
  lemma FirstRound(t: Setting, p: Node, q: Node)
    requires Gossip(t, p, q)
    ensures Batch(Opening(t), t) == [p]
    ensures Advance(Opening(t), [p], t) == Standing([q], {p.id}, [p.id, q.id], [])
  {
    var st := Opening(t);
    MergedTwo(p, q);
    SortedTwo(p, q, t.key);
    OutsideAll([p, q]);
    assert IdSeq([p, q]) == [p.id, q.id];
    TakeLast(Heaps(st.heap, st.kept), [], p, t.net, t.key, t.max);
    assert [] + [p] == [p] && Ids([p]) == {p.id};
    SilentOne(p, t.net);
    assert (set id | id in [p.id]) == {p.id};
    assert [p, q][1..] == [q];
    OutsideOne(q, {p.id});
  }

  lemma SilentOne(n: Node, net: Network)
    ensures Silent([n], net) == if net(n).happened then [] else [n.id]
  {
    assert [n][..0] == [];
  }

  /** The second round asks the other peer, which brings the silent one back. */
  lemma SecondRound(t: Setting, p: Node, q: Node, st: Standing)
    requires Gossip(t, p, q) && st == Standing([q], {p.id}, [p.id, q.id], [])
    ensures Batch(st, t) == [q]
    ensures var st' := Advance(st, [q], t); st'.heap == [q, p] && st'.contacted == {p.id, q.id}
  {
    SortedOne(q, t.key);
    OutsideOne(q, {p.id});
    assert |IdSeq([q])| == 1;
    TakeLast(Heaps(st.heap, st.kept), [], q, t.net, t.key, t.max);
    assert [] + [q] == [q] && Ids([q]) == {q.id};
    BackAgain(p, q);
    SilentOne(q, t.net);
  }

  lemma BackAgain(p: Node, q: Node)
    requires p.id != q.id
    ensures Merged([q], [p]) == [q, p]
  {
    assert Ids([q]) == {q.id} && [q] + [p] == [q, p] && [p][1..] == [];
    assert Merged([q], [p]) == Merged([q, p], []);
  }

  /** The lookup is over, and the silent peer is among the nodes it answers with. */
  ghost predicate Answered(orders: seq<seq<Node>>, t: Setting, p: Node) {
    var st := After(orders, t);
    var r := Sorted(st.heap, t.key, t.max);
    && IsTrace(orders, t) && p in Flat(orders) && !t.net(p).happened
    && Outside(r, st.contacted) == [] && p in r
  }

  lemma AllAsked(t: Setting, p: Node, q: Node)
    requires p.id != q.id && t.max == 2
    ensures var r := Sorted([q, p], t.key, t.max); Outside(r, {p.id, q.id}) == [] && p in r
  {
    var r := Sorted([q, p], t.key, t.max);
    SortedFacts([q, p], t.key, t.max);
    SameMembers(r, [q, p]);
    NoneOutside(r, {p.id, q.id});
  }

  lemma {:induction false} NoneOutside(s: seq<Node>, ids: set<Id>)
    requires forall n | n in s :: n.id in ids
    ensures Outside(s, ids) == []
  {
    if s != [] {
      NoneOutside(s[1..], ids);
    }
  }

  lemma SilentAnswered(t: Setting, p: Node, q: Node)
    requires Gossip(t, p, q)
    ensures Answered([[p], [q]], t, p)
  {
    FirstRound(t, p, q);
    SecondRound(t, p, q, Advance(Opening(t), [p], t));
    OneRound([p], t);
    AfterLast([], [p], t);
    AfterLast([[p]], [q], t);
    assert [[p]] + [[q]] == [[p], [q]] && [] + [[p]] == [[p]];
    AllAsked(t, p, q);
  }

  /** A network in which nobody but `q` answers, and `q` names `p`. */
  function Whisper(p: Node, q: Node): Network {
    (n: Node) => if n.id == q.id then Response(true, Payload.Nodes([Tell(p)])) else Response(false, Empty)
  }

  /** Real identifiers and a real lookup that ends with a peer that never answered. */
  lemma SilentAnswerReached() returns (t: Setting, target: Node, p: Node, q: Node)
    ensures t.key == DistanceFrom(target) && Answered([[p], [q]], t, p)
  {
    target := SomebodyAt(0, 16);
    p := SomebodyAt(1, 16);
    q := SomebodyAt(2, 16);
    t := Setting(Whisper(p, q), [p, q], DistanceFrom(target), 2, 1);
    AtItsPoint(p, target);
    AtItsPoint(q, target);
    assert [Tell(p)][1..] == [];
    assert Decoded([Tell(p)]) == [p] + Decoded([]);
    SilentAnswered(t, p, q);
  }
}

/** The replies of a value lookup, taken one by one in some order: what they do to the nodes near the target
    and to the peer that is remembered as the place to cache the value. */
module Replies {
  import opened Nodes
  import opened Contacts
  import opened Sorting
  import opened NodeHeaps
  import opened Crawls

  /** A reply without a value. */
  predicate IsMissReply(r: Response) {
    r.happened && !r.payload.Value?
  }

  /** The asked nodes that answered, but not with a value. */
  ghost function Misses(net: Network, asked: seq<Node>): set<Id> {
    set n | n in asked && IsMissReply(net(n)) :: n.id
  }

  /** The near nodes and the remembered one. */
  datatype Heaps = Heaps(near: seq<Node>, kept: seq<Node>)

  /** A reply without a value: its peer is remembered if it is still near, and its nodes are pushed. */
  function TakeReply(hs: Heaps, id: Id, r: Response, key: Node -> nat, max: nat): Heaps {
    if !IsMissReply(r) then hs
    else
      var peer := Lookup(hs.near, id);
      Heaps(Pushed(hs.near, NodeList(r), key, max),
            if peer.None? then hs.kept else Pushed(hs.kept, [peer.value], key, 1))
  }

  function TakeReplies(hs: Heaps, order: seq<Node>, net: Network, key: Node -> nat, max: nat): Heaps {
    if order == [] then hs
    else
      var last := order[|order| - 1];
      TakeReply(TakeReplies(hs, order[..|order| - 1], net, key, max), last.id, net(last), key, max)
  }

  lemma TakeLast(hs: Heaps, order: seq<Node>, n: Node, net: Network, key: Node -> nat, max: nat)
    ensures TakeReplies(hs, order + [n], net, key, max) ==
            TakeReply(TakeReplies(hs, order, net, key, max), n.id, net(n), key, max)
  {
    assert (order + [n])[..|order|] == order;
  }

  lemma {:induction false} TakeConcat(hs: Heaps, a: seq<Node>, b: seq<Node>, net: Network, key: Node -> nat, max: nat)
    ensures TakeReplies(hs, a + b, net, key, max) == TakeReplies(TakeReplies(hs, a, net, key, max), b, net, key, max)
  {
    if b == [] {
      assert a + b == a;
    } else {
      var front, last := b[..|b| - 1], b[|b| - 1];
      assert a + b == (a + front) + [last] && b == front + [last];
      TakeConcat(hs, a, front, net, key, max);
      TakeLast(hs, a + front, last, net, key, max);
      TakeLast(TakeReplies(hs, a, net, key, max), front, last, net, key, max);
    }
  }

  // ---------- The heaps stay sound

  ghost predicate Sound(hs: Heaps, key: Node -> nat, max: nat, d: Id -> nat) {
    && NoDup(hs.near) && |hs.near| <= max && Keyed(hs.near, key, d)
    && NoDup(hs.kept) && |hs.kept| <= 1 && Keyed(hs.kept, key, d)
  }

  lemma PushedSound(h: seq<Node>, nodes: seq<Node>, key: Node -> nat, max: nat, d: Id -> nat)
    requires NoDup(h) && Keyed(h, key, d) && Keyed(nodes, key, d)
    ensures var p := Pushed(h, nodes, key, max);
      NoDup(p) && |p| <= max && Keyed(p, key, d) && Ids(p) <= Ids(h) + Ids(nodes)
  {
    PushedFacts(h, nodes, key, max);
    MergedKeyed(h, nodes, key, d);
    var m := Merged(h, nodes);
    SameMembers(m, SortByKey(m, key));
  }

  lemma ReplySound(hs: Heaps, id: Id, r: Response, key: Node -> nat, max: nat, d: Id -> nat)
    requires Sound(hs, key, max, d) && Keyed(NodeList(r), key, d)
    ensures Sound(TakeReply(hs, id, r, key, max), key, max, d)
    ensures Ids(TakeReply(hs, id, r, key, max).near) <= Ids(hs.near) + Ids(NodeList(r))
    ensures Ids(TakeReply(hs, id, r, key, max).kept) <= Ids(hs.kept) + (if IsMissReply(r) then {id} else {})
  {
    PushedSound(hs.near, NodeList(r), key, max, d);
    var peer := Lookup(hs.near, id);
    if peer.Some? {
      PushedSound(hs.kept, [peer.value], key, 1, d);
      assert Ids([peer.value]) == {id};
    }
  }

  lemma {:induction false} RepliesSound(hs: Heaps, order: seq<Node>, net: Network, key: Node -> nat, max: nat, d: Id -> nat)
    requires Sound(hs, key, max, d) && NetKeyed(net, key, d)
    ensures Sound(TakeReplies(hs, order, net, key, max), key, max, d)
    ensures Ids(TakeReplies(hs, order, net, key, max).kept) <= Ids(hs.kept) + Misses(net, order)
  {
    if order != [] {
      var front, last := order[..|order| - 1], order[|order| - 1];
      RepliesSound(hs, front, net, key, max, d);
      ReplySound(TakeReplies(hs, front, net, key, max), last.id, net(last), key, max, d);
      assert last in order && forall n | n in front :: n in order;
    }
  }

  // ---------- What the replies of a list of nodes name

  /** Everything that the replies of these nodes name. */
  ghost function AllNamed(net: Network, order: seq<Node>): set<Id> {
    set n, m | n in order && m in Named(net(n)) :: m.id
  }

  lemma NamedLast(net: Network, order: seq<Node>, n: Node)
    ensures AllNamed(net, order + [n]) == AllNamed(net, order) + Ids(Named(net(n)))
  {
    assert forall m | m in order + [n] :: m in order || m == n;
    assert n in order + [n] && forall m | m in order :: m in order + [n];
  }

  /** A reply without a value names its nodes, any other names nobody. */
  lemma NamedByReply(r: Response)
    ensures Named(r) == if IsMissReply(r) then NodeList(r) else []
  {
  }

  // ---------- Who is pushed out

  /** At least `max` other members of `s` are no farther than `m`. */
  ghost predicate Crowded(s: set<Id>, m: Id, max: nat, d: Id -> nat) {
    |Rivals(s, m, d)| >= max
  }

  ghost function Rivals(s: set<Id>, m: Id, d: Id -> nat): set<Id> {
    set id | id in s && id != m && d(id) <= d(m)
  }

  lemma CrowdGrows(s: set<Id>, more: set<Id>, m: Id, max: nat, d: Id -> nat)
    requires Crowded(s, m, max, d) && s <= more
    ensures Crowded(more, m, max, d)
  {
    SubsetSize(Rivals(s, m, d), Rivals(more, m, d));
  }

  lemma SortedOut(sorted: seq<Node>, m: Id, key: Node -> nat, max: nat, d: Id -> nat, id: Id)
    requires Ascending(sorted, key) && Keyed(sorted, key, d) && max <= |sorted|
    requires m in Ids(sorted) && m !in Ids(sorted[..max]) && id in Ids(sorted[..max])
    ensures d(id) <= d(m)
  {
    var n :| n in sorted && n.id == m;
    var x :| x in sorted[..max] && x.id == id;
    assert sorted == sorted[..max] + sorted[max..];
    assert n in sorted[max..];
    FrontNearer(sorted, key, max, x, n);
  }

  /** A node that does not make the cut leaves a full heap of nodes no farther than itself. */
  lemma CutOut(all: seq<Node>, m: Id, key: Node -> nat, max: nat, d: Id -> nat)
    requires NoDup(all) && Keyed(all, key, d) && m in Ids(all) && m !in Ids(Cut(all, key, max))
    ensures var c := Cut(all, key, max);
      NoDup(c) && |c| == max && Ids(c) <= Ids(all) && forall id | id in Ids(c) :: d(id) <= d(m)
  {
    var sorted := SortByKey(all, key);
    PermutationNoDup(all, sorted);
    SameMembers(all, sorted);
    PrefixFacts(sorted, max);
    forall id | id in Ids(sorted[..max]) ensures d(id) <= d(m) {
      SortedOut(sorted, m, key, max, d, id);
    }
  }

  /** A node that a push drops leaves a full heap of nodes no farther than itself. */
  lemma PushedOut(h: seq<Node>, nodes: seq<Node>, m: Id, s: set<Id>, key: Node -> nat, max: nat, d: Id -> nat)
    requires NoDup(h) && Keyed(h, key, d) && Keyed(nodes, key, d) && m in Ids(h)
    requires m !in Ids(Pushed(h, nodes, key, max)) && Ids(h) + Ids(nodes) <= s
    ensures Crowded(s, m, max, d)
  {
    var p := Pushed(h, nodes, key, max);
    MergedFacts(h, nodes);
    MergedKeyed(h, nodes, key, d);
    CutOut(Merged(h, nodes), m, key, max, d);
    CountIds(p);
    assert Ids(p) <= Rivals(s, m, d);
    SubsetSize(Ids(p), Rivals(s, m, d));
  }

  /** Whoever was near is near still, or crowded out. */
  lemma {:induction false} StillNear(hs: Heaps, order: seq<Node>, m: Id, net: Network, key: Node -> nat, max: nat, d: Id -> nat)
    requires Sound(hs, key, max, d) && NetKeyed(net, key, d) && m in Ids(hs.near)
    ensures var near := TakeReplies(hs, order, net, key, max).near;
      && Ids(near) <= Ids(hs.near) + AllNamed(net, order)
      && (m in Ids(near) || Crowded(Ids(hs.near) + AllNamed(net, order), m, max, d))
  {
    if order != [] {
      var front, last := order[..|order| - 1], order[|order| - 1];
      assert order == front + [last];
      var hs1 := TakeReplies(hs, front, net, key, max);
      StillNear(hs, front, m, net, key, max, d);
      RepliesSound(hs, front, net, key, max, d);
      NamedLast(net, front, last);
      NamedByReply(net(last));
      NearAfterReply(hs1, last.id, net(last), m, Ids(hs.near) + AllNamed(net, front), Ids(hs.near) + AllNamed(net, order), key, max, d);
    }
  }

  lemma NearAfterReply(hs: Heaps, id: Id, r: Response, m: Id, s: set<Id>, s': set<Id>, key: Node -> nat, max: nat, d: Id -> nat)
    requires Sound(hs, key, max, d) && Keyed(NodeList(r), key, d) && Ids(hs.near) <= s && s' == s + Ids(Named(r))
    requires m in Ids(hs.near) || Crowded(s, m, max, d)
    ensures var near := TakeReply(hs, id, r, key, max).near;
      Ids(near) <= s' && (m in Ids(near) || Crowded(s', m, max, d))
  {
    ReplySound(hs, id, r, key, max, d);
    if Crowded(s, m, max, d) {
      CrowdGrows(s, s', m, max, d);
    } else if IsMissReply(r) && m !in Ids(Pushed(hs.near, NodeList(r), key, max)) {
      PushedOut(hs.near, NodeList(r), m, s', key, max, d);
    }
  }

  // ---------- Who is remembered

  /** Of two candidates the nearer one is remembered. */
  lemma KeptNearest(c: seq<Node>, p: Node, key: Node -> nat, d: Id -> nat)
    requires NoDup(c) && |c| <= 1 && Keyed(c, key, d) && key(p) == d(p.id)
    ensures var c' := Pushed(c, [p], key, 1);
      && |c'| == 1 && d(c'[0].id) <= d(p.id) && (c'[0] == p || c' == c)
      && (c != [] ==> d(c'[0].id) <= d(c[0].id))
  {
    assert Merged(c, [p]) == Merged(if p.id in Ids(c) then c else c + [p], [p][1..]);
    if c == [] {
      assert c + [p] == [p];
    } else if p.id !in Ids(c) {
      var s := SortByKey(c + [p], key);
      assert s[0] in multiset(s) && s[0] in multiset(c + [p]);
      assert p in multiset(c + [p]) && c[0] in multiset(c + [p]);
      assert p in s && c[0] in s;
    }
  }

  /** The remembered peer is no farther than the miss, or the miss is crowded out. */
  ghost predicate Served(c: seq<Node>, m: Id, s: set<Id>, max: nat, d: Id -> nat) {
    (c != [] && d(c[0].id) <= d(m)) || Crowded(s, m, max, d)
  }

  /** A remembered peer lacked the value, there is one if anybody lacked it, and everybody who lacked it is
      served. */
  ghost predicate Caching(c: seq<Node>, misses: set<Id>, s: set<Id>, max: nat, d: Id -> nat) {
    && Ids(c) <= misses && (c == [] ==> misses == {})
    && forall m | m in misses :: Served(c, m, s, max, d)
  }

  /** One more reply. If nothing is remembered yet, its peer is still near. */
  lemma CachingReply(hs: Heaps, id: Id, r: Response, misses: set<Id>, s: set<Id>, s': set<Id>, key: Node -> nat, max: nat, d: Id -> nat)
    requires Sound(hs, key, max, d) && Caching(hs.kept, misses, s, max, d) && s <= s'
    requires id in Ids(hs.near) || (hs.kept != [] && Crowded(s, id, max, d))
    ensures Caching(TakeReply(hs, id, r, key, max).kept, misses + (if IsMissReply(r) then {id} else {}), s', max, d)
  {
    var c, peer := hs.kept, Lookup(hs.near, id);
    var c' := TakeReply(hs, id, r, key, max).kept;
    if IsMissReply(r) && peer.Some? {
      KeptNearest(c, peer.value, key, d);
    }
    forall m | m in misses + (if IsMissReply(r) then {id} else {}) ensures Served(c', m, s', max, d) {
      if Crowded(s, m, max, d) {
        CrowdGrows(s, s', m, max, d);
      } else if m != id {
        assert Served(c, m, s, max, d);
      }
    }
    assert c != [] ==> c[0].id in Ids(c);
  }

  /** Nobody is pushed out before somebody is remembered. */
  lemma {:induction false} FirstRemembered(hs: Heaps, order: seq<Node>, net: Network, key: Node -> nat, max: nat, d: Id -> nat)
    requires Sound(hs, key, max, d) && NetKeyed(net, key, d) && Ids(order) <= Ids(hs.near)
    ensures var hs' := TakeReplies(hs, order, net, key, max); hs'.kept == [] ==> hs' == hs
  {
    if order != [] {
      var front, last := order[..|order| - 1], order[|order| - 1];
      assert last in order && last.id in Ids(order) && Ids(front) <= Ids(order);
      FirstRemembered(hs, front, net, key, max, d);
      RepliesSound(hs, front, net, key, max, d);
      var hs1 := TakeReplies(hs, front, net, key, max);
      var peer := Lookup(hs1.near, last.id);
      if IsMissReply(net(last)) && peer.Some? {
        KeptNearest(hs1.kept, peer.value, key, d);
      }
    }
  }

  lemma MissesLast(net: Network, order: seq<Node>, n: Node)
    ensures Misses(net, order + [n]) == Misses(net, order) + (if IsMissReply(net(n)) then {n.id} else {})
  {
    assert forall m | m in order + [n] :: m in order || m == n;
    assert n in order + [n] && forall m | m in order :: m in order + [n];
  }

  /** When its turn comes, an asked node is near still, or it is crowded out and somebody is remembered. */
  lemma AtItsTurn(hs: Heaps, order: seq<Node>, id: Id, s: set<Id>, net: Network, key: Node -> nat, max: nat, d: Id -> nat)
    requires Sound(hs, key, max, d) && NetKeyed(net, key, d) && Ids(order) + {id} <= Ids(hs.near) <= s
    ensures var hs1 := TakeReplies(hs, order, net, key, max);
      id in Ids(hs1.near) || (hs1.kept != [] && Crowded(s + AllNamed(net, order), id, max, d))
  {
    StillNear(hs, order, id, net, key, max, d);
    FirstRemembered(hs, order, net, key, max, d);
    if id !in Ids(TakeReplies(hs, order, net, key, max).near) {
      CrowdGrows(Ids(hs.near) + AllNamed(net, order), s + AllNamed(net, order), id, max, d);
    }
  }

  /** After a round everybody who lacked the value is served. */
  lemma {:induction false} CachingRound(hs: Heaps, order: seq<Node>, misses: set<Id>, s: set<Id>, net: Network,
                                       key: Node -> nat, max: nat, d: Id -> nat)
    requires Sound(hs, key, max, d) && NetKeyed(net, key, d) && Ids(order) <= Ids(hs.near) <= s
    requires Caching(hs.kept, misses, s, max, d)
    ensures Caching(TakeReplies(hs, order, net, key, max).kept, misses + Misses(net, order), s + AllNamed(net, order), max, d)
  {
    if order == [] {
      assert misses + Misses(net, order) == misses && s + AllNamed(net, order) == s;
    } else {
      var front, last := order[..|order| - 1], order[|order| - 1];
      assert order == front + [last];
      NoDupConcat(front, [last]);
      assert last.id in Ids([last]);
      CachingRound(hs, front, misses, s, net, key, max, d);
      AtItsTurn(hs, front, last.id, s, net, key, max, d);
      CachingNext(hs, front, last, misses, s, net, key, max, d);
    }
  }

  lemma CachingNext(hs: Heaps, front: seq<Node>, last: Node, misses: set<Id>, s: set<Id>, net: Network,
                    key: Node -> nat, max: nat, d: Id -> nat)
    requires Sound(hs, key, max, d) && NetKeyed(net, key, d)
    requires var hs1, s1 := TakeReplies(hs, front, net, key, max), s + AllNamed(net, front);
      && Caching(hs1.kept, misses + Misses(net, front), s1, max, d)
      && (last.id in Ids(hs1.near) || (hs1.kept != [] && Crowded(s1, last.id, max, d)))
    ensures var order := front + [last];
      Caching(TakeReplies(hs, order, net, key, max).kept, misses + Misses(net, order), s + AllNamed(net, order), max, d)
  {
    var hs1, r := TakeReplies(hs, front, net, key, max), net(last);
    var m1, s1 := misses + Misses(net, front), s + AllNamed(net, front);
    var m2 := m1 + (if IsMissReply(r) then {last.id} else {});
    var s2 := s1 + Ids(Named(r));
    RepliesSound(hs, front, net, key, max, d);
    CachingReply(hs1, last.id, r, m1, s1, s2, key, max, d);
    assert Caching(TakeReply(hs1, last.id, r, key, max).kept, m2, s2, max, d);
    TakeLast(hs, front, last, net, key, max);
    SetsLast(net, front, last, misses, s);
  }

  lemma SetsLast(net: Network, front: seq<Node>, last: Node, misses: set<Id>, s: set<Id>)
    ensures misses + Misses(net, front) + (if IsMissReply(net(last)) then {last.id} else {}) == misses + Misses(net, front + [last])
    ensures s + AllNamed(net, front) + Ids(Named(net(last))) == s + AllNamed(net, front + [last])
  {
    NamedLast(net, front, last);
    MissesLast(net, front, last);
  }

  // ---------- Rounds

  /** The replies are those of the asked nodes, in some order. */
  ghost predicate IsOrder(order: seq<Node>, asked: seq<Node>) {
    NoDup(order) && forall n :: n in order <==> n in asked
  }

  /** What stays fixed in a lookup. */
  datatype Setting = Setting(net: Network, peers: seq<Node>, key: Node -> nat, max: nat, alpha: nat)

  /** A lookup between two rounds. */
  datatype Standing = Standing(heap: seq<Node>, contacted: set<Id>, lastIds: seq<Id>, kept: seq<Node>)

  function Opening(t: Setting): Standing {
    Standing(Pushed([], t.peers, t.key, t.max), {}, [], [])
  }

  /** The nodes of the list that did not answer. */
  function Silent(order: seq<Node>, net: Network): seq<Id> {
    if order == [] then []
    else
      var last := order[|order| - 1];
      Silent(order[..|order| - 1], net) + (if net(last).happened then [] else [last.id])
  }

  function Drop(h: seq<Node>, ids: seq<Id>): seq<Node> {
    if ids == [] then h else Outside(h, set id | id in ids)
  }

  /** The nodes that the next round asks. */
  function Batch(st: Standing, t: Setting): seq<Node> {
    Picks(st.heap, t.key, t.max, st.contacted, st.lastIds, t.alpha)
  }

  /** A round whose replies are taken in the given order. */
  function Advance(st: Standing, order: seq<Node>, t: Setting): Standing {
    var hs := TakeReplies(Heaps(st.heap, st.kept), order, t.net, t.key, t.max);
    Standing(Drop(hs.near, Silent(order, t.net)), st.contacted + Ids(order), IdSeq(Sorted(st.heap, t.key, t.max)), hs.kept)
  }

  function After(orders: seq<seq<Node>>, t: Setting): Standing {
    if orders == [] then Opening(t) else Advance(After(orders[..|orders| - 1], t), orders[|orders| - 1], t)
  }

  /** Each round takes the replies of the nodes that it has to ask. */
  ghost predicate IsTrace(orders: seq<seq<Node>>, t: Setting) {
    orders == [] ||
      var front, last := orders[..|orders| - 1], orders[|orders| - 1];
      IsTrace(front, t) && IsOrder(last, Batch(After(front, t), t))
  }

  function Flat(orders: seq<seq<Node>>): seq<Node> {
    if orders == [] then [] else Flat(orders[..|orders| - 1]) + orders[|orders| - 1]
  }

  lemma AfterLast(orders: seq<seq<Node>>, order: seq<Node>, t: Setting)
    ensures After(orders + [order], t) == Advance(After(orders, t), order, t)
    ensures Flat(orders + [order]) == Flat(orders) + order
    ensures IsTrace(orders + [order], t) <==> IsTrace(orders, t) && IsOrder(order, Batch(After(orders, t), t))
  {
    assert (orders + [order])[..|orders|] == orders;
  }

  lemma DropFacts(h: seq<Node>, ids: seq<Id>, key: Node -> nat, d: Id -> nat)
    requires NoDup(h) && Keyed(h, key, d)
    ensures NoDup(Drop(h, ids)) && |Drop(h, ids)| <= |h| && Keyed(Drop(h, ids), key, d) && Ids(Drop(h, ids)) <= Ids(h)
  {
    OutsideFacts(h, set id | id in ids);
  }

  ghost predicate Fair(t: Setting, d: Id -> nat) {
    Keyed(t.peers, t.key, d) && NetKeyed(t.net, t.key, d)
  }

  lemma AdvanceSound(st: Standing, order: seq<Node>, t: Setting, d: Id -> nat)
    requires Fair(t, d) && Sound(Heaps(st.heap, st.kept), t.key, t.max, d)
    ensures var st' := Advance(st, order, t); Sound(Heaps(st'.heap, st'.kept), t.key, t.max, d)
  {
    RepliesSound(Heaps(st.heap, st.kept), order, t.net, t.key, t.max, d);
    var hs := TakeReplies(Heaps(st.heap, st.kept), order, t.net, t.key, t.max);
    DropFacts(hs.near, Silent(order, t.net), t.key, d);
  }

  /** Whatever replies come in whatever order, the heaps stay sound. */
  lemma {:induction false} TraceSound(orders: seq<seq<Node>>, t: Setting, d: Id -> nat)
    requires Fair(t, d)
    ensures var st := After(orders, t); Sound(Heaps(st.heap, st.kept), t.key, t.max, d)
  {
    if orders == [] {
      PushedSound([], t.peers, t.key, t.max, d);
    } else {
      TraceSound(orders[..|orders| - 1], t, d);
      AdvanceSound(After(orders[..|orders| - 1], t), orders[|orders| - 1], t, d);
    }
  }

  /** Everything heard of. */
  ghost function Heard(t: Setting, asked: seq<Node>): set<Id> {
    Ids(t.peers) + AllNamed(t.net, asked)
  }

  lemma HeardConcat(t: Setting, a: seq<Node>, b: seq<Node>)
    ensures Heard(t, a + b) == Heard(t, a) + AllNamed(t.net, b)
    ensures Misses(t.net, a + b) == Misses(t.net, a) + Misses(t.net, b)
  {
    assert forall n | n in a + b :: n in a || n in b;
    assert forall n | n in a || n in b :: n in a + b;
  }

  lemma {:induction false} NearHeard(hs: Heaps, order: seq<Node>, net: Network, key: Node -> nat, max: nat, d: Id -> nat)
    requires Sound(hs, key, max, d) && NetKeyed(net, key, d)
    ensures Ids(TakeReplies(hs, order, net, key, max).near) <= Ids(hs.near) + AllNamed(net, order)
  {
    if order != [] {
      var front, last := order[..|order| - 1], order[|order| - 1];
      assert order == front + [last];
      NearHeard(hs, front, net, key, max, d);
      RepliesSound(hs, front, net, key, max, d);
      ReplySound(TakeReplies(hs, front, net, key, max), last.id, net(last), key, max, d);
      NamedLast(net, front, last);
      NamedByReply(net(last));
    }
  }

  /** What holds between the rounds of a trace. */
  ghost predicate Tracked(st: Standing, asked: seq<Node>, t: Setting, d: Id -> nat) {
    && Ids(st.heap) <= Heard(t, asked) && st.contacted == Ids(asked) && NoDup(asked)
    && Caching(st.kept, Misses(t.net, asked), Heard(t, asked), t.max, d)
  }

  lemma BatchFacts(st: Standing, order: seq<Node>, t: Setting)
    requires NoDup(st.heap) && |st.heap| <= t.max && IsOrder(order, Batch(st, t))
    ensures NoDup(order) && Ids(order) <= Ids(st.heap) - st.contacted
  {
    PicksNew(st.heap, t.key, t.max, st.contacted, st.lastIds, t.alpha);
  }

  lemma AdvanceTracked(st: Standing, asked: seq<Node>, order: seq<Node>, t: Setting, d: Id -> nat)
    requires Fair(t, d) && Sound(Heaps(st.heap, st.kept), t.key, t.max, d)
    requires Tracked(st, asked, t, d) && NoDup(order) && Ids(order) <= Ids(st.heap) - st.contacted
    ensures Tracked(Advance(st, order, t), asked + order, t, d)
  {
    var hs := Heaps(st.heap, st.kept);
    var hs' := TakeReplies(hs, order, t.net, t.key, t.max);
    NoDupConcat(asked, order);
    HeardConcat(t, asked, order);
    CachingRound(hs, order, Misses(t.net, asked), Heard(t, asked), t.net, t.key, t.max, d);
    NearHeard(hs, order, t.net, t.key, t.max, d);
    RepliesSound(hs, order, t.net, t.key, t.max, d);
    DropFacts(hs'.near, Silent(order, t.net), t.key, d);
  }

  /** In every trace: only nodes heard of are near, nobody is asked twice, and everybody who lacked the value
      is no nearer than the remembered peer, or crowded out. */
  lemma {:induction false} TraceTracked(orders: seq<seq<Node>>, t: Setting, d: Id -> nat)
    requires Fair(t, d) && IsTrace(orders, t)
    ensures Tracked(After(orders, t), Flat(orders), t, d)
  {
    if orders == [] {
      PushedSound([], t.peers, t.key, t.max, d);
    } else {
      var front, last := orders[..|orders| - 1], orders[|orders| - 1];
      TraceTracked(front, t, d);
      TraceSound(front, t, d);
      BatchFacts(After(front, t), last, t);
      AdvanceTracked(After(front, t), Flat(front), last, t, d);
    }
  }
}

/** Which peer a value lookup picks as the place to cache the value: exactly when it is the nearest one that
    lacked the value, whatever the order of the replies, and a lookup in which it is not. */
module CacheTargets {
  import opened Nodes
  import opened Contacts
  import opened Closest
  import opened NodeHeaps
  import opened Crawls
  import opened Replies
  import Bits
  import Refresh

  /** The members of `s` nearer than `p`. */
  ghost function NearerThan(s: set<Id>, p: Id, d: Id -> nat): set<Id> {
    set id | id in s && d(id) < d(p)
  }

  /** One of the k closest has fewer than k nearer ones before it. */
  lemma ClosestMember(t: set<Id>, s: set<Id>, k: nat, d: Id -> nat, p: Id)
    requires IsClosest(t, s, k, d) && p in s
    ensures p in t <==> |NearerThan(s, p, d)| < k
  {
    var nearer := NearerThan(s, p, d);
    if p in t {
      forall x | x in nearer ensures x in t - {p} {
        if x !in t {
          Nearer(p, x, t, s, k, d);
        }
      }
      SubsetSize(nearer, t - {p});
    } else {
      forall x | x in t ensures x in nearer {
        Nearer(x, p, t, s, k, d);
      }
      SubsetSize(t, nearer);
      if |s| < k {
        SubsetSize(t, s);
      }
    }
  }

  /** A heap within its size holds the closest of itself. */
  lemma HoldsItself(h: seq<Node>, key: Node -> nat, max: nat, d: Id -> nat)
    requires NoDup(h) && |h| <= max && Keyed(h, key, d)
    ensures StillClosest(h, Ids(h), key, max, d)
  {
    CountIds(h);
  }

  /** After any replies the near nodes are the closest of those that were near and those named since. */
  lemma {:induction false} NearIsClosest(hs: Heaps, order: seq<Node>, net: Network, key: Node -> nat, max: nat, d: Id -> nat)
    requires Sound(hs, key, max, d) && NetKeyed(net, key, d)
    ensures StillClosest(TakeReplies(hs, order, net, key, max).near, Ids(hs.near) + AllNamed(net, order), key, max, d)
  {
    if order == [] {
      HoldsItself(hs.near, key, max, d);
      assert Ids(hs.near) + AllNamed(net, order) == Ids(hs.near);
    } else {
      var front, last := order[..|order| - 1], order[|order| - 1];
      assert order == front + [last];
      NearIsClosest(hs, front, net, key, max, d);
      NamedLast(net, front, last);
      NamedByReply(net(last));
      var s := Ids(hs.near) + AllNamed(net, front);
      PushStill(TakeReplies(hs, front, net, key, max).near, Named(net(last)), s, key, max, d);
      assert s + Ids(Named(net(last))) == Ids(hs.near) + AllNamed(net, order);
      if !IsMissReply(net(last)) {
        assert s + Ids(Named(net(last))) == s;
      }
    }
  }

  /** A peer is still near after some replies exactly when fewer than `max` nearer nodes were near before or
      are named in them. */
  lemma NearExactly(hs: Heaps, order: seq<Node>, p: Id, net: Network, key: Node -> nat, max: nat, d: Id -> nat)
    requires Sound(hs, key, max, d) && NetKeyed(net, key, d) && p in Ids(hs.near)
    requires Distinct(Ids(hs.near) + AllNamed(net, order), d)
    ensures p in Ids(TakeReplies(hs, order, net, key, max).near) <==>
            |NearerThan(Ids(hs.near) + AllNamed(net, order), p, d)| < max
  {
    NearIsClosest(hs, order, net, key, max, d);
    ClosestMember(Ids(TakeReplies(hs, order, net, key, max).near), Ids(hs.near) + AllNamed(net, order), max, d, p);
  }

  // ---------- Whom the memory keeps

  /** `p` is nearer than all others in the set. */
  ghost predicate NearestOf(p: Id, s: set<Id>, d: Id -> nat) {
    forall m | m in s && m != p :: d(p) < d(m)
  }

  lemma KeptStaysReply(hs: Heaps, id: Id, r: Response, p: Id, key: Node -> nat, max: nat, d: Id -> nat)
    requires Sound(hs, key, max, d) && p in Ids(hs.kept) && (IsMissReply(r) && id != p ==> d(p) < d(id))
    ensures p in Ids(TakeReply(hs, id, r, key, max).kept)
  {
    var peer := Lookup(hs.near, id);
    assert hs.kept[0].id == p;
    if IsMissReply(r) && peer.Some? {
      KeptNearest(hs.kept, peer.value, key, d);
      var c := TakeReply(hs, id, r, key, max).kept;
      assert c[0] in c;
    }
  }

  /** Once remembered, the nearest stays. */
  lemma {:induction false} KeptStays(hs: Heaps, order: seq<Node>, p: Id, net: Network, key: Node -> nat, max: nat, d: Id -> nat)
    requires Sound(hs, key, max, d) && NetKeyed(net, key, d) && p in Ids(hs.kept) && NearestOf(p, Misses(net, order), d)
    ensures p in Ids(TakeReplies(hs, order, net, key, max).kept)
  {
    if order != [] {
      var front, last := order[..|order| - 1], order[|order| - 1];
      assert order == front + [last];
      MissesLast(net, front, last);
      KeptStays(hs, front, p, net, key, max, d);
      RepliesSound(hs, front, net, key, max, d);
      KeptStaysReply(TakeReplies(hs, front, net, key, max), last.id, net(last), p, key, max, d);
    }
  }

  /** The nearest is remembered at its turn exactly if it is still near. */
  lemma KeptAtTurn(hs: Heaps, p: Node, r: Response, key: Node -> nat, max: nat, d: Id -> nat)
    requires Sound(hs, key, max, d) && IsMissReply(r) && p.id !in Ids(hs.kept) && NearestOf(p.id, Ids(hs.kept), d)
    ensures p.id in Ids(TakeReply(hs, p.id, r, key, max).kept) <==> p.id in Ids(hs.near)
  {
    var peer := Lookup(hs.near, p.id);
    if peer.Some? {
      KeptNearest(hs.kept, peer.value, key, d);
      var c := TakeReply(hs, p.id, r, key, max).kept;
      assert c[0] in c;
      assert hs.kept != [] ==> hs.kept[0].id in Ids(hs.kept);
    }
  }

  /** The others of a round, and what they name. */
  ghost function Others(net: Network, order: seq<Node>, p: Id): set<Id> {
    set n, m | n in order && n.id != p && m in Named(net(n)) :: m.id
  }

  /** The nearest who lacked the value is remembered after its round exactly if it was near at its turn. */
  lemma RoundKeeps(hs: Heaps, pre: seq<Node>, p: Node, post: seq<Node>, net: Network, key: Node -> nat, max: nat, d: Id -> nat)
    requires Sound(hs, key, max, d) && NetKeyed(net, key, d) && NoDup(pre + [p] + post) && IsMissReply(net(p))
    requires p.id !in Ids(hs.kept) && NearestOf(p.id, Ids(hs.kept), d) && NearestOf(p.id, Misses(net, pre + [p] + post), d)
    ensures p.id in Ids(TakeReplies(hs, pre + [p] + post, net, key, max).kept) <==>
            p.id in Ids(TakeReplies(hs, pre, net, key, max).near)
  {
    var hs1 := TakeReplies(hs, pre, net, key, max);
    var hs2 := TakeReplies(hs, pre + [p], net, key, max);
    Apart(pre, p, post);
    MissesOfParts(net, pre, p, post);
    RepliesSound(hs, pre, net, key, max, d);
    TakeLast(hs, pre, p, net, key, max);
    assert NetKeyed(net, key, d);
    ReplySound(hs1, p.id, net(p), key, max, d);
    KeptAtTurn(hs1, p, net(p), key, max, d);
    TakeConcat(hs, pre + [p], post, net, key, max);
    if p.id in Ids(hs1.near) {
      KeptStays(hs2, post, p.id, net, key, max, d);
    } else {
      RepliesSound(hs2, post, net, key, max, d);
    }
  }

  lemma Apart(pre: seq<Node>, p: Node, post: seq<Node>)
    requires NoDup(pre + [p] + post)
    ensures NoDup(pre) && NoDup(post) && p.id !in Ids(pre) && p.id !in Ids(post)
  {
    NoDupConcat(pre + [p], post);
    NoDupConcat(pre, [p]);
    assert p.id in Ids([p]);
  }

  lemma MissesOfParts(net: Network, pre: seq<Node>, p: Node, post: seq<Node>)
    ensures Misses(net, pre) <= Misses(net, pre + [p] + post) && Misses(net, post) <= Misses(net, pre + [p] + post)
    ensures Misses(net, pre) <= Ids(pre) && Misses(net, post) <= Ids(post)
  {
    assert forall n | n in pre || n in post :: n in pre + [p] + post;
  }

  // ---------- Exactly, over all orders

  /** Fewer than `max` nearer nodes are near at the start of the round or named by its other misses. */
  ghost predicate HasRoom(near: seq<Node>, order: seq<Node>, p: Id, net: Network, max: nat, d: Id -> nat) {
    |NearerThan(Ids(near) + Others(net, order, p), p, d)| < max
  }

  /** What comes before `p` in an order names no more than the others do. */
  lemma NamedBefore(net: Network, o: seq<Node>, order: seq<Node>, pre: seq<Node>, p: Node, post: seq<Node>)
    requires IsOrder(order, o) && order == pre + [p] + post
    ensures AllNamed(net, pre) <= Others(net, o, p.id) && AllNamed(net, pre) <= AllNamed(net, o)
  {
    Apart(pre, p, post);
    forall n | n in pre ensures n in o && n.id != p.id {
      assert n in order && n.id in Ids(pre);
    }
  }

  lemma RoomBefore(near: seq<Node>, named: set<Id>, others: set<Id>, p: Id, max: nat, d: Id -> nat)
    requires |NearerThan(Ids(near) + others, p, d)| < max && named <= others
    ensures |NearerThan(Ids(near) + named, p, d)| < max
  {
    SubsetSize(NearerThan(Ids(near) + named, p, d), NearerThan(Ids(near) + others, p, d));
  }

  lemma SameMisses(net: Network, order: seq<Node>, o: seq<Node>)
    requires IsOrder(order, o)
    ensures Misses(net, order) == Misses(net, o)
  {
  }

  lemma RoomSufficesAt(hs: Heaps, pre: seq<Node>, p: Node, post: seq<Node>, others: set<Id>, net: Network,
                       key: Node -> nat, max: nat, d: Id -> nat)
    requires Sound(hs, key, max, d) && NetKeyed(net, key, d) && NoDup(pre + [p] + post) && p.id in Ids(hs.near)
    requires IsMissReply(net(p)) && p.id !in Ids(hs.kept) && NearestOf(p.id, Ids(hs.kept), d)
    requires NearestOf(p.id, Misses(net, pre + [p] + post), d) && Distinct(Ids(hs.near) + AllNamed(net, pre), d)
    requires AllNamed(net, pre) <= others && |NearerThan(Ids(hs.near) + others, p.id, d)| < max
    ensures p.id in Ids(TakeReplies(hs, pre + [p] + post, net, key, max).kept)
  {
    RoomBefore(hs.near, AllNamed(net, pre), others, p.id, max, d);
    NearExactly(hs, pre, p.id, net, key, max, d);
    RoundKeeps(hs, pre, p, post, net, key, max, d);
  }

  lemma Around(order: seq<Node>, p: Node) returns (pre: seq<Node>, post: seq<Node>)
    requires p in order
    ensures order == pre + [p] + post
  {
    var i :| 0 <= i < |order| && order[i] == p;
    pre, post := order[..i], order[i + 1..];
  }

  lemma DistinctPart(s: set<Id>, part: set<Id>, d: Id -> nat)
    requires Distinct(s, d) && part <= s
    ensures Distinct(part, d)
  {
  }

  /** With that much room it is remembered in any order. */
  lemma RoomSuffices(hs: Heaps, o: seq<Node>, order: seq<Node>, p: Node, net: Network, key: Node -> nat, max: nat, d: Id -> nat)
    requires Sound(hs, key, max, d) && NetKeyed(net, key, d) && IsOrder(order, o) && p in o && p.id in Ids(hs.near)
    requires IsMissReply(net(p)) && p.id !in Ids(hs.kept) && NearestOf(p.id, Ids(hs.kept), d) && NearestOf(p.id, Misses(net, o), d)
    requires Distinct(Ids(hs.near) + AllNamed(net, o), d) && HasRoom(hs.near, o, p.id, net, max, d)
    ensures p.id in Ids(TakeReplies(hs, order, net, key, max).kept)
  {
    var pre, post := Around(order, p);
    NamedBefore(net, o, order, pre, p, post);
    SameMisses(net, order, o);
    DistinctPart(Ids(hs.near) + AllNamed(net, o), Ids(hs.near) + AllNamed(net, pre), d);
    RoomSufficesAt(hs, pre, p, post, Others(net, o, p.id), net, key, max, d);
  }

  /** Without it, it is forgotten when its reply is taken last. */
  lemma NoRoomForgets(hs: Heaps, o: seq<Node>, p: Node, net: Network, key: Node -> nat, max: nat, d: Id -> nat) returns (order: seq<Node>)
    requires Sound(hs, key, max, d) && NetKeyed(net, key, d) && NoDup(o) && p in o && p.id in Ids(hs.near)
    requires IsMissReply(net(p)) && p.id !in Ids(hs.kept) && NearestOf(p.id, Ids(hs.kept), d) && NearestOf(p.id, Misses(net, o), d)
    requires Distinct(Ids(hs.near) + AllNamed(net, o), d) && !HasRoom(hs.near, o, p.id, net, max, d)
    ensures IsOrder(order, o) && p.id !in Ids(TakeReplies(hs, order, net, key, max).kept)
  {
    var i :| 0 <= i < |o| && o[i] == p;
    var pre := o[..i] + o[i + 1..];
    order := pre + [p];
    PutLast(o, i, pre);
    NamedWithout(net, o, pre, p.id);
    SameMisses(net, order, o);
    NearExactly(hs, pre, p.id, net, key, max, d);
    assert order == pre + [p] + [];
    RoundKeeps(hs, pre, p, [], net, key, max, d);
  }

  lemma NamedWithout(net: Network, o: seq<Node>, pre: seq<Node>, p: Id)
    requires forall n :: n in pre <==> n in o && n.id != p
    ensures AllNamed(net, pre) == Others(net, o, p) && AllNamed(net, pre) <= AllNamed(net, o)
  {
  }

  lemma PutLast(o: seq<Node>, i: nat, pre: seq<Node>)
    requires NoDup(o) && i < |o| && pre == o[..i] + o[i + 1..]
    ensures IsOrder(pre + [o[i]], o) && forall n :: n in pre <==> n in o && n.id != o[i].id
  {
    var a, b := o[..i], o[i + 1..];
    assert o == a + [o[i]] + b;
    Apart(a, o[i], b);
    NoDupConcat(a + [o[i]], b);
    NoDupConcat(a, [o[i]]);
    NoDupConcat(a, b);
    NoDupConcat(pre, [o[i]]);
  }

  /** In a round, the nearest who lacks the value is remembered in every order of the replies if and only if
      fewer than `max` nearer nodes are near at its start or named by its other misses. */
  lemma RoundExactly(hs: Heaps, o: seq<Node>, p: Node, net: Network, key: Node -> nat, max: nat, d: Id -> nat)
    requires Sound(hs, key, max, d) && NetKeyed(net, key, d) && NoDup(o) && p in o && p.id in Ids(hs.near)
    requires IsMissReply(net(p)) && p.id !in Ids(hs.kept) && NearestOf(p.id, Ids(hs.kept), d) && NearestOf(p.id, Misses(net, o), d)
    requires Distinct(Ids(hs.near) + AllNamed(net, o), d)
    ensures (forall order | IsOrder(order, o) :: p.id in Ids(TakeReplies(hs, order, net, key, max).kept)) <==>
            HasRoom(hs.near, o, p.id, net, max, d)
  {
    if HasRoom(hs.near, o, p.id, net, max, d) {
      forall order | IsOrder(order, o) ensures p.id in Ids(TakeReplies(hs, order, net, key, max).kept) {
        RoomSuffices(hs, o, order, p, net, key, max, d);
      }
    } else {
      var order := NoRoomForgets(hs, o, p, net, key, max, d);
    }
  }

  // ---------- The whole lookup

  lemma AfterConcat(orders: seq<seq<Node>>, more: seq<seq<Node>>, order: seq<Node>, t: Setting)
    ensures After(orders + (more + [order]), t) == Advance(After(orders + more, t), order, t)
    ensures Misses(t.net, Flat(orders + (more + [order]))) == Misses(t.net, Flat(orders + more)) + Misses(t.net, order)
  {
    Regroup(orders, more, [order]);
    OneMore(orders + more, order, t);
  }

  lemma Regroup<T>(a: seq<T>, b: seq<T>, c: seq<T>)
    ensures a + (b + c) == (a + b) + c
  {
  }

  lemma OneMore(orders: seq<seq<Node>>, order: seq<Node>, t: Setting)
    ensures After(orders + [order], t) == Advance(After(orders, t), order, t)
    ensures Misses(t.net, Flat(orders + [order])) == Misses(t.net, Flat(orders)) + Misses(t.net, order)
  {
    AfterLast(orders, order, t);
    HeardConcat(t, Flat(orders), order);
  }

  /** Once remembered, the nearest stays to the end; once forgotten, it does not come back. */
  lemma {:induction false} ToTheEnd(orders: seq<seq<Node>>, more: seq<seq<Node>>, p: Id, t: Setting, d: Id -> nat)
    requires Fair(t, d)
    ensures p in Ids(After(orders, t).kept) && NearestOf(p, Misses(t.net, Flat(orders + more)), d) ==>
              p in Ids(After(orders + more, t).kept)
    ensures p !in Ids(After(orders, t).kept) && p !in Misses(t.net, Flat(more)) ==> p !in Ids(After(orders + more, t).kept)
  {
    if more == [] {
      assert orders + more == orders;
    } else {
      var front, last := more[..|more| - 1], more[|more| - 1];
      assert more == front + [last];
      ToTheEnd(orders, front, p, t, d);
      AfterConcat(orders, front, last, t);
      AfterLast(front, last, t);
      HeardConcat(t, Flat(front), last);
      OneRoundMore(After(orders + front, t), last, p, orders + front, t, d);
    }
  }

  lemma OneRoundMore(st: Standing, order: seq<Node>, p: Id, orders: seq<seq<Node>>, t: Setting, d: Id -> nat)
    requires Fair(t, d) && st == After(orders, t)
    ensures p in Ids(st.kept) && NearestOf(p, Misses(t.net, order), d) ==> p in Ids(Advance(st, order, t).kept)
    ensures p !in Ids(st.kept) && p !in Misses(t.net, order) ==> p !in Ids(Advance(st, order, t).kept)
  {
    TraceSound(orders, t, d);
    var hs := Heaps(st.heap, st.kept);
    RepliesSound(hs, order, t.net, t.key, t.max, d);
    if p in Ids(st.kept) && NearestOf(p, Misses(t.net, order), d) {
      KeptStays(hs, order, p, t.net, t.key, t.max, d);
    }
  }

  /** `p` is the remembered peer after these rounds. */
  ghost predicate Remembered(p: Id, orders: seq<seq<Node>>, t: Setting) {
    p in Ids(After(orders, t).kept)
  }

  /** `p` lacks the value and is nearer than all others asked in these rounds who lack it. */
  ghost predicate NearestMiss(p: Node, orders: seq<seq<Node>>, t: Setting, d: Id -> nat) {
    p in Flat(orders) && IsMissReply(t.net(p)) && NearestOf(p.id, Misses(t.net, Flat(orders)), d)
  }

  lemma BeforeItsRound(pre: seq<seq<Node>>, o: seq<Node>, p: Node, t: Setting, d: Id -> nat)
    requires Fair(t, d) && IsTrace(pre + [o], t) && p in o && NearestMiss(p, pre + [o], t, d)
    ensures var st := After(pre, t);
      && Sound(Heaps(st.heap, st.kept), t.key, t.max, d) && NoDup(o) && p.id in Ids(st.heap)
      && p.id !in Ids(st.kept) && NearestOf(p.id, Ids(st.kept), d) && NearestOf(p.id, Misses(t.net, o), d)
  {
    AfterLast(pre, o, t);
    HeardConcat(t, Flat(pre), o);
    TraceSound(pre, t, d);
    TraceTracked(pre, t, d);
    BatchFacts(After(pre, t), o, t);
    assert p.id in Ids(o);
    assert Misses(t.net, Flat(pre)) <= Ids(Flat(pre));
  }

  lemma SameRound(pre: seq<seq<Node>>, order: seq<Node>, t: Setting)
    ensures After(pre + [order], t).kept == TakeReplies(Heaps(After(pre, t).heap, After(pre, t).kept), order, t.net, t.key, t.max).kept
  {
    AfterLast(pre, order, t);
  }

  lemma SameFlat(pre: seq<seq<Node>>, order: seq<Node>, o: seq<Node>, p: Node, t: Setting, d: Id -> nat)
    requires IsOrder(order, o) && NearestMiss(p, pre + [o], t, d)
    ensures NearestMiss(p, pre + [order], t, d)
  {
    AfterLast(pre, order, t);
    AfterLast(pre, o, t);
    assert Misses(t.net, Flat(pre) + order) == Misses(t.net, Flat(pre) + o);
  }

  lemma TargetAlways(pre: seq<seq<Node>>, o: seq<Node>, order: seq<Node>, more: seq<seq<Node>>, p: Node, t: Setting, d: Id -> nat)
    requires Fair(t, d) && IsTrace(pre + [o], t) && p in o && NearestMiss(p, pre + [o], t, d)
    requires Distinct(Ids(After(pre, t).heap) + AllNamed(t.net, o), d) && HasRoom(After(pre, t).heap, o, p.id, t.net, t.max, d)
    requires IsOrder(order, o) && NearestMiss(p, pre + [order] + more, t, d)
    ensures Remembered(p.id, pre + [order] + more, t)
  {
    BeforeItsRound(pre, o, p, t, d);
    RoomSuffices(Heaps(After(pre, t).heap, After(pre, t).kept), o, order, p, t.net, t.key, t.max, d);
    SameRound(pre, order, t);
    ToTheEnd(pre + [order], more, p.id, t, d);
  }

  lemma TargetLost(pre: seq<seq<Node>>, o: seq<Node>, p: Node, t: Setting, d: Id -> nat) returns (order: seq<Node>)
    requires Fair(t, d) && IsTrace(pre + [o], t) && p in o && NearestMiss(p, pre + [o], t, d)
    requires Distinct(Ids(After(pre, t).heap) + AllNamed(t.net, o), d) && !HasRoom(After(pre, t).heap, o, p.id, t.net, t.max, d)
    ensures IsOrder(order, o) && NearestMiss(p, pre + [order], t, d) && !Remembered(p.id, pre + [order], t)
  {
    BeforeItsRound(pre, o, p, t, d);
    order := NoRoomForgets(Heaps(After(pre, t).heap, After(pre, t).kept), o, p, t.net, t.key, t.max, d);
    SameRound(pre, order, t);
    SameFlat(pre, order, o, p, t, d);
  }

  /** The nearest peer who lacks the value is the place to cache it, whatever the order of the replies in its
      round and whatever comes after, if and only if fewer than `max` nearer nodes are near at the start of
      its round or named by the other misses of that round. */
  lemma TargetExactly(pre: seq<seq<Node>>, o: seq<Node>, p: Node, t: Setting, d: Id -> nat)
    requires Fair(t, d) && IsTrace(pre + [o], t) && p in o && NearestMiss(p, pre + [o], t, d)
    requires Distinct(Ids(After(pre, t).heap) + AllNamed(t.net, o), d)
    ensures (forall order, more | IsOrder(order, o) && NearestMiss(p, pre + [order] + more, t, d) ::
               Remembered(p.id, pre + [order] + more, t)) <==>
            HasRoom(After(pre, t).heap, o, p.id, t.net, t.max, d)
  {
    if HasRoom(After(pre, t).heap, o, p.id, t.net, t.max, d) {
      forall order, more | IsOrder(order, o) && NearestMiss(p, pre + [order] + more, t, d)
        ensures Remembered(p.id, pre + [order] + more, t)
      {
        TargetAlways(pre, o, order, more, p, t, d);
      }
    } else {
      var order := TargetLost(pre, o, p, t, d);
      assert pre + [order] + [] == pre + [order];
    }
  }

  // ---------- A lookup that caches the value at the farther peer

  /** Two peers lack the value, and the farther one names two nodes nearer than the other. */
  ghost predicate Staged(t: Setting, d: Id -> nat, p: Node, q: Node, x: Id, y: Id) {
    && Fair(t, d) && t.peers == [p, q] && t.max == 2 && t.alpha == 2
    && IsMissReply(t.net(p)) && IsMissReply(t.net(q)) && NodeList(t.net(p)) == [] && Ids(NodeList(t.net(q))) == {x, y}
    && d(x) < d(y) < d(p.id) < d(q.id)
  }

  lemma MergedTwo(p: Node, q: Node)
    requires p.id != q.id
    ensures Merged([], [p, q]) == [p, q]
  {
    assert [] + [p] == [p] && [p] + [q] == [p, q] && [p, q][1..] == [q] && [q][1..] == [];
    assert Ids([]) == {} && Ids([p]) == {p.id};
    assert Merged([], [p, q]) == Merged([p], [q]) == Merged([p, q], []);
  }

  /** The first round asks both. */
  lemma BatchTwo(h: seq<Node>, key: Node -> nat)
    requires NoDup(h) && |h| == 2
    ensures var b := Picks(h, key, 2, {}, [], 2); NoDup(b) && forall n :: n in b <==> n in h
  {
    var s := Sorted(h, key, 2);
    SortedFacts(h, key, 2);
    SameMembers(s, h);
    OutsideAll(s);
    assert |IdSeq(s)| == 2;
  }

  lemma OpeningHeap(t: Setting, p: Node, q: Node)
    requires t.peers == [p, q] && p.id != q.id && t.max == 2 && t.alpha == 2
    ensures Opening(t).heap == [p, q]
    ensures NoDup(Batch(Opening(t), t)) && forall n :: n in Batch(Opening(t), t) <==> n == p || n == q
  {
    MergedTwo(p, q);
    BatchTwo([p, q], t.key);
  }

  lemma {:induction false} OutsideAll(s: seq<Node>)
    ensures Outside(s, {}) == s
  {
    if s != [] {
      OutsideAll(s[1..]);
    }
  }

  lemma NamedByTwo(t: Setting, d: Id -> nat, p: Node, q: Node, x: Id, y: Id, o: seq<Node>, id: Id)
    requires Staged(t, d, p, q, x, y) && forall n :: n in o <==> n == p || n == q
    ensures id in AllNamed(t.net, o) <==> id in {x, y}
    ensures id in Others(t.net, o, p.id) <==> id in {x, y}
  {
    var named := NodeList(t.net(q));
    assert Named(t.net(p)) == [] && Named(t.net(q)) == named;
    if id in Ids(named) {
      var m :| m in named && m.id == id;
      assert q in o && m in Named(t.net(q)) && q.id != p.id;
    }
  }

  lemma MissesOfTwo(t: Setting, d: Id -> nat, p: Node, q: Node, x: Id, y: Id, o: seq<Node>)
    requires Staged(t, d, p, q, x, y) && forall n :: n in o <==> n == p || n == q
    ensures Misses(t.net, o) == {p.id, q.id}
  {
    assert p in o && q in o;
  }

  lemma NearerTwo(d: Id -> nat, p: Id, q: Id, x: Id, y: Id)
    requires d(x) < d(y) < d(p) < d(q)
    ensures Distinct({p, q} + {x, y}, d) && |NearerThan({p, q} + {x, y}, p, d)| >= 2
  {
    assert NearerThan({p, q} + {x, y}, p, d) == {x, y};
  }

  lemma TwoWithoutRoom(t: Setting, d: Id -> nat, p: Node, q: Node, x: Id, y: Id, o: seq<Node>, h: seq<Node>)
    requires Staged(t, d, p, q, x, y) && Ids(h) == {p.id, q.id} && forall n :: n in o <==> n == p || n == q
    ensures Distinct(Ids(h) + AllNamed(t.net, o), d) && !HasRoom(h, o, p.id, t.net, t.max, d)
  {
    NamedSets(t, d, p, q, x, y, o);
    NearerTwo(d, p.id, q.id, x, y);
  }

  lemma NearerOfTwo(t: Setting, d: Id -> nat, p: Node, q: Node, x: Id, y: Id, o: seq<Node>)
    requires Staged(t, d, p, q, x, y) && forall n :: n in o <==> n == p || n == q
    ensures NearestOf(p.id, Misses(t.net, o), d)
  {
    MissesOfTwo(t, d, p, q, x, y, o);
  }

  lemma IdsOfTwo(p: Node, q: Node)
    ensures Ids([p, q]) == {p.id, q.id}
  {
    assert p in [p, q] && q in [p, q];
  }

  lemma NamedSets(t: Setting, d: Id -> nat, p: Node, q: Node, x: Id, y: Id, o: seq<Node>)
    requires Staged(t, d, p, q, x, y) && forall n :: n in o <==> n == p || n == q
    ensures AllNamed(t.net, o) == {x, y} && Others(t.net, o, p.id) == {x, y}
  {
    forall id ensures (id in AllNamed(t.net, o) <==> id in {x, y}) && (id in Others(t.net, o, p.id) <==> id in {x, y}) {
      NamedByTwo(t, d, p, q, x, y, o, id);
    }
  }

  lemma OneRound(o: seq<Node>, t: Setting)
    ensures [] + [o] == [o] && Flat([o]) == o && (IsTrace([o], t) <==> IsOrder(o, Batch(Opening(t), t)))
  {
    AfterLast([], o, t);
    assert [] + [o] == [o] && Flat([]) + o == o;
  }

  /** Taken in the wrong order, the replies make the lookup remember the farther peer. */
  lemma NearestForgotten(t: Setting, d: Id -> nat, p: Node, q: Node, x: Id, y: Id) returns (order: seq<Node>)
    requires Staged(t, d, p, q, x, y)
    ensures IsTrace([order], t) && NearestMiss(p, [order], t, d) && d(p.id) < d(q.id)
    ensures !Remembered(p.id, [order], t) && Remembered(q.id, [order], t)
  {
    var o := Batch(Opening(t), t);
    BothAsked(t, d, p, q, x, y, o);
    order := LostAtOnce(o, p, t, d);
    SameBatch(order, o, t);
    OtherRemembered(t, d, p, q, x, y, order);
  }

  lemma BothAsked(t: Setting, d: Id -> nat, p: Node, q: Node, x: Id, y: Id, o: seq<Node>)
    requires Staged(t, d, p, q, x, y) && o == Batch(Opening(t), t)
    ensures NoDup(o) && (forall n :: n in o <==> n == p || n == q) && NearestOf(p.id, Misses(t.net, o), d)
    ensures Distinct(Ids(Opening(t).heap) + AllNamed(t.net, o), d) && !HasRoom(Opening(t).heap, o, p.id, t.net, t.max, d)
  {
    OpeningHeap(t, p, q);
    IdsOfTwo(p, q);
    TwoWithoutRoom(t, d, p, q, x, y, o, Opening(t).heap);
    NearerOfTwo(t, d, p, q, x, y, o);
  }

  lemma SameBatch(order: seq<Node>, o: seq<Node>, t: Setting)
    requires o == Batch(Opening(t), t) && IsOrder(order, o)
    ensures IsTrace([order], t) && forall n :: n in order <==> n in o
  {
    OneRound(order, t);
  }

  /** In the first round. */
  lemma LostAtOnce(o: seq<Node>, p: Node, t: Setting, d: Id -> nat) returns (order: seq<Node>)
    requires Fair(t, d) && IsOrder(o, Batch(Opening(t), t)) && p in o && IsMissReply(t.net(p))
    requires NearestOf(p.id, Misses(t.net, o), d) && Distinct(Ids(Opening(t).heap) + AllNamed(t.net, o), d)
    requires !HasRoom(Opening(t).heap, o, p.id, t.net, t.max, d)
    ensures IsOrder(order, o) && NearestMiss(p, [order], t, d) && !Remembered(p.id, [order], t)
  {
    OneRound(o, t);
    assert After([], t) == Opening(t);
    order := TargetLost([], o, p, t, d);
    OneRound(order, t);
  }

  lemma OtherRemembered(t: Setting, d: Id -> nat, p: Node, q: Node, x: Id, y: Id, order: seq<Node>)
    requires Staged(t, d, p, q, x, y) && IsTrace([order], t) && !Remembered(p.id, [order], t)
    requires forall n :: n in order <==> n == p || n == q
    ensures Remembered(q.id, [order], t)
  {
    OneRound(order, t);
    TraceTracked([order], t, d);
    MissesOfTwo(t, d, p, q, x, y, order);
    var c := After([order], t).kept;
    assert c[0].id in Ids(c);
  }

  lemma PointsEnough(e: nat)
    ensures Bits.Pow2(e) > e
  {
  }

  /** A node at a given point. */
  lemma SomebodyAt(x: nat, e: nat) returns (n: Node)
    requires e == 16 && x < e
    ensures n == MakeNode(n.id, None, None) && n.longId == x
  {
    PointsEnough(8 * e);
    Refresh.PointFolds(x);
    n := MakeNode(Refresh.PointId(x), None, None);
  }

  function Tell(n: Node): WireNode {
    WireNode(n.id, n.ip, n.port)
  }

  /** A network in which `q` names `x` and `y`, nobody else names anybody, and `x` and `y` have the value. */
  function Rumour(q: Node, x: Node, y: Node): Network {
    (n: Node) =>
      if n.id == q.id then Response(true, Payload.Nodes([Tell(x), Tell(y)]))
      else if n.id == x.id || n.id == y.id then Response(true, Value([]))
      else Response(true, Payload.Nodes([]))
  }

  lemma ToldTwo(x: Node, y: Node)
    requires x == MakeNode(x.id, None, None) && y == MakeNode(y.id, None, None)
    ensures Ids(Decoded([Tell(x), Tell(y)])) == {x.id, y.id}
  {
    var w := [Tell(x), Tell(y)];
    assert w[1..] == [Tell(y)] && [Tell(y)][1..] == [];
    assert Decoded(w) == [x] + Decoded(w[1..]);
    assert Decoded([Tell(y)]) == [y] + Decoded([]);
    assert Decoded(w) == [x, y];
  }

  lemma AtItsPoint(n: Node, target: Node)
    requires n == MakeNode(n.id, None, None) && target.longId == 0
    ensures FoldDistance(target)(n.id) == n.longId == DistanceFrom(target)(n)
  {
    Bits.XorZero(n.longId);
  }

  lemma RumourStaged(target: Node, p: Node, q: Node, x: Node, y: Node, t: Setting)
    requires p == MakeNode(p.id, None, None) && q == MakeNode(q.id, None, None)
    requires x == MakeNode(x.id, None, None) && y == MakeNode(y.id, None, None)
    requires target.longId == 0 && x.longId < y.longId < p.longId < q.longId
    requires t == Setting(Rumour(q, x, y), [p, q], DistanceFrom(target), 2, 2)
    ensures Staged(t, FoldDistance(target), p, q, x.id, y.id)
  {
    AnyNetKeyed(t.net, target);
    AtItsPoint(x, target);
    AtItsPoint(y, target);
    AtItsPoint(p, target);
    AtItsPoint(q, target);
    ToldTwo(x, y);
  }

  /** Real identifiers, a real lookup, and the value is cached at the farther of two peers without it. */
  lemma WrongTargetReached() returns (t: Setting, target: Node, p: Node, q: Node, order: seq<Node>)
    ensures t.key == DistanceFrom(target) && t.max == 2 && t.alpha == 2 && IsTrace([order], t)
    ensures NearestMiss(p, [order], t, FoldDistance(target))
    ensures !Remembered(p.id, [order], t) && Remembered(q.id, [order], t)
  {
    target := SomebodyAt(0, 16);
    var x := SomebodyAt(1, 16);
    var y := SomebodyAt(2, 16);
    p := SomebodyAt(3, 16);
    q := SomebodyAt(4, 16);
    t := Setting(Rumour(q, x, y), [p, q], DistanceFrom(target), 2, 2);
    RumourStaged(target, p, q, x, y, t);
    order := NearestForgotten(t, FoldDistance(target), p, q, x.id, y.id);
  }
}

/** The lookup for a value: the same rounds, ended early by the first round that brings values. */
module ValueCrawls {
  import opened Nodes
  import opened Contacts
  import opened NodeHeaps
  import opened Crawls
  import opened Replies

  predicate IsVote(r: Response, v: Bytes) {
    r.happened && r.payload == Value(v)
  }

  /** The asked nodes with identifiers in `ids` that answered with the value `v`. */
  ghost function Voters(net: Network, asked: seq<Node>, ids: set<Id>, v: Bytes): set<Node> {
    set n | n in asked && n.id in ids && IsVote(net(n), v)
  }

  /** `found` holds every value as often as it was answered. */
  ghost predicate Counted(found: seq<Bytes>, net: Network, asked: seq<Node>, ids: set<Id>) {
    forall v: Bytes :: multiset(found)[v] == |Voters(net, asked, ids, v)|
  }

  lemma VotersMore(net: Network, asked: seq<Node>, ids: set<Id>, n: Node, v: Bytes)
    requires NoDup(asked) && n in asked && n.id !in ids
    ensures Voters(net, asked, ids + {n.id}, v) == Voters(net, asked, ids, v) + (if IsVote(net(n), v) then {n} else {})
    ensures |Voters(net, asked, ids + {n.id}, v)| == |Voters(net, asked, ids, v)| + (if IsVote(net(n), v) then 1 else 0)
  {
    forall m | m in asked && m.id == n.id ensures m == n {
      var i :| 0 <= i < |asked| && asked[i] == m;
      var j :| 0 <= j < |asked| && asked[j] == n;
    }
  }

  /** Counting one more answer. */
  lemma CountedMore(found: seq<Bytes>, net: Network, asked: seq<Node>, ids: set<Id>, n: Node)
    requires NoDup(asked) && n in asked && n.id !in ids && Counted(found, net, asked, ids)
    ensures var r := net(n);
      Counted(if r.happened && r.payload.Value? then found + [r.payload.bytes] else found, net, asked, ids + {n.id})
  {
    var r := net(n);
    forall v: Bytes
      ensures multiset(if r.happened && r.payload.Value? then found + [r.payload.bytes] else found)[v] ==
              |Voters(net, asked, ids + {n.id}, v)|
    {
      VotersMore(net, asked, ids, n, v);
    }
  }

  /** The value with the most occurrences. */
  method Majority(found: seq<Bytes>) returns (v: Bytes)
    requires found != []
    ensures v in found && forall w: Bytes :: multiset(found)[w] <= multiset(found)[v]
  {
    var counts: map<Bytes, nat> := map[];
    for i := 0 to |found|
      invariant forall w: Bytes :: (w in counts <==> w in found[..i])
      invariant forall w | w in counts :: counts[w] == multiset(found[..i])[w]
    {
      assert found[..i + 1] == found[..i] + [found[i]];
      counts := counts[found[i] := (if found[i] in counts then counts[found[i]] else 0) + 1];
    }
    assert found[..|found|] == found;
    v := found[0];
    var rest := counts.Keys;
    while rest != {}
      invariant rest <= counts.Keys && v in found
      invariant forall w | w in counts.Keys - rest :: counts[w] <= counts[v]
    {
      var w :| w in rest;
      if counts[w] >= counts[v] {
        v := w;
      }
      rest := rest - {w};
    }
  }

  /** One answer of a value lookup: a value is a vote; otherwise the peer, if it is still near, is remembered as
      the place to cache the value, and its nodes are pushed. */
  method TakeValueAnswer(nearest: NodeHeap, cache: NodeHeap, id: Id, r: Response, ghost h0: seq<Node>,
                         ghost seen: set<Id>, ghost told: set<Id>, ghost d: Id -> nat, ghost good: bool)
    returns (vote: Option<Bytes>)
    requires nearest != cache && cache.pivot == nearest.pivot && cache.maxsize == 1
    requires Taken(nearest.heap, h0, seen, told, nearest.Key(), nearest.maxsize, d, good)
    requires Keyed(NodeList(r), nearest.Key(), d) && (good ==> r.happened)
    modifies nearest`heap, cache`heap
    ensures Taken(nearest.heap, h0, seen, told + Ids(Named(r)), nearest.Key(), nearest.maxsize, d, good)
    ensures vote == if r.happened && r.payload.Value? then Some(r.payload.bytes) else None
    ensures Heaps(nearest.heap, cache.heap) ==
            TakeReply(Heaps(old(nearest.heap), old(cache.heap)), id, r, nearest.Key(), nearest.maxsize)
  {
    vote := None;
    if r.happened && r.payload.Value? {
      vote := Some(r.payload.bytes);
      TakenMore(nearest.heap, h0, seen, told, Ids(Named(r)), nearest.Key(), nearest.maxsize, d, good);
    } else {
      if r.happened {
        var peer := nearest.GetNode(id);
        if peer.Some? {
          cache.Push([peer.value]);
        }
      }
      TakeAnswer(nearest, r, h0, seen, told, d, good);
    }
  }

  /** What was collected from the answers of those asked nodes whose identifiers are in `ids`: the values and
      the silent ones. */
  ghost predicate Progress(found: seq<Bytes>, toRemove: seq<Id>, net: Network, asked: seq<Node>, ids: set<Id>) {
    Counted(found, net, asked, ids) && Noted(toRemove, net, asked, ids)
  }

  lemma ProgressMore(found: seq<Bytes>, toRemove: seq<Id>, net: Network, asked: seq<Node>, ids: set<Id>, n: Node)
    requires NoDup(asked) && n in asked && n.id !in ids && Progress(found, toRemove, net, asked, ids)
    ensures var r := net(n);
      Progress(if r.happened && r.payload.Value? then found + [r.payload.bytes] else found,
               if r.happened then toRemove else toRemove + [n.id], net, asked, ids + {n.id})
  {
    CountedMore(found, net, asked, ids, n);
    NotedMore(toRemove, net, asked, ids, n);
  }

  /** The replies taken so far, in order, and the heaps and the silent ones after them. */
  ghost predicate TakenSoFar(hs: Heaps, toRemove: seq<Id>, hs0: Heaps, order: seq<Node>, asked: seq<Node>, ids: set<Id>,
                             net: Network, key: Node -> nat, max: nat)
  {
    && NoDup(order) && Ids(order) == ids && (forall n | n in order :: n in asked)
    && hs == TakeReplies(hs0, order, net, key, max) && toRemove == Silent(order, net)
  }

  lemma TakenOneMore(hs: Heaps, toRemove: seq<Id>, hs0: Heaps, order: seq<Node>, asked: seq<Node>, ids: set<Id>,
                     net: Network, key: Node -> nat, max: nat, n: Node)
    requires TakenSoFar(hs, toRemove, hs0, order, asked, ids, net, key, max) && n in asked && n.id !in ids
    ensures TakenSoFar(TakeReply(hs, n.id, net(n), key, max), if net(n).happened then toRemove else toRemove + [n.id],
                       hs0, order + [n], asked, ids + {n.id}, net, key, max)
  {
    NoDupConcat(order, [n]);
    assert Ids([n]) == {n.id};
    TakeLast(hs0, order, n, net, key, max);
    assert (order + [n])[..|order|] == order;
  }

  /** Everybody's reply was taken, in some order. */
  lemma AllTaken(order: seq<Node>, asked: seq<Node>)
    requires NoDup(order) && NoDup(asked) && Ids(order) == Ids(asked) && forall n | n in order :: n in asked
    ensures IsOrder(order, asked)
  {
    forall n | n in asked ensures n in order {
      assert n.id in Ids(order);
      var m :| m in order && m.id == n.id;
      var i :| 0 <= i < |asked| && asked[i] == m;
      var j :| 0 <= j < |asked| && asked[j] == n;
    }
  }

  /** One answer is taken in. */
  method AbsorbOne(nearest: NodeHeap, cache: NodeHeap, id: Id, r: Response, found: seq<Bytes>, toRemove: seq<Id>,
                   ghost n: Node, ghost hs0: Heaps, ghost order: seq<Node>, ghost net: Network, ghost asked: seq<Node>,
                   ghost ids: set<Id>, ghost seen: set<Id>, ghost d: Id -> nat, ghost good: bool)
    returns (found': seq<Bytes>, toRemove': seq<Id>)
    requires nearest != cache && cache.pivot == nearest.pivot && cache.maxsize == 1 && NoDup(asked)
    requires n in asked && n.id == id && id !in ids && r == net(n) && Keyed(NodeList(r), nearest.Key(), d) && (good ==> r.happened)
    requires Progress(found, toRemove, net, asked, ids)
    requires Taken(nearest.heap, hs0.near, seen, Told(net, asked, ids), nearest.Key(), nearest.maxsize, d, good)
    requires TakenSoFar(Heaps(nearest.heap, cache.heap), toRemove, hs0, order, asked, ids, net, nearest.Key(), nearest.maxsize)
    modifies nearest`heap, cache`heap
    ensures Progress(found', toRemove', net, asked, ids + {id})
    ensures Taken(nearest.heap, hs0.near, seen, Told(net, asked, ids + {id}), nearest.Key(), nearest.maxsize, d, good)
    ensures TakenSoFar(Heaps(nearest.heap, cache.heap), toRemove', hs0, order + [n], asked, ids + {id}, net, nearest.Key(), nearest.maxsize)
    ensures r.happened ==> toRemove' == toRemove
  {
    ProgressMore(found, toRemove, net, asked, ids, n);
    ToldMore(net, asked, ids, n);
    TakenOneMore(Heaps(nearest.heap, cache.heap), toRemove, hs0, order, asked, ids, net, nearest.Key(), nearest.maxsize, n);
    found', toRemove' := found, toRemove;
    if !r.happened {
      toRemove' := toRemove' + [id];
    }
    var vote := TakeValueAnswer(nearest, cache, id, r, hs0.near, seen, Told(net, asked, ids), d, good);
    if vote.Some? {
      found' := found' + [vote.value];
    }
  }

  /** Take in the answers of a round, in whatever order the map yields them: collect values, push the
      nodes of the answers without one, and drop the peers that did not answer. */
  method AbsorbValues(nearest: NodeHeap, cache: NodeHeap, responses: map<Id, Response>, ghost asked: seq<Node>,
                      ghost net: Network, ghost seen: set<Id>, ghost d: Id -> nat)
    returns (found: seq<Bytes>, ghost order: seq<Node>)
    requires nearest != cache && cache.pivot == nearest.pivot && cache.maxsize == 1
    requires NoDup(nearest.heap) && |nearest.heap| <= nearest.maxsize && NoDup(asked)
    requires Answers(responses, asked, net) && NetKeyed(net, nearest.Key(), d)
    modifies nearest`heap, cache`heap
    ensures Taken(nearest.heap, old(nearest.heap), seen, Told(net, asked, Ids(asked)), nearest.Key(), nearest.maxsize, d,
                  AllHappened(net, asked) && old(StillClosest(nearest.heap, seen, nearest.Key(), nearest.maxsize, d)))
    ensures Counted(found, net, asked, Ids(asked)) && Dropped(nearest.heap, net, asked)
    ensures IsOrder(order, asked)
    ensures var hs := TakeReplies(Heaps(old(nearest.heap), old(cache.heap)), order, net, nearest.Key(), nearest.maxsize);
      nearest.heap == Drop(hs.near, Silent(order, net)) && cache.heap == hs.kept
  {
    var pending := responses.Keys;
    var toRemove: seq<Id> := [];
    found, order := [], [];
    ghost var hs0 := Heaps(nearest.heap, cache.heap);
    ghost var good := AllHappened(net, asked) && StillClosest(nearest.heap, seen, nearest.Key(), nearest.maxsize, d);
    NothingYet(hs0, net, asked, seen, nearest.Key(), nearest.maxsize, d, good);
    assert responses.Keys - pending == {};
    while pending != {}
      invariant pending <= responses.Keys && Progress(found, toRemove, net, asked, responses.Keys - pending)
      invariant Taken(nearest.heap, hs0.near, seen, Told(net, asked, responses.Keys - pending), nearest.Key(), nearest.maxsize, d, good)
      invariant TakenSoFar(Heaps(nearest.heap, cache.heap), toRemove, hs0, order, asked, responses.Keys - pending, net,
                           nearest.Key(), nearest.maxsize)
      invariant good ==> toRemove == []
    {
      var id :| id in pending;
      ghost var n := Asked(responses, asked, net, pending, id);
      found, toRemove := AbsorbOne(nearest, cache, id, responses[id], found, toRemove, n, hs0, order, net, asked,
                                   responses.Keys - pending, seen, d, good);
      order := order + [n];
      pending := pending - {id};
    }
    assert responses.Keys - pending == Ids(asked);
    AllTaken(order, asked);
    NotedAll(nearest.heap, toRemove, net, asked);
    TakenDrop(nearest.heap, hs0.near, seen, Told(net, asked, Ids(asked)), (set id | id in toRemove), nearest.Key(), nearest.maxsize, d);
    nearest.Remove(toRemove);
  }

  lemma NothingYet(hs: Heaps, net: Network, asked: seq<Node>, seen: set<Id>, key: Node -> nat, max: nat, d: Id -> nat, good: bool)
    requires NoDup(hs.near) && |hs.near| <= max && (good ==> StillClosest(hs.near, seen, key, max, d))
    ensures Progress([], [], net, asked, {}) && Taken(hs.near, hs.near, seen, Told(net, asked, {}), key, max, d, good)
    ensures TakenSoFar(hs, [], hs, [], asked, {}, net, key, max)
  {
    assert Told(net, asked, {}) == {} && seen + {} == seen;
    assert forall v: Bytes :: Voters(net, asked, {}, v) == {};
  }

  // ---------- The whole lookup

  /** None of the nodes answered with a value. */
  ghost predicate NoVotes(net: Network, asked: seq<Node>) {
    forall n, v: Bytes | n in asked :: !IsVote(net(n), v)
  }

  lemma NothingFound(net: Network, batch: seq<Node>)
    requires Counted([], net, batch, Ids(batch))
    ensures NoVotes(net, batch)
  {
    forall n, v: Bytes | n in batch ensures !IsVote(net(n), v) {
      assert multiset([])[v] == |Voters(net, batch, Ids(batch), v)|;
      assert n.id in Ids(batch);
      assert n !in Voters(net, batch, Ids(batch), v);
    }
  }

  /** Where a lookup stands between two rounds. */
  ghost function StandingOf(crawl: SpiderCrawl, cache: NodeHeap): Standing
    reads crawl, crawl.nearest, cache
  {
    Standing(crawl.nearest.heap, crawl.nearest.contacted, crawl.lastIds, cache.heap)
  }

  function SettingOf(crawl: SpiderCrawl, net: Network, peers: seq<Node>): Setting {
    Setting(net, peers, DistanceFrom(crawl.target), crawl.ksize, crawl.alpha)
  }

  /** One round of a value lookup. */
  method ValueRound(crawl: SpiderCrawl, cache: NodeHeap, net: Network, ghost asked: seq<Node>, ghost peers: seq<Node>,
                    ghost d: Id -> nat)
    returns (found: seq<Bytes>, batch: seq<Node>, ghost order: seq<Node>)
    requires cache != crawl.nearest && cache.pivot == crawl.target && cache.maxsize == 1
    requires Crawling(crawl, asked, net, peers, d) && NetKeyed(net, crawl.nearest.Key(), d)
    modifies crawl, crawl.nearest, cache`heap
    ensures Crawling(crawl, asked + batch, net, peers, d)
    ensures Ids(batch) !! old(crawl.nearest.contacted)
    ensures crawl.nearest.contacted == old(crawl.nearest.contacted) + Ids(batch)
    ensures batch == [] ==> Settled(crawl)
    ensures batch == [] ==> Ids(crawl.nearest.heap) <= crawl.nearest.contacted || (crawl.alpha == 0 && !old(Settled(crawl)))
    ensures Counted(found, net, batch, Ids(batch))
    ensures IsOrder(order, batch) && batch == old(Batch(StandingOf(crawl, cache), SettingOf(crawl, net, peers)))
    ensures StandingOf(crawl, cache) == Advance(old(StandingOf(crawl, cache)), order, SettingOf(crawl, net, peers))
  {
    ghost var h, c, key := crawl.nearest.heap, crawl.nearest.contacted, crawl.nearest.Key();
    PicksNew(h, key, crawl.ksize, c, crawl.lastIds, crawl.alpha);
    PicksNobody(h, key, crawl.ksize, c, crawl.lastIds, crawl.alpha);
    var round, responses := crawl.FindRound(net);
    found, order := AbsorbValues(crawl.nearest, cache, responses, round, net, Seen(net, peers, asked), d);
    CrawlStep(h, c, asked, net, peers, key, crawl.ksize, d, round, crawl.nearest.heap);
    VouchStep(h, asked, net, round, crawl.nearest.heap);
    batch := round;
    NobodyAsked(order, batch);
  }

  lemma NobodyAsked(order: seq<Node>, batch: seq<Node>)
    requires IsOrder(order, batch)
    ensures Ids(order) == Ids(batch) && (batch == [] ==> order == [])
  {
    assert order != [] ==> order[0] in order;
  }

  /** `v` was answered in the round `last`, by at least as many nodes as any other value; the rounds
      before brought no value. */
  ghost predicate IsMajority(v: Bytes, net: Network, before: seq<Node>, last: seq<Node>) {
    && NoVotes(net, before)
    && Voters(net, last, Ids(last), v) != {}
    && forall w: Bytes :: |Voters(net, last, Ids(last), w)| <= |Voters(net, last, Ids(last), v)|
  }

  lemma MajorityWins(found: seq<Bytes>, v: Bytes, net: Network, before: seq<Node>, last: seq<Node>)
    requires Counted(found, net, last, Ids(last)) && NoVotes(net, before) && v in found
    requires forall w: Bytes :: multiset(found)[w] <= multiset(found)[v]
    ensures IsMajority(v, net, before, last)
  {
    assert v in multiset(found);
    forall w: Bytes ensures |Voters(net, last, Ids(last), w)| <= |Voters(net, last, Ids(last), v)| {
      assert multiset(found)[w] <= multiset(found)[v];
    }
  }

  /** The place to cache the value: a node that was asked and did not have it, if there is one, and everybody
      else who did not have it is no nearer, or at least `max` other nodes heard of are no farther than it. */
  ghost predicate IsTarget(storeAt: Option<Node>, misses: set<Id>, seen: set<Id>, max: nat, d: Id -> nat) {
    if storeAt.None? then misses == {}
    else storeAt.value.id in misses && forall m | m in misses :: d(storeAt.value.id) <= d(m) || Crowded(seen, m, max, d)
  }

  /** A hit: the majority value of the first round that brought one. The replies of the rounds were taken in the
      orders `orders`, and the place to cache the value is the peer remembered after them. */
  ghost predicate IsHit(v: Bytes, r: seq<Node>, storeAt: Option<Node>, t: Setting, orders: seq<seq<Node>>,
                        before: seq<Node>, last: seq<Node>, d: Id -> nat)
  {
    && NoDup(before + last) && Ids(before + last) <= Seen(t.net, t.peers, before + last)
    && r == [] && IsMajority(v, t.net, before, last)
    && IsTarget(storeAt, Misses(t.net, before + last), Seen(t.net, t.peers, before + last), t.max, d)
    && storeAt == First(After(orders, t).kept)
  }

  function First(s: seq<Node>): Option<Node> {
    if s == [] then None else Some(s[0])
  }

  /** The orders are those of the asked nodes. */
  ghost predicate Covers(orders: seq<seq<Node>>, asked: seq<Node>) {
    forall n :: n in Flat(orders) <==> n in asked
  }

  lemma SeenIsHeard(orders: seq<seq<Node>>, asked: seq<Node>, t: Setting)
    requires Covers(orders, asked)
    ensures Seen(t.net, t.peers, asked) == Heard(t, Flat(orders)) && Misses(t.net, asked) == Misses(t.net, Flat(orders))
  {
    assert forall n | n in asked :: n.id in Ids(asked);
    assert Told(t.net, asked, Ids(asked)) == AllNamed(t.net, Flat(orders));
  }

  lemma TargetServed(orders: seq<seq<Node>>, asked: seq<Node>, t: Setting, d: Id -> nat)
    requires Fair(t, d) && IsTrace(orders, t) && Covers(orders, asked)
    ensures IsTarget(First(After(orders, t).kept), Misses(t.net, asked), Seen(t.net, t.peers, asked), t.max, d)
    ensures |After(orders, t).kept| <= 1
  {
    TraceTracked(orders, t, d);
    TraceSound(orders, t, d);
    SeenIsHeard(orders, asked, t);
    var c, s := After(orders, t).kept, Heard(t, Flat(orders));
    assert c != [] ==> c[0].id in Ids(c);
    forall m | m in Misses(t.net, asked) ensures Served(c, m, s, t.max, d) {
    }
  }

  /** A miss: nobody asked had a value, and the nodes are those of a node lookup. */
  ghost predicate IsMiss(r: seq<Node>, storeAt: Option<Node>, net: Network, peers: seq<Node>, asked: seq<Node>,
                         key: Node -> nat, max: nat, d: Id -> nat)
  {
    storeAt.None? && NoVotes(net, asked) && IsLookup(r, asked, net, peers, key, max, d)
  }

  lemma NoVotesConcat(net: Network, a: seq<Node>, b: seq<Node>)
    requires NoVotes(net, a) && NoVotes(net, b)
    ensures NoVotes(net, a + b)
  {
    assert forall n | n in a + b :: n in a || n in b;
  }

  /** What makes a hit. */
  lemma HitHolds(found: seq<Bytes>, v: Bytes, storeAt: Option<Node>, t: Setting, orders: seq<seq<Node>>, before: seq<Node>,
                 last: seq<Node>, d: Id -> nat)
    requires NoDup(before + last) && Ids(before + last) <= Seen(t.net, t.peers, before + last)
    requires Counted(found, t.net, last, Ids(last)) && NoVotes(t.net, before) && v in found
    requires forall w: Bytes :: multiset(found)[w] <= multiset(found)[v]
    requires Fair(t, d) && IsTrace(orders, t) && Covers(orders, before + last) && storeAt == First(After(orders, t).kept)
    ensures IsHit(v, [], storeAt, t, orders, before, last, d)
  {
    MajorityWins(found, v, t.net, before, last);
    TargetServed(orders, before + last, t, d);
  }

  /** The only node of a small heap is its first. */
  lemma PoppedFirst(h: seq<Node>, n: Option<Node>)
    requires |h| <= 1 && (h == [] ==> n == None) && (h != [] ==> n.Some? && n.value in h)
    ensures n == First(h)
  {
  }

  /** What to do after a round: answer the majority value, answer the nodes, or go on. */
  method Decide(crawl: SpiderCrawl, cache: NodeHeap, found: seq<Bytes>, net: Network, peers: seq<Node>, ghost t: Setting,
                ghost before: seq<Node>, ghost last: seq<Node>, ghost orders: seq<seq<Node>>, ghost d: Id -> nat)
    returns (over: bool, value: Option<Bytes>, r: seq<Node>, storeAt: Option<Node>)
    requires Crawling(crawl, before + last, net, peers, d) && cache != crawl.nearest && t == SettingOf(crawl, net, peers)
    requires Counted(found, net, last, Ids(last)) && NoVotes(net, before)
    requires Fair(t, d) && IsTrace(orders, t) && Covers(orders, before + last) && cache.heap == After(orders, t).kept
    modifies cache`heap
    ensures !over || value.None? || IsHit(value.value, r, storeAt, t, orders, before, last, d)
    ensures !over || value.Some? || IsMiss(r, storeAt, net, peers, before + last, crawl.nearest.Key(), crawl.ksize, d)
    ensures !over ==> cache.heap == old(cache.heap) && NoVotes(net, before + last)
    ensures !over ==> !(Ids(crawl.nearest.heap) <= crawl.nearest.contacted)
  {
    value, r, storeAt := None, [], None;
    if found != [] {
      var v := Majority(found);
      ghost var kept := cache.heap;
      TargetServed(orders, before + last, t, d);
      storeAt := cache.PopLeft();
      PoppedFirst(kept, storeAt);
      HitHolds(found, v, storeAt, t, orders, before, last, d);
      return true, Some(v), [], storeAt;
    }
    NothingFound(net, last);
    NoVotesConcat(net, before, last);
    over, r := Finished(crawl, net, before + last, peers, d);
  }

  /** A value lookup under way: nobody asked so far had a value, and the replies were taken in `orders`. */
  ghost predicate Searching(crawl: SpiderCrawl, cache: NodeHeap, asked: seq<Node>, orders: seq<seq<Node>>, t: Setting, d: Id -> nat)
    reads crawl, crawl.nearest, cache
  {
    && Crawling(crawl, asked, t.net, t.peers, d) && t == SettingOf(crawl, t.net, t.peers)
    && cache != crawl.nearest && cache.pivot == crawl.target && cache.maxsize == 1
    && NoVotes(t.net, asked) && Covers(orders, asked) && IsTrace(orders, t) && StandingOf(crawl, cache) == After(orders, t)
  }

  /** The trace grows by the round. */
  lemma TraceGrows(orders: seq<seq<Node>>, order: seq<Node>, st: Standing, before: seq<Node>, last: seq<Node>, t: Setting)
    requires IsTrace(orders, t) && Covers(orders, before) && IsOrder(order, last) && last == Batch(After(orders, t), t)
    requires st == Advance(After(orders, t), order, t)
    ensures IsTrace(orders + [order], t) && st == After(orders + [order], t) && Covers(orders + [order], before + last)
  {
    AfterLast(orders, order, t);
  }

  /** Somebody new was asked, or `alpha` is 0 and the nearest have just settled. */
  ghost predicate Moved(before: set<Id>, after: set<Id>, last: seq<Node>, alpha: nat, wasSettled: bool, isSettled: bool) {
    if last == [] then after == before && alpha == 0 && !wasSettled && isSettled
    else Ids(last) !! before && after == before + Ids(last)
  }

  /** The trace of a lookup after its latest round, before its answers are counted. */
  ghost predicate Traced(crawl: SpiderCrawl, cache: NodeHeap, asked: seq<Node>, orders: seq<seq<Node>>, t: Setting)
    reads crawl, crawl.nearest, cache
  {
    Covers(orders, asked) && IsTrace(orders, t) && StandingOf(crawl, cache) == After(orders, t)
  }

  /** A round that asks nobody new ends the lookup or settles it. */
  ghost predicate Going(crawl: SpiderCrawl, before: set<Id>, last: seq<Node>, wasSettled: bool)
    reads crawl, crawl.nearest
  {
    || Ids(crawl.nearest.heap) <= crawl.nearest.contacted
    || Moved(before, crawl.nearest.contacted, last, crawl.alpha, wasSettled, Settled(crawl))
  }

  method TracedRound(crawl: SpiderCrawl, cache: NodeHeap, net: Network, ghost peers: seq<Node>, ghost t: Setting,
                     ghost before: seq<Node>, ghost orders: seq<seq<Node>>, ghost d: Id -> nat)
    returns (found: seq<Bytes>, last: seq<Node>, ghost order: seq<Node>)
    requires t == SettingOf(crawl, net, peers) && Searching(crawl, cache, before, orders, t, d) && Fair(t, d)
    modifies crawl, crawl.nearest, cache`heap
    ensures Crawling(crawl, before + last, net, peers, d) && Counted(found, net, last, Ids(last))
    ensures Traced(crawl, cache, before + last, orders + [order], t)
    ensures Going(crawl, old(crawl.nearest.contacted), last, old(Settled(crawl)))
  {
    found, last, order := ValueRound(crawl, cache, net, before, peers, d);
    TraceGrows(orders, order, StandingOf(crawl, cache), before, last, t);
  }

  /** A round and the decision after it. A round that goes on has asked somebody new, or `alpha` is 0
      and the nearest have settled. */
  method SearchRound(crawl: SpiderCrawl, cache: NodeHeap, net: Network, peers: seq<Node>, ghost t: Setting, ghost before: seq<Node>,
                     ghost orders: seq<seq<Node>>, ghost d: Id -> nat)
    returns (over: bool, value: Option<Bytes>, r: seq<Node>, storeAt: Option<Node>, last: seq<Node>, ghost order: seq<Node>)
    requires t == SettingOf(crawl, net, peers) && Searching(crawl, cache, before, orders, t, d) && Fair(t, d)
    modifies crawl, crawl.nearest, cache`heap
    ensures IsTrace(orders + [order], t)
    ensures !over || value.None? || IsHit(value.value, r, storeAt, t, orders + [order], before, last, d)
    ensures !over || value.Some? || IsMiss(r, storeAt, net, peers, before + last, crawl.nearest.Key(), crawl.ksize, d)
    ensures over || Searching(crawl, cache, before + last, orders + [order], t, d)
    ensures over || Moved(old(crawl.nearest.contacted), crawl.nearest.contacted, last, crawl.alpha, old(Settled(crawl)), Settled(crawl))
  {
    var found;
    found, last, order := TracedRound(crawl, cache, net, peers, t, before, orders, d);
    over, value, r, storeAt := Decide(crawl, cache, found, net, peers, t, before, last, orders + [order], d);
  }

  /** Rounds until a value is found or everybody near was asked. */
  method ValueRounds(crawl: SpiderCrawl, cache: NodeHeap, net: Network, peers: seq<Node>, ghost t: Setting, ghost d: Id -> nat)
    returns (value: Option<Bytes>, r: seq<Node>, storeAt: Option<Node>,
             before: seq<Node>, last: seq<Node>, rounds: nat, ghost orders: seq<seq<Node>>)
    requires t == SettingOf(crawl, net, peers) && Searching(crawl, cache, [], [], t, d) && Fair(t, d)
    modifies crawl, crawl.nearest, cache`heap
    ensures IsTrace(orders, t)
    ensures value.None? || IsHit(value.value, r, storeAt, t, orders, before, last, d)
    ensures value.Some? || IsMiss(r, storeAt, net, peers, before + last, crawl.nearest.Key(), crawl.ksize, d)
    ensures rounds <= (if crawl.alpha >= 1 then |before| + 1 else 2 * |before| + 2)
  {
    before, last, rounds, orders := [], [], 0, [];
    value, r, storeAt := None, [], None;
    var over := false;
    ghost var all := EveryId();
    while !over
      invariant IsTrace(orders, t)
      invariant if over then rounds <= (if crawl.alpha >= 1 then |before| + 1 else 2 * |before| + 2)
                else FewRounds(rounds, |before|, crawl.alpha, Settled(crawl))
      invariant over || Searching(crawl, cache, before, orders, t, d)
      invariant !over || value.None? || IsHit(value.value, r, storeAt, t, orders, before, last, d)
      invariant !over || value.Some? || IsMiss(r, storeAt, net, peers, before + last, crawl.nearest.Key(), crawl.ksize, d)
      decreases !over, all - crawl.nearest.contacted, !Settled(crawl)
    {
      ghost var c := crawl.nearest.contacted;
      ghost var order;
      over, value, r, storeAt, last, order := SearchRound(crawl, cache, net, peers, t, before, orders, d);
      orders := orders + [order];
      rounds := rounds + 1;
      if !over {
        if last != [] {
          SomebodyNew(all, c, last);
        }
        before, last := before + last, [];
      }
    }
  }

  /** The lookup for a value. */
  method FindValue(net: Network, target: Node, peers: seq<Node>, ksize: nat, alpha: nat, ghost d: Id -> nat)
    returns (value: Option<Bytes>, r: seq<Node>, storeAt: Option<Node>,
             before: seq<Node>, last: seq<Node>, rounds: nat, ghost orders: seq<seq<Node>>)
    requires Keyed(peers, DistanceFrom(target), d) && NetKeyed(net, DistanceFrom(target), d)
    ensures IsTrace(orders, Setting(net, peers, DistanceFrom(target), ksize, alpha))
    ensures value.None? || IsHit(value.value, r, storeAt, Setting(net, peers, DistanceFrom(target), ksize, alpha), orders, before, last, d)
    ensures value.Some? || IsMiss(r, storeAt, net, peers, before + last, DistanceFrom(target), ksize, d)
    ensures rounds <= (if alpha >= 1 then |before| + 1 else 2 * |before| + 2)
  {
    var crawl := Begin(net, target, peers, ksize, alpha, d);
    var cache := new NodeHeap(target, 1);
    value, r, storeAt, before, last, rounds, orders := ValueRounds(crawl, cache, net, peers, SettingOf(crawl, net, peers), d);
  }
}

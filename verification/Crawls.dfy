/** The iterative lookup: rounds of queries to the nearest known nodes that were not asked yet, against
    a network that may answer anything. */
module Crawls {
  import opened Bits
  import opened Nodes
  import opened Contacts
  import opened Sorting
  import opened Closest
  import opened NodeHeaps

  datatype WireNode = WireNode(idBytes: seq<byte>, ip: Option<string>, port: Option<nat>)

  datatype Payload = Nodes(tuples: seq<WireNode>) | Value(bytes: seq<byte>) | Empty

  datatype Response = Response(happened: bool, payload: Payload)

  /** What each node answers. A lookup asks a node at most once, so one answer per node is enough to
      describe any network. */
  type Network = Node -> Response

  function Decoded(tuples: seq<WireNode>): seq<Node> {
    if tuples == [] then []
    else if |tuples[0].idBytes| != ID_LEN then Decoded(tuples[1..])
    else [MakeNode(tuples[0].idBytes, tuples[0].ip, tuples[0].port)] + Decoded(tuples[1..])
  }

  /** The tuples of a list are decoded one after the other. */
  lemma {:induction false} DecodedConcat(a: seq<WireNode>, b: seq<WireNode>)
    ensures Decoded(a + b) == Decoded(a) + Decoded(b)
  {
    if a == [] {
      assert a + b == b;
    } else {
      assert (a + b)[1..] == a[1..] + b;
      DecodedConcat(a[1..], b);
    }
  }

  /** A tuple with an identifier of the right length is the node with that identifier, its fold and the address of
      the tuple; any other tuple is nobody. */
  lemma DecodedOne(t: WireNode)
    ensures Decoded([t]) == if |t.idBytes| == ID_LEN then [Node(t.idBytes, t.ip, t.port, Fold(t.idBytes))] else []
  {
    assert [t][1..] == [];
  }

  /** Every good tuple of a reply comes out, wherever it stands, and nothing else does. */
  lemma {:induction false} DecodedExactly(tuples: seq<WireNode>, n: Node)
    ensures n in Decoded(tuples) <==>
            exists t | t in tuples :: |t.idBytes| == ID_LEN && n == Node(t.idBytes, t.ip, t.port, Fold(t.idBytes))
  {
    if tuples != [] {
      var t, rest := tuples[0], tuples[1..];
      assert tuples == [t] + rest;
      DecodedExactly(rest, n);
      DecodedConcat([t], rest);
      DecodedOne(t);
    }
  }

  /** The nodes of a reply; tuples whose identifier has the wrong length are skipped. */
  function NodeList(r: Response): seq<Node> {
    if r.payload.Nodes? then Decoded(r.payload.tuples) else []
  }

  function IdSeq(s: seq<Node>): (r: seq<Id>)
    ensures |r| == |s| && forall i | 0 <= i < |s| :: r[i] == s[i].id
  {
    if s == [] then [] else [s[0].id] + IdSeq(s[1..])
  }

  /** The nodes that a round asks: all that remain when the nearest did not change since the last
      round, otherwise the first `alpha` of them. */
  function Picks(h: seq<Node>, key: Node -> nat, max: nat, contacted: set<Id>, lastIds: seq<Id>, alpha: nat)
    : seq<Node>
  {
    var s := Sorted(h, key, max);
    var count := if IdSeq(s) == lastIds then |s| else alpha;
    var u := Outside(s, contacted);
    if |u| <= count then u else u[..count]
  }

  lemma {:induction false} OutsideFacts(s: seq<Node>, ids: set<Id>)
    requires NoDup(s)
    ensures NoDup(Outside(s, ids)) && Ids(Outside(s, ids)) == Ids(s) - ids
    ensures forall n | n in Outside(s, ids) :: n in s
  {
    if s != [] {
      OutsideFacts(s[1..], ids);
      assert s == [s[0]] + s[1..];
      NoDupConcat([s[0]], s[1..]);
      NoDupConcat([s[0]], Outside(s[1..], ids));
    }
  }

  lemma SortedFacts(h: seq<Node>, key: Node -> nat, max: nat)
    requires NoDup(h) && |h| <= max
    ensures var s := Sorted(h, key, max);
      NoDup(s) && Ids(s) == Ids(h) && |s| == |h| && Ascending(s, key) && multiset(s) == multiset(h)
  {
    PermutationNoDup(h, SortByKey(h, key));
  }

  lemma PrefixFacts(u: seq<Node>, n: nat)
    requires NoDup(u) && n <= |u|
    ensures NoDup(u[..n]) && Ids(u[..n]) <= Ids(u)
  {
  }

  lemma NobodyLeft(h: seq<Node>, key: Node -> nat, max: nat, contacted: set<Id>)
    requires NoDup(h) && |h| <= max
    ensures var u := Outside(Sorted(h, key, max), contacted);
      NoDup(u) && Ids(u) == Ids(h) - contacted && (u == [] <==> Ids(h) <= contacted)
  {
    var s := Sorted(h, key, max);
    SortedFacts(h, key, max);
    OutsideFacts(s, contacted);
    var u := Outside(s, contacted);
    if u == [] {
      forall id | id in Ids(h) ensures id in contacted {
        assert id !in Ids(u);
      }
    } else {
      assert u[0].id in Ids(u);
    }
  }

  /** A round asks new nodes of the heap, each once. */
  lemma PicksNew(h: seq<Node>, key: Node -> nat, max: nat, contacted: set<Id>, lastIds: seq<Id>, alpha: nat)
    requires NoDup(h) && |h| <= max
    ensures var p := Picks(h, key, max, contacted, lastIds, alpha); NoDup(p) && Ids(p) <= Ids(h) - contacted
  {
    NobodyLeft(h, key, max, contacted);
    var u := Outside(Sorted(h, key, max), contacted);
    PrefixFacts(u, |Picks(h, key, max, contacted, lastIds, alpha)|);
  }

  /** A round asks nobody exactly when everybody was asked, or `alpha` is 0 and the nearest changed. */
  lemma PicksNobody(h: seq<Node>, key: Node -> nat, max: nat, contacted: set<Id>, lastIds: seq<Id>, alpha: nat)
    requires NoDup(h) && |h| <= max
    ensures Picks(h, key, max, contacted, lastIds, alpha) == [] <==>
            Ids(h) <= contacted || (alpha == 0 && IdSeq(Sorted(h, key, max)) != lastIds)
  {
    NobodyLeft(h, key, max, contacted);
  }

  /** Whom a round asks: nodes of the heap that were not contacted, nearest first. If the nearest changed since the
      last round there are `alpha` of them, or fewer if no more are left; otherwise all that are left. Nobody who
      is left out is nearer than one who is asked. */
  ghost predicate IsRound(asked: seq<Node>, h: seq<Node>, key: Node -> nat, contacted: set<Id>, changed: bool, alpha: nat) {
    && NoDup(asked) && Ascending(asked, key)
    && (forall n | n in asked :: n in h && n.id !in contacted)
    && (var left := |Ids(h) - contacted|; |asked| == if changed && alpha < left then alpha else left)
    && (!changed ==> Ids(asked) == Ids(h) - contacted)
    && (forall n, m | n in asked && m in h && m.id !in contacted && m !in asked :: key(n) <= key(m))
  }

  lemma SameNode(s: seq<Node>, n: Node, m: Node)
    requires NoDup(s) && n in s && m in s && n.id == m.id
    ensures n == m
  {
    var i :| 0 <= i < |s| && s[i] == n;
    var j :| 0 <= j < |s| && s[j] == m;
  }

  /** `u` is everybody of the heap who was not contacted, nearest first. */
  ghost predicate IsLeft(u: seq<Node>, h: seq<Node>, key: Node -> nat, contacted: set<Id>) {
    && NoDup(u) && Ascending(u, key) && Ids(u) == Ids(h) - contacted && forall n | n in u :: n in h
  }

  /** A node that is left and not among the first ones comes later. */
  lemma LaterOne(u: seq<Node>, c: nat, h: seq<Node>, key: Node -> nat, contacted: set<Id>, n: Node, m: Node)
    requires c <= |u| && NoDup(h) && IsLeft(u, h, key, contacted)
    requires n in u[..c] && m in h && m.id !in contacted && m !in u[..c]
    ensures key(n) <= key(m)
  {
    assert m.id in Ids(u);
    var m' :| m' in u && m'.id == m.id;
    SameNode(h, m, m');
    var i :| 0 <= i < c && u[i] == n;
    var j :| 0 <= j < |u| && u[j] == m;
    assert forall x | 0 <= x < c :: u[x] in u[..c];
  }

  /** The first ones of those who are left make a round. */
  lemma RoundOf(u: seq<Node>, c: nat, h: seq<Node>, key: Node -> nat, contacted: set<Id>, changed: bool, alpha: nat)
    requires NoDup(h) && IsLeft(u, h, key, contacted) && c == if changed && alpha < |u| then alpha else |u|
    ensures IsRound(u[..c], h, key, contacted, changed, alpha)
  {
    CountIds(u);
    PrefixFacts(u, c);
    forall n | n in u[..c] ensures n in h && n.id !in contacted {
      assert n in u && n.id in Ids(u);
    }
    forall n, m | n in u[..c] && m in h && m.id !in contacted && m !in u[..c] ensures key(n) <= key(m) {
      LaterOne(u, c, h, key, contacted, n, m);
    }
    if !changed {
      assert u[..c] == u;
    }
  }

  lemma LeftIs(h: seq<Node>, key: Node -> nat, max: nat, contacted: set<Id>)
    requires NoDup(h) && |h| <= max
    ensures IsLeft(Outside(Sorted(h, key, max), contacted), h, key, contacted)
  {
    var s := Sorted(h, key, max);
    SortedFacts(h, key, max);
    SameMembers(s, h);
    OutsideFacts(s, contacted);
    OutsideAscends(s, contacted, key);
  }

  lemma PicksExactly(h: seq<Node>, key: Node -> nat, max: nat, contacted: set<Id>, lastIds: seq<Id>, alpha: nat,
                     asked: seq<Node>, ids: seq<Id>)
    requires NoDup(h) && |h| <= max && ids == IdSeq(Sorted(h, key, max)) && asked == Picks(h, key, max, contacted, lastIds, alpha)
    ensures forall changed | changed == (ids != lastIds) :: IsRound(asked, h, key, contacted, changed, alpha)
  {
    forall changed | changed == (ids != lastIds) ensures IsRound(asked, h, key, contacted, changed, alpha) {
      var u := Outside(Sorted(h, key, max), contacted);
      var c := if changed && alpha < |u| then alpha else |u|;
      LeftIs(h, key, max, contacted);
      RoundOf(u, c, h, key, contacted, changed, alpha);
      PicksAre(h, key, max, contacted, lastIds, alpha, u, c);
    }
  }

  lemma PicksAre(h: seq<Node>, key: Node -> nat, max: nat, contacted: set<Id>, lastIds: seq<Id>, alpha: nat, u: seq<Node>, c: nat)
    requires u == Outside(Sorted(h, key, max), contacted)
    requires c == if IdSeq(Sorted(h, key, max)) != lastIds && alpha < |u| then alpha else |u|
    ensures Picks(h, key, max, contacted, lastIds, alpha) == u[..c]
  {
    assert u[..|u|] == u;
  }

  // ---------- The state of a lookup

  class SpiderCrawl {
    const target: Node
    const ksize: nat
    const alpha: nat
    const nearest: NodeHeap
    var lastIds: seq<Id>

    ghost predicate Valid()
      reads this, nearest
    {
      nearest.maxsize == ksize && nearest.pivot == target && NoDup(nearest.heap) && |nearest.heap| <= ksize
    }

    constructor (target: Node, peers: seq<Node>, ksize: nat, alpha: nat)
      ensures Valid() && fresh(nearest)
      ensures this.target == target && this.ksize == ksize && this.alpha == alpha
      ensures nearest.heap == Pushed([], peers, nearest.Key(), ksize) && nearest.contacted == {} && lastIds == []
    {
      this.target, this.ksize, this.alpha := target, ksize, alpha;
      nearest := new NodeHeap(target, ksize);
      lastIds := [];
      new;
      nearest.Push(peers);
      PushedFacts([], peers, nearest.Key(), ksize);
    }

    /** Ask each node of a list once and mark it as contacted. */
    method Ask(asked: seq<Node>, net: Network) returns (responses: map<Id, Response>)
      requires NoDup(asked)
      modifies nearest`contacted
      ensures nearest.contacted == old(nearest.contacted) + Ids(asked)
      ensures Answers(responses, asked, net)
    {
      responses := map[];
      for i := 0 to |asked|
        invariant nearest.contacted == old(nearest.contacted) + Ids(asked[..i])
        invariant Answers(responses, asked[..i], net)
      {
        nearest.MarkContacted(asked[i].id);
        AnswersMore(responses, asked, i, net);
        responses := responses[asked[i].id := net(asked[i])];
      }
      assert asked[..|asked|] == asked;
    }

    /** One round of queries. The answers come as a map from identifiers, in no particular order. */
    method FindRound(net: Network) returns (asked: seq<Node>, responses: map<Id, Response>)
      requires Valid()
      modifies this, nearest`contacted
      ensures asked == old(Picks(nearest.heap, nearest.Key(), ksize, nearest.contacted, lastIds, alpha))
      ensures forall changed | changed == (lastIds != old(lastIds)) ::
                IsRound(asked, nearest.heap, nearest.Key(), old(nearest.contacted), changed, alpha)
      ensures lastIds == IdSeq(Sorted(nearest.heap, nearest.Key(), ksize))
      ensures nearest.contacted == old(nearest.contacted) + Ids(asked)
      ensures Answers(responses, asked, net)
    {
      var s := Sorted(nearest.heap, nearest.Key(), ksize);
      var currentIds := IdSeq(s);
      var count := if currentIds == lastIds then |s| else alpha;
      PicksNew(nearest.heap, nearest.Key(), ksize, nearest.contacted, lastIds, alpha);
      var u := nearest.GetUncontacted();
      asked := if |u| <= count then u else u[..count];
      PicksExactly(nearest.heap, nearest.Key(), ksize, nearest.contacted, lastIds, alpha, asked, currentIds);
      lastIds := currentIds;
      responses := Ask(asked, net);
    }
  }

  /** Every asked node has its answer in the map, and nobody else. */
  ghost predicate Answers(responses: map<Id, Response>, asked: seq<Node>, net: Network) {
    && responses.Keys == Ids(asked)
    && forall n | n in asked :: n.id in responses && responses[n.id] == net(n)
  }

  lemma AnswersMore(responses: map<Id, Response>, asked: seq<Node>, i: nat, net: Network)
    requires NoDup(asked) && i < |asked| && Answers(responses, asked[..i], net)
    ensures Ids(asked[..i + 1]) == Ids(asked[..i]) + {asked[i].id}
    ensures Answers(responses[asked[i].id := net(asked[i])], asked[..i + 1], net)
  {
    assert asked[..i + 1] == asked[..i] + [asked[i]];
    NoDupConcat(asked[..i], [asked[i]]);
    assert asked[i].id in Ids([asked[i]]);
  }

  lemma PushedFacts(h: seq<Node>, nodes: seq<Node>, key: Node -> nat, max: nat)
    requires NoDup(h)
    ensures var p := Pushed(h, nodes, key, max);
      NoDup(p) && |p| <= max && Ids(p) <= Ids(h) + Ids(nodes)
  {
    MergedFacts(h, nodes);
    var m := Merged(h, nodes);
    if |m| > max {
      PermutationNoDup(m, SortByKey(m, key));
      PrefixFacts(SortByKey(m, key), max);
    }
  }

  // ---------- Taking in the answers of a round

  /** The nodes that an answer names; no answer names nobody. */
  function Named(r: Response): seq<Node> {
    if r.happened then NodeList(r) else []
  }

  /** The identifiers told by those asked nodes whose identifiers are in `ids`. */
  ghost function Told(net: Network, asked: seq<Node>, ids: set<Id>): set<Id> {
    set n, m | n in asked && n.id in ids && m in Named(net(n)) :: m.id
  }

  lemma ToldMore(net: Network, asked: seq<Node>, ids: set<Id>, n: Node)
    requires NoDup(asked) && n in asked
    ensures Told(net, asked, ids + {n.id}) == Told(net, asked, ids) + Ids(Named(net(n)))
  {
    forall m | m in asked && m.id == n.id ensures m == n {
      var i :| 0 <= i < |asked| && asked[i] == m;
      var j :| 0 <= j < |asked| && asked[j] == n;
    }
  }

  ghost predicate AllHappened(net: Network, asked: seq<Node>) {
    forall n | n in asked :: net(n).happened
  }

  /** Every node that the network names has its distance for a key. */
  ghost predicate NetKeyed(net: Network, key: Node -> nat, d: Id -> nat) {
    forall n :: Keyed(NodeList(net(n)), key, d)
  }

  ghost predicate StillClosest(h: seq<Node>, seen: set<Id>, key: Node -> nat, max: nat, d: Id -> nat) {
    Distinct(seen, d) ==> HoldsClosest(h, seen, key, max, d)
  }

  lemma PushStill(h: seq<Node>, nodes: seq<Node>, seen: set<Id>, key: Node -> nat, max: nat, d: Id -> nat)
    requires StillClosest(h, seen, key, max, d) && Keyed(nodes, key, d)
    ensures StillClosest(Pushed(h, nodes, key, max), seen + Ids(nodes), key, max, d)
  {
    if Distinct(seen + Ids(nodes), d) {
      PushKeepsClosest(h, nodes, seen, key, max, d);
    }
  }

  /** The state of a heap `h` that was `h0` when `seen` were seen, after `told` were told; `good` says
      that nobody failed and that it held the closest before. */
  ghost predicate Taken(h: seq<Node>, h0: seq<Node>, seen: set<Id>, told: set<Id>, key: Node -> nat, max: nat,
                        d: Id -> nat, good: bool)
  {
    && NoDup(h) && |h| <= max && Ids(h) <= Ids(h0) + told
    && (good ==> StillClosest(h, seen + told, key, max, d))
  }

  lemma TakenPush(h: seq<Node>, h0: seq<Node>, seen: set<Id>, told: set<Id>, nodes: seq<Node>,
                  key: Node -> nat, max: nat, d: Id -> nat, good: bool)
    requires Taken(h, h0, seen, told, key, max, d, good) && Keyed(nodes, key, d)
    ensures Taken(Pushed(h, nodes, key, max), h0, seen, told + Ids(nodes), key, max, d, good)
  {
    PushedFacts(h, nodes, key, max);
    if good {
      PushStill(h, nodes, seen + told, key, max, d);
      assert seen + told + Ids(nodes) == seen + (told + Ids(nodes));
    }
  }

  lemma TakenDrop(h: seq<Node>, h0: seq<Node>, seen: set<Id>, told: set<Id>, ids: set<Id>,
                  key: Node -> nat, max: nat, d: Id -> nat)
    requires Taken(h, h0, seen, told, key, max, d, false)
    ensures Taken(Outside(h, ids), h0, seen, told, key, max, d, false)
  {
    OutsideFacts(h, ids);
  }

  lemma TakenMore(h: seq<Node>, h0: seq<Node>, seen: set<Id>, told: set<Id>, more: set<Id>,
                  key: Node -> nat, max: nat, d: Id -> nat, good: bool)
    requires Taken(h, h0, seen, told, key, max, d, good) && (good ==> more == {})
    ensures Taken(h, h0, seen, told + more, key, max, d, good)
  {
    if more == {} {
      assert told + more == told;
    }
  }

  /** One answer: its nodes are pushed if it came at all. */
  method TakeAnswer(nearest: NodeHeap, r: Response, ghost h0: seq<Node>, ghost seen: set<Id>, ghost told: set<Id>,
                    ghost d: Id -> nat, ghost good: bool)
    requires Taken(nearest.heap, h0, seen, told, nearest.Key(), nearest.maxsize, d, good)
    requires Keyed(NodeList(r), nearest.Key(), d) && (good ==> r.happened)
    modifies nearest`heap
    ensures Taken(nearest.heap, h0, seen, told + Ids(Named(r)), nearest.Key(), nearest.maxsize, d, good)
    ensures nearest.heap == if r.happened then Pushed(old(nearest.heap), NodeList(r), nearest.Key(), nearest.maxsize) else old(nearest.heap)
  {
    if r.happened {
      TakenPush(nearest.heap, h0, seen, told, NodeList(r), nearest.Key(), nearest.maxsize, d, good);
      nearest.Push(NodeList(r));
    } else {
      TakenMore(nearest.heap, h0, seen, told, {}, nearest.Key(), nearest.maxsize, d, good);
    }
  }

  /** The silent ones among the asked nodes whose identifiers are in `ids` are listed. */
  ghost predicate Noted(toRemove: seq<Id>, net: Network, asked: seq<Node>, ids: set<Id>) {
    forall n | n in asked && n.id in ids && !net(n).happened :: n.id in toRemove
  }

  /** No asked node that was silent is left. */
  ghost predicate Dropped(h: seq<Node>, net: Network, asked: seq<Node>) {
    forall n | n in asked && !net(n).happened :: n.id !in Ids(h)
  }

  lemma NotedMore(toRemove: seq<Id>, net: Network, asked: seq<Node>, ids: set<Id>, n: Node)
    requires NoDup(asked) && n in asked && Noted(toRemove, net, asked, ids)
    ensures Noted(if net(n).happened then toRemove else toRemove + [n.id], net, asked, ids + {n.id})
  {
    forall m | m in asked && m.id == n.id ensures m == n {
      var i :| 0 <= i < |asked| && asked[i] == m;
      var j :| 0 <= j < |asked| && asked[j] == n;
    }
  }

  lemma NotedAll(h: seq<Node>, toRemove: seq<Id>, net: Network, asked: seq<Node>)
    requires NoDup(h) && Noted(toRemove, net, asked, Ids(asked))
    ensures Dropped(if toRemove == [] then h else Outside(h, set id | id in toRemove), net, asked)
  {
    OutsideFacts(h, set id | id in toRemove);
  }

  /** Push the nodes of every answer that came, in whatever order the map yields them, and then drop
      the peers that did not answer. */
  method Absorb(nearest: NodeHeap, responses: map<Id, Response>, ghost asked: seq<Node>, ghost net: Network,
                ghost seen: set<Id>, ghost d: Id -> nat)
    requires NoDup(nearest.heap) && |nearest.heap| <= nearest.maxsize && NoDup(asked)
    requires Answers(responses, asked, net) && NetKeyed(net, nearest.Key(), d)
    modifies nearest`heap
    ensures asked == [] ==> nearest.heap == old(nearest.heap)
    ensures Taken(nearest.heap, old(nearest.heap), seen, Told(net, asked, Ids(asked)), nearest.Key(), nearest.maxsize, d,
                  AllHappened(net, asked) && old(StillClosest(nearest.heap, seen, nearest.Key(), nearest.maxsize, d)))
    ensures Dropped(nearest.heap, net, asked)
  {
    var pending := responses.Keys;
    var toRemove: seq<Id> := [];
    ghost var h0, told := nearest.heap, Told(net, asked, {});
    ghost var good := AllHappened(net, asked) && StillClosest(h0, seen, nearest.Key(), nearest.maxsize, d);
    assert told == {} && seen + {} == seen;
    while pending != {}
      invariant pending <= responses.Keys && told == Told(net, asked, responses.Keys - pending)
      invariant Taken(nearest.heap, h0, seen, told, nearest.Key(), nearest.maxsize, d, good)
      invariant asked == [] ==> nearest.heap == h0
      invariant good || asked == [] ==> toRemove == []
      invariant Noted(toRemove, net, asked, responses.Keys - pending)
    {
      var id :| id in pending;
      ghost var n := Asked(responses, asked, net, pending, id);
      NotedMore(toRemove, net, asked, responses.Keys - pending, n);
      if !responses[id].happened {
        toRemove := toRemove + [id];
      }
      TakeAnswer(nearest, responses[id], h0, seen, told, d, good);
      told := told + Ids(Named(net(n)));
      pending := pending - {id};
    }
    assert responses.Keys - pending == Ids(asked);
    NotedAll(nearest.heap, toRemove, net, asked);
    TakenDrop(nearest.heap, h0, seen, told, (set id | id in toRemove), nearest.Key(), nearest.maxsize, d);
    nearest.Remove(toRemove);
  }

  /** The asked node behind an entry of the answers, and what taking it out of `pending` means. */
  lemma Asked(responses: map<Id, Response>, asked: seq<Node>, net: Network, pending: set<Id>, id: Id) returns (n: Node)
    requires NoDup(asked) && Answers(responses, asked, net) && id in pending && pending <= responses.Keys
    ensures n in asked && n.id == id && responses[id] == net(n)
    ensures responses.Keys - (pending - {id}) == (responses.Keys - pending) + {id}
    ensures Told(net, asked, responses.Keys - (pending - {id})) ==
            Told(net, asked, responses.Keys - pending) + Ids(Named(net(n)))
  {
    n :| n in asked && n.id == id;
    assert responses.Keys - (pending - {id}) == (responses.Keys - pending) + {id};
    ToldMore(net, asked, responses.Keys - pending, n);
  }

  // ---------- The whole lookup

  /** Everything a lookup has heard of: the nodes it started from and all it was told. */
  ghost function Seen(net: Network, peers: seq<Node>, asked: seq<Node>): set<Id> {
    Ids(peers) + Told(net, asked, Ids(asked))
  }

  ghost predicate CrawlInv(h: seq<Node>, contacted: set<Id>, asked: seq<Node>, net: Network, peers: seq<Node>,
                           key: Node -> nat, max: nat, d: Id -> nat)
  {
    && NoDup(h) && |h| <= max
    && NoDup(asked) && contacted == Ids(asked) && Ids(asked) <= Seen(net, peers, asked)
    && Ids(h) <= Seen(net, peers, asked)
    && (AllHappened(net, asked) ==> StillClosest(h, Seen(net, peers, asked), key, max, d))
  }

  lemma ToldConcat(net: Network, a: seq<Node>, b: seq<Node>)
    ensures Told(net, a + b, Ids(a + b)) == Told(net, a, Ids(a)) + Told(net, b, Ids(b))
  {
    assert forall n | n in a + b :: n in a || n in b;
  }

  lemma CrawlStart(peers: seq<Node>, net: Network, key: Node -> nat, max: nat, d: Id -> nat)
    requires Keyed(peers, key, d)
    ensures CrawlInv(Pushed([], peers, key, max), {}, [], net, peers, key, max, d)
  {
    PushedFacts([], peers, key, max);
    assert Seen(net, peers, []) == {} + Ids(peers);
    assert IsClosest({}, {}, max, d);
    PushStill([], peers, {}, key, max, d);
  }

  lemma CrawlStep(h: seq<Node>, contacted: set<Id>, asked: seq<Node>, net: Network, peers: seq<Node>,
                  key: Node -> nat, max: nat, d: Id -> nat, batch: seq<Node>, h': seq<Node>)
    requires CrawlInv(h, contacted, asked, net, peers, key, max, d)
    requires NoDup(batch) && Ids(batch) <= Ids(h) - contacted
    requires var seen := Seen(net, peers, asked);
      Taken(h', h, seen, Told(net, batch, Ids(batch)), key, max, d, AllHappened(net, batch) && StillClosest(h, seen, key, max, d))
    ensures CrawlInv(h', contacted + Ids(batch), asked + batch, net, peers, key, max, d)
  {
    NoDupConcat(asked, batch);
    SeenConcat(net, peers, asked, batch);
  }

  lemma SeenConcat(net: Network, peers: seq<Node>, asked: seq<Node>, batch: seq<Node>)
    ensures Seen(net, peers, asked + batch) == Seen(net, peers, asked) + Told(net, batch, Ids(batch))
  {
    ToldConcat(net, asked, batch);
  }

  /** Every asked node in `h` that was silent was named by a node asked later. */
  ghost predicate Vouched(h: seq<Node>, asked: seq<Node>, net: Network) {
    forall i | 0 <= i < |asked| && !net(asked[i]).happened && asked[i].id in Ids(h) :: LaterNamed(asked, net, i)
  }

  ghost predicate LaterNamed(asked: seq<Node>, net: Network, i: nat) {
    i < |asked| && exists j :: i < j < |asked| && asked[i].id in Ids(Named(net(asked[j])))
  }

  lemma VouchStep(h: seq<Node>, asked: seq<Node>, net: Network, batch: seq<Node>, h': seq<Node>)
    requires Vouched(h, asked, net) && Dropped(h', net, batch)
    requires Ids(h') <= Ids(h) + Told(net, batch, Ids(batch))
    ensures Vouched(h', asked + batch, net)
  {
    var all := asked + batch;
    assert forall i | |asked| <= i < |all| :: all[i] in batch;
    forall i | 0 <= i < |asked| && !net(all[i]).happened && all[i].id in Ids(h') ensures LaterNamed(all, net, i) {
      if all[i].id in Ids(h) {
        assert LaterNamed(asked, net, i);
        var j :| i < j < |asked| && asked[i].id in Ids(Named(net(asked[j])));
        assert all[j] == asked[j];
      } else {
        var n, m :| n in batch && m in Named(net(n)) && m.id == all[i].id;
        var j :| 0 <= j < |batch| && batch[j] == n;
        assert all[|asked| + j] == n;
      }
    }
  }

  /** All byte strings of a length. */
  ghost function Strings(n: nat): (ss: set<seq<byte>>)
    ensures forall s: seq<byte> :: |s| == n ==> s in ss
  {
    if n == 0 then {[]}
    else
      var ss := set s, b: byte | s in Strings(n - 1) && 0 <= b < 256 :: s + [b];
      assert forall s: seq<byte> | |s| == n :: s == s[..n - 1] + [s[n - 1]];
      ss
  }

  /** There are finitely many identifiers, so every identifier is in some finite set. */
  lemma EveryId() returns (all: set<Id>)
    ensures forall id: Id :: id in all
  {
    all := set s | s in Strings(ID_LEN) && |s| == ID_LEN;
  }

  /** A round that asks somebody leaves fewer identifiers that were never asked. */
  lemma SomebodyNew(all: set<Id>, contacted: set<Id>, batch: seq<Node>)
    requires Ids(batch) !! contacted && forall id: Id :: id in all
    ensures if batch == [] then contacted + Ids(batch) == contacted
            else all - (contacted + Ids(batch)) < all - contacted
  {
    if batch != [] {
      assert batch[0].id in Ids(batch);
    }
  }

  /** At most one round per newly asked node when `alpha` is positive, and two when it is 0. */
  ghost predicate FewRounds(rounds: nat, asked: nat, alpha: nat, settled: bool) {
    rounds <= if alpha >= 1 then asked else 2 * asked + (if settled then 1 else 0)
  }

  /** What a finished lookup answers. Every answered node was asked, each node was asked once, and only
      nodes that were heard of were asked. An answered node that was silent was named again later. If all
      of them replied, the answer is exactly the `max` closest of everything the lookup has heard of. */
  ghost predicate IsLookup(r: seq<Node>, asked: seq<Node>, net: Network, peers: seq<Node>,
                           key: Node -> nat, max: nat, d: Id -> nat)
  {
    && NoDup(r) && Ascending(r, key) && NoDup(asked)
    && Ids(r) <= Ids(asked) <= Seen(net, peers, asked) && Vouched(r, asked, net)
    && (AllHappened(net, asked) && Distinct(Seen(net, peers, asked), d) ==>
          Keyed(r, key, d) && IsClosest(Ids(r), Seen(net, peers, asked), max, d))
  }

  lemma LookupEnds(h: seq<Node>, contacted: set<Id>, asked: seq<Node>, net: Network, peers: seq<Node>,
                   key: Node -> nat, max: nat, d: Id -> nat)
    requires CrawlInv(h, contacted, asked, net, peers, key, max, d)
    requires Outside(Sorted(h, key, max), contacted) == [] && Vouched(h, asked, net)
    ensures IsLookup(Sorted(h, key, max), asked, net, peers, key, max, d)
  {
    NobodyLeft(h, key, max, contacted);
    SortedFacts(h, key, max);
    SameMembers(h, Sorted(h, key, max));
  }

  /** Everything the next round depends on: who is near, who was asked, and what was near last time. */
  ghost function Settled(crawl: SpiderCrawl): bool
    reads crawl, crawl.nearest
  {
    IdSeq(Sorted(crawl.nearest.heap, crawl.nearest.Key(), crawl.ksize)) == crawl.lastIds
  }

  ghost predicate Crawling(crawl: SpiderCrawl, asked: seq<Node>, net: Network, peers: seq<Node>, d: Id -> nat)
    reads crawl, crawl.nearest
  {
    && crawl.Valid()
    && CrawlInv(crawl.nearest.heap, crawl.nearest.contacted, asked, net, peers, crawl.nearest.Key(), crawl.ksize, d)
    && Vouched(crawl.nearest.heap, asked, net)
  }

  /** One round keeps the invariant. It asks somebody new unless everybody near was asked already, or
      `alpha` is 0 and the nearest just changed; then nothing changes but the memory of who is near. */
  method NodeRound(crawl: SpiderCrawl, net: Network, ghost asked: seq<Node>, ghost peers: seq<Node>, ghost d: Id -> nat)
    returns (batch: seq<Node>)
    requires Crawling(crawl, asked, net, peers, d) && NetKeyed(net, crawl.nearest.Key(), d)
    modifies crawl, crawl.nearest
    ensures Crawling(crawl, asked + batch, net, peers, d)
    ensures Ids(batch) !! old(crawl.nearest.contacted)
    ensures crawl.nearest.contacted == old(crawl.nearest.contacted) + Ids(batch)
    ensures batch == [] ==> Settled(crawl)
    ensures batch == [] ==> Ids(crawl.nearest.heap) <= crawl.nearest.contacted || (crawl.alpha == 0 && !old(Settled(crawl)))
  {
    ghost var h, c, key := crawl.nearest.heap, crawl.nearest.contacted, crawl.nearest.Key();
    PicksNew(h, key, crawl.ksize, c, crawl.lastIds, crawl.alpha);
    PicksNobody(h, key, crawl.ksize, c, crawl.lastIds, crawl.alpha);
    var round, responses := crawl.FindRound(net);
    Absorb(crawl.nearest, responses, round, net, Seen(net, peers, asked), d);
    CrawlStep(h, c, asked, net, peers, key, crawl.ksize, d, round, crawl.nearest.heap);
    VouchStep(h, asked, net, round, crawl.nearest.heap);
    batch := round;
  }

  /** The lookup is over when everybody near was asked. */
  method Finished(crawl: SpiderCrawl, net: Network, ghost asked: seq<Node>, ghost peers: seq<Node>, ghost d: Id -> nat)
    returns (over: bool, r: seq<Node>)
    requires Crawling(crawl, asked, net, peers, d)
    ensures over <==> Ids(crawl.nearest.heap) <= crawl.nearest.contacted
    ensures over ==> IsLookup(r, asked, net, peers, crawl.nearest.Key(), crawl.ksize, d)
  {
    var left := crawl.nearest.GetUncontacted();
    NobodyLeft(crawl.nearest.heap, crawl.nearest.Key(), crawl.ksize, crawl.nearest.contacted);
    if left == [] {
      LookupEnds(crawl.nearest.heap, crawl.nearest.contacted, asked, net, peers, crawl.nearest.Key(), crawl.ksize, d);
    }
    return left == [], Sorted(crawl.nearest.heap, crawl.nearest.Key(), crawl.ksize);
  }

  method Begin(net: Network, target: Node, peers: seq<Node>, ksize: nat, alpha: nat, ghost d: Id -> nat)
    returns (crawl: SpiderCrawl)
    requires Keyed(peers, DistanceFrom(target), d)
    ensures fresh(crawl) && fresh(crawl.nearest)
    ensures crawl.target == target && crawl.ksize == ksize && crawl.alpha == alpha
    ensures Crawling(crawl, [], net, peers, d)
    ensures crawl.nearest.heap == Pushed([], peers, DistanceFrom(target), ksize) && crawl.nearest.contacted == {} && crawl.lastIds == []
  {
    crawl := new SpiderCrawl(target, peers, ksize, alpha);
    CrawlStart(peers, net, DistanceFrom(target), ksize, d);
  }

  /** Rounds until everybody near was asked. */
  method NodeRounds(crawl: SpiderCrawl, net: Network, peers: seq<Node>, ghost d: Id -> nat)
    returns (r: seq<Node>, asked: seq<Node>, rounds: nat)
    requires Crawling(crawl, [], net, peers, d) && NetKeyed(net, crawl.nearest.Key(), d)
    modifies crawl, crawl.nearest
    ensures IsLookup(r, asked, net, peers, crawl.nearest.Key(), crawl.ksize, d)
    ensures rounds <= (if crawl.alpha >= 1 then |asked| + 1 else 2 * |asked| + 2)
  {
    asked, rounds := [], 0;
    ghost var all := EveryId();
    while true
      invariant Crawling(crawl, asked, net, peers, d)
      invariant FewRounds(rounds, |asked|, crawl.alpha, Settled(crawl))
      decreases all - crawl.nearest.contacted, !Settled(crawl)
    {
      ghost var c := crawl.nearest.contacted;
      var batch := NodeRound(crawl, net, asked, peers, d);
      SomebodyNew(all, c, batch);
      asked, rounds := asked + batch, rounds + 1;
      var over;
      over, r := Finished(crawl, net, asked, peers, d);
      if over {
        return;
      }
    }
  }

  /** The lookup for the nodes nearest to a target. */
  method FindNodes(net: Network, target: Node, peers: seq<Node>, ksize: nat, alpha: nat, ghost d: Id -> nat)
    returns (r: seq<Node>, asked: seq<Node>, rounds: nat)
    requires Keyed(peers, DistanceFrom(target), d) && NetKeyed(net, DistanceFrom(target), d)
    ensures IsLookup(r, asked, net, peers, DistanceFrom(target), ksize, d)
    ensures rounds <= (if alpha >= 1 then |asked| + 1 else 2 * |asked| + 2)
  {
    var crawl := Begin(net, target, peers, ksize, alpha, d);
    r, asked, rounds := NodeRounds(crawl, net, peers, d);
  }

  // ---------- Distances of folded identifiers

  /** Distance of an identifier from a target. */
  ghost function FoldDistance(target: Node): Id -> nat {
    (id: Id) => Xor(Fold(id), target.longId)
  }

  lemma {:induction false} DecodedKeyed(tuples: seq<WireNode>, target: Node)
    ensures Keyed(Decoded(tuples), DistanceFrom(target), FoldDistance(target))
  {
    if tuples != [] {
      DecodedKeyed(tuples[1..], target);
    }
  }

  /** Whatever a network answers, the distances of the decoded nodes are those of their identifiers. */
  lemma AnyNetKeyed(net: Network, target: Node)
    ensures NetKeyed(net, DistanceFrom(target), FoldDistance(target))
  {
    forall n ensures Keyed(NodeList(net(n)), DistanceFrom(target), FoldDistance(target)) {
      if net(n).payload.Nodes? {
        DecodedKeyed(net(n).payload.tuples, target);
      }
    }
  }

  // ---------- Reaching the globally closest node

  /** The first node of an answer is the closest of everything the lookup has heard of. */
  lemma FirstIsClosest(r: seq<Node>, seen: set<Id>, key: Node -> nat, max: nat, d: Id -> nat, id: Id)
    requires NoDup(r) && Ascending(r, key) && Keyed(r, key, d) && IsClosest(Ids(r), seen, max, d)
    requires max >= 1 && id in seen
    ensures r != [] && d(r[0].id) <= d(id)
  {
    SubsetSize({id}, seen);
    CountIds(r);
    if id in Ids(r) {
      var i :| 0 <= i < |r| && r[i].id == id;
      assert key(r[0]) <= key(r[i]);
    } else {
      assert r[0].id in Ids(r);
      Nearer(r[0].id, id, Ids(r), seen, max, d);
    }
  }

  /** If all asked nodes reply, and each of them but `g` names a strictly closer one, then a lookup that
      starts from anywhere returns `g`, first of all. */
  lemma ReachesGlobalClosest(r: seq<Node>, asked: seq<Node>, net: Network, peers: seq<Node>,
                             key: Node -> nat, max: nat, d: Id -> nat, g: Id)
    requires max >= 1 && peers != [] && IsLookup(r, asked, net, peers, key, max, d)
    requires AllHappened(net, asked) && Distinct(Seen(net, peers, asked), d)
    requires forall n | n in asked && n.id != g :: exists m :: m in NodeList(net(n)) && d(m.id) < d(n.id)
    ensures r != [] && r[0].id == g
  {
    var seen := Seen(net, peers, asked);
    assert peers[0].id in seen;
    FirstIsClosest(r, seen, key, max, d, peers[0].id);
    if r[0].id != g {
      assert r[0].id in Ids(asked);
      var n :| n in asked && n.id == r[0].id;
      var m :| m in NodeList(net(n)) && d(m.id) < d(n.id);
      assert m.id in seen;
      FirstIsClosest(r, seen, key, max, d, m.id);
    }
  }
}

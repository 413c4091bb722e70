/** One k-bucket: a range of the routing space, at most k primary contacts and a capped list of
    replacements (sections 4.1 and 4.2 of the Kademlia paper). */
module Buckets {
  import opened Bits
  import opened Nodes
  import opened Contacts

  // ---------- Lists of contacts

  ghost predicate AllWithin(s: seq<Node>, lo: nat, hi: int) {
    forall n | n in s :: lo <= n.longId <= hi
  }

  /** The list without the contact `id`. */
  function Without(s: seq<Node>, id: Id): (r: seq<Node>) {
    if s == [] then []
    else if s[0].id == id then Without(s[1..], id)
    else [s[0]] + Without(s[1..], id)
  }

  lemma {:induction false} WithoutMembers(s: seq<Node>, id: Id)
    ensures forall n :: n in Without(s, id) <==> n in s && n.id != id
  {
    if s != [] {
      WithoutMembers(s[1..], id);
    }
  }

  lemma {:induction false} WithoutFacts(s: seq<Node>, id: Id)
    requires NoDup(s)
    ensures NoDup(Without(s, id))
    ensures Ids(Without(s, id)) == Ids(s) - {id}
    ensures |Without(s, id)| == if id in Ids(s) then |s| - 1 else |s|
    ensures id !in Ids(s) ==> Without(s, id) == s
  {
    if s != [] {
      assert s == [s[0]] + s[1..];
      NoDupConcat([s[0]], s[1..]);
      WithoutFacts(s[1..], id);
      NoDupConcat([s[0]], Without(s[1..], id));
    }
  }

  lemma {:induction false} RemoveAt(s: seq<Node>, id: Id, p: nat)
    requires NoDup(s) && p < |s| && s[p].id == id
    ensures s[..p] + s[p + 1..] == Without(s, id)
  {
    if p == 0 {
      assert s == [s[0]] + s[1..];
      NoDupConcat([s[0]], s[1..]);
      WithoutFacts(s[1..], id);
    } else {
      RemoveAt(s[1..], id, p - 1);
      assert s[..p] + s[p + 1..] == [s[0]] + (s[1..][..p - 1] + s[1..][p..]);
    }
  }

  /** `r` is the list `s` with the contact `id`, if it is there, taken out of its place. */
  ghost predicate TakenOut(r: seq<Node>, s: seq<Node>, id: Id) {
    (id !in Ids(s) && r == s) || exists i :: 0 <= i < |s| && s[i].id == id && r == s[..i] + s[i + 1..]
  }

  lemma WithoutIs(s: seq<Node>, id: Id)
    requires NoDup(s)
    ensures TakenOut(Without(s, id), s, id)
  {
    if id in Ids(s) {
      var n :| n in s && n.id == id;
      var i :| 0 <= i < |s| && s[i] == n;
      RemoveAt(s, id, i);
    } else {
      WithoutFacts(s, id);
    }
  }

  lemma WithoutWithin(s: seq<Node>, id: Id, lo: nat, hi: int)
    requires AllWithin(s, lo, hi)
    ensures AllWithin(Without(s, id), lo, hi)
  {
    WithoutMembers(s, id);
  }

  /** The contacts whose folded identifier lies in [lo, hi], in their order. */
  function Within(s: seq<Node>, lo: nat, hi: int): (r: seq<Node>)
    ensures |r| <= |s|
  {
    if s == [] then []
    else
      var rest := Within(s[1..], lo, hi);
      if lo <= s[0].longId <= hi then [s[0]] + rest else rest
  }

  lemma {:induction false} WithinMembers(s: seq<Node>, lo: nat, hi: int)
    ensures forall n :: n in Within(s, lo, hi) <==> n in s && lo <= n.longId <= hi
  {
    if s != [] {
      WithinMembers(s[1..], lo, hi);
    }
  }

  lemma {:induction false} WithinNoDup(s: seq<Node>, lo: nat, hi: int)
    requires NoDup(s)
    ensures NoDup(Within(s, lo, hi))
  {
    if s != [] {
      WithinNoDup(s[1..], lo, hi);
      WithinMembers(s[1..], lo, hi);
      NoDupConcat([s[0]], s[1..]);
      NoDupConcat([s[0]], Within(s[1..], lo, hi));
      assert s == [s[0]] + s[1..];
    }
  }

  lemma {:induction false} WithinAll(s: seq<Node>, lo: nat, hi: int)
    requires AllWithin(s, lo, hi)
    ensures Within(s, lo, hi) == s
  {
    if s != [] {
      WithinAll(s[1..], lo, hi);
    }
  }

  lemma {:induction false} WithinConcat(a: seq<Node>, b: seq<Node>, lo: nat, hi: int)
    ensures Within(a + b, lo, hi) == Within(a, lo, hi) + Within(b, lo, hi)
  {
    if a == [] {
      assert a + b == b;
    } else {
      assert (a + b)[1..] == a[1..] + b;
      WithinConcat(a[1..], b, lo, hi);
    }
  }

  /** Filtering by a range and then by a part of it is filtering by the part. */
  lemma {:induction false} WithinWithin(s: seq<Node>, lo: nat, hi: int, lo': nat, hi': int)
    requires lo <= lo' && hi' <= hi
    ensures Within(Within(s, lo, hi), lo', hi') == Within(s, lo', hi')
  {
    if s != [] {
      WithinWithin(s[1..], lo, hi, lo', hi');
    }
  }

  // ---------- The bucket as a value

  /** `updated` is the time of the last lookup that touched the bucket. */
  datatype Bucket = Bucket(lo: nat, hi: nat, nodes: seq<Node>, repl: seq<Node>, updated: nat) {
    predicate Covers(x: nat) {
      lo <= x <= hi
    }

    /** Every identifier the bucket holds, primary or replacement. */
    ghost function Known(): set<Id> {
      Ids(nodes) + Ids(repl)
    }

    /** What every reachable bucket satisfies, for bucket size `k`. */
    ghost predicate WellFormed(k: nat) {
      && |nodes| <= k
      && |repl| <= 5 * k
      && (repl != [] ==> |nodes| == k)
      && NoDup(nodes) && NoDup(repl) && Ids(nodes) !! Ids(repl)
      && AllWithin(nodes, lo, hi) && AllWithin(repl, lo, hi)
    }
  }

  /** A list without its oldest entries above the cap. */
  function Trim(r: seq<Node>, cap: nat): seq<Node> {
    if |r| > cap then r[|r| - cap..] else r
  }

  /** Insert or refresh a contact; the flag says whether it is now a primary. */
  function AddNode(b: Bucket, node: Node, k: nat): (Bucket, bool) {
    if node.id in Ids(b.nodes) then
      (b.(nodes := Without(b.nodes, node.id) + [node]), true)
    else if |b.nodes| < k then
      (b.(nodes := b.nodes + [node]), true)
    else
      var r := Without(b.repl, node.id) + [node];
      (b.(repl := Trim(r, 5 * k)), false)
  }

  /** What an addition does to the lists of a bucket: a contact that is a primary, or finds room, is the newest
      primary; any other one is the newest replacement, and the oldest ones above the cap leave. Nobody else
      changes place. */
  ghost predicate Added(b: Bucket, node: Node, k: nat, b': Bucket, ok: bool) {
    exists ns, rs, cut :: AddedBy(b, node, k, b', ok, ns, rs, cut)
  }

  ghost predicate AddedBy(b: Bucket, node: Node, k: nat, b': Bucket, ok: bool, ns: seq<Node>, rs: seq<Node>, cut: seq<Node>) {
    && TakenOut(ns, b.nodes, node.id) && TakenOut(rs, b.repl, node.id)
    && (ok <==> node.id in Ids(b.nodes) || |b.nodes| < k)
    && (ok ==> b' == b.(nodes := ns + [node]))
    && (!ok ==> IsRest(b'.repl, rs + [node], cut, 5 * k) && b' == b.(repl := b'.repl))
  }

  /** `r` is what is left of a list when just as many of its first members leave as are above the cap. */
  predicate IsRest(r: seq<Node>, s: seq<Node>, cut: seq<Node>, cap: nat) {
    s == cut + r && |r| == if |s| <= cap then |s| else cap
  }

  lemma AddExactly(b: Bucket, node: Node, k: nat)
    requires NoDup(b.nodes) && NoDup(b.repl)
    ensures var (b', ok) := AddNode(b, node, k); Added(b, node, k, b', ok)
  {
    var (b', ok) := AddNode(b, node, k);
    var ns, rs := Without(b.nodes, node.id), Without(b.repl, node.id);
    WithoutIs(b.nodes, node.id);
    WithoutIs(b.repl, node.id);
    WithoutFacts(b.nodes, node.id);
    var s := rs + [node];
    var cut := s[..|s| - |Trim(s, 5 * k)|];
    assert IsRest(Trim(s, 5 * k), s, cut, 5 * k);
    assert AddedBy(b, node, k, b', ok, ns, rs, cut);
  }

  /** The identifier that a full bucket forgets when a new contact arrives at a capped list. */
  ghost function Evicted(b: Bucket, node: Node, k: nat): set<Id> {
    if node.id !in b.Known() && |b.nodes| == k && |b.repl| == 5 * k
    then {(b.repl + [node])[0].id}
    else {}
  }

  lemma TrimFacts(r: seq<Node>, cap: nat, lo: nat, hi: int)
    requires r != [] && |r| <= cap + 1 && NoDup(r) && AllWithin(r, lo, hi)
    ensures var t := Trim(r, cap);
      && |t| <= cap && NoDup(t) && AllWithin(t, lo, hi)
      && Ids(t) == Ids(r) - (if |r| > cap then {r[0].id} else {})
      && (cap > 0 ==> t != [] && t[|t| - 1] == r[|r| - 1])
  {
    assert r == [r[0]] + r[1..];
    NoDupConcat([r[0]], r[1..]);
  }

  /** A contact list to which `node` moved or was appended as its newest member. */
  lemma Appended(s: seq<Node>, node: Node, lo: nat, hi: int)
    requires NoDup(s) && AllWithin(s, lo, hi) && lo <= node.longId <= hi
    ensures var r := Without(s, node.id) + [node];
      && NoDup(r) && AllWithin(r, lo, hi) && Ids(r) == Ids(s) + {node.id}
      && |r| == if node.id in Ids(s) then |s| else |s| + 1
  {
    WithoutFacts(s, node.id);
    WithoutWithin(s, node.id, lo, hi);
    NoDupConcat(Without(s, node.id), [node]);
  }

  /** The contact is accepted exactly when it is a primary already or there is room; then it is the
      newest primary and nothing is forgotten. */
  lemma AddAccepts(b: Bucket, node: Node, k: nat)
    requires b.WellFormed(k) && b.Covers(node.longId)
    requires node.id in Ids(b.nodes) || |b.nodes| < k
    ensures var (b', ok) := AddNode(b, node, k);
      && ok && b'.WellFormed(k)
      && b' == b.(nodes := Without(b.nodes, node.id) + [node])
      && Ids(b'.nodes) == Ids(b.nodes) + {node.id}
  {
    Appended(b.nodes, node, b.lo, b.hi);
    WithoutFacts(b.nodes, node.id);
  }

  /** A full bucket keeps its primaries and stays well formed. */
  lemma AddRefusesWell(b: Bucket, node: Node, k: nat)
    requires b.WellFormed(k) && b.Covers(node.longId)
    requires node.id !in Ids(b.nodes) && |b.nodes| == k
    ensures var b' := AddNode(b, node, k).0; b'.WellFormed(k) && b' == b.(repl := b'.repl)
  {
    Appended(b.repl, node, b.lo, b.hi);
    TrimFacts(Without(b.repl, node.id) + [node], 5 * k, b.lo, b.hi);
  }

  /** The contact is the newest replacement of a full bucket. Only the oldest replacement of a list at
      its cap is forgotten, and only for a contact unknown so far. */
  lemma AddRefuses(b: Bucket, node: Node, k: nat)
    requires b.WellFormed(k) && b.Covers(node.longId)
    requires node.id !in Ids(b.nodes) && |b.nodes| == k
    ensures var (b', ok) := AddNode(b, node, k);
      && !ok
      && Ids(b'.repl) == Ids(b.repl) + {node.id} - Evicted(b, node, k)
      && (k > 0 ==> b'.repl != [] && b'.repl[|b'.repl| - 1] == node)
  {
    Appended(b.repl, node, b.lo, b.hi);
    WithoutFacts(b.repl, node.id);
    TrimFacts(Without(b.repl, node.id) + [node], 5 * k, b.lo, b.hi);
  }

  /** Forget a contact; the newest replacement, if any, takes a vacated primary place. */
  function RemoveNode(b: Bucket, id: Id): Bucket {
    var r := Without(b.repl, id);
    if id !in Ids(b.nodes) then b.(repl := r)
    else if r == [] then b.(nodes := Without(b.nodes, id), repl := r)
    else b.(nodes := Without(b.nodes, id) + [r[|r| - 1]], repl := r[..|r| - 1])
  }

  /** Removal forgets exactly the given contact and keeps every other primary. */
  lemma RemoveNodeFacts(b: Bucket, id: Id, k: nat)
    requires b.WellFormed(k)
    ensures var b' := RemoveNode(b, id);
      && b'.WellFormed(k)
      && b'.Known() == b.Known() - {id}
      && Ids(b.nodes) - {id} <= Ids(b'.nodes)
      && b' == b.(nodes := b'.nodes, repl := b'.repl)
  {
    WithoutFacts(b.nodes, id);
    WithoutFacts(b.repl, id);
    WithoutWithin(b.nodes, id, b.lo, b.hi);
    WithoutWithin(b.repl, id, b.lo, b.hi);
    if id in Ids(b.nodes) && Without(b.repl, id) != [] {
      MoveLast(Without(b.nodes, id), Without(b.repl, id), b.lo, b.hi);
    }
  }

  /** What a removal does to the lists of a bucket: the contact is taken out of its place, and if it was a primary
      the newest of the replacements becomes the newest primary. Nobody else changes place. */
  ghost predicate Removed(b: Bucket, id: Id, b': Bucket) {
    exists ns, rs :: RemovedBy(b, id, b', ns, rs)
  }

  ghost predicate RemovedBy(b: Bucket, id: Id, b': Bucket, ns: seq<Node>, rs: seq<Node>) {
    && TakenOut(ns, b.nodes, id) && TakenOut(rs, b.repl, id)
    && b' == if id !in Ids(b.nodes) || rs == [] then b.(nodes := ns, repl := rs)
             else b.(nodes := ns + [rs[|rs| - 1]], repl := rs[..|rs| - 1])
  }

  lemma RemoveExactly(b: Bucket, id: Id)
    requires NoDup(b.nodes) && NoDup(b.repl)
    ensures Removed(b, id, RemoveNode(b, id))
  {
    WithoutIs(b.nodes, id);
    WithoutIs(b.repl, id);
    WithoutFacts(b.nodes, id);
    assert RemovedBy(b, id, RemoveNode(b, id), Without(b.nodes, id), Without(b.repl, id));
  }

  /** In a well-formed bucket the last primary after the removal of one is the last replacement before it. */
  lemma NewestPromoted(b: Bucket, id: Id, k: nat)
    requires b.WellFormed(k) && id in Ids(b.nodes) && b.repl != []
    ensures var b' := RemoveNode(b, id);
      && |b'.nodes| == |b.nodes| && b'.nodes[|b'.nodes| - 1] == b.repl[|b.repl| - 1]
      && TakenOut(b'.nodes[..|b'.nodes| - 1], b.nodes, id) && b'.repl == b.repl[..|b.repl| - 1]
  {
    WithoutIs(b.nodes, id);
    WithoutFacts(b.nodes, id);
    WithoutFacts(b.repl, id);
    var ns := Without(b.nodes, id);
    assert (ns + [b.repl[|b.repl| - 1]])[..|ns|] == ns;
  }

  /** The last contact of one list moved to the end of another. */
  lemma MoveLast(a: seq<Node>, r: seq<Node>, lo: nat, hi: int)
    requires r != [] && NoDup(a) && NoDup(r) && Ids(a) !! Ids(r) && AllWithin(a, lo, hi) && AllWithin(r, lo, hi)
    ensures var a', r' := a + [r[|r| - 1]], r[..|r| - 1];
      && NoDup(a') && NoDup(r') && Ids(a') !! Ids(r') && Ids(a') + Ids(r') == Ids(a) + Ids(r)
      && Ids(a) <= Ids(a') && AllWithin(a', lo, hi) && AllWithin(r', lo, hi)
  {
    var rest, last := r[..|r| - 1], [r[|r| - 1]];
    assert r == rest + last;
    NoDupConcat(rest, last);
    NoDupConcat(a, last);
  }

  // ---------- Splitting

  /** A fresh bucket that received the contacts of `s` in order: the first k are primaries. */
  function Filled(lo: nat, hi: nat, s: seq<Node>, k: nat, now: nat): Bucket {
    var m := if |s| < k then |s| else k;
    Bucket(lo, hi, s[..m], s[m..], now)
  }

  lemma FilledFacts(lo: nat, hi: nat, s: seq<Node>, k: nat, now: nat)
    requires NoDup(s) && AllWithin(s, lo, hi) && |s| <= 6 * k
    ensures var b := Filled(lo, hi, s, k, now);
      b.WellFormed(k) && b.Known() == Ids(s) && s == b.nodes + b.repl
  {
    var b := Filled(lo, hi, s, k, now);
    assert s == b.nodes + b.repl;
    NoDupConcat(b.nodes, b.repl);
  }

  lemma FilledAdd(lo: nat, hi: nat, s: seq<Node>, node: Node, k: nat, now: nat)
    requires NoDup(s + [node]) && |s| < 6 * k
    ensures AddNode(Filled(lo, hi, s, k, now), node, k).0 == Filled(lo, hi, s + [node], k, now)
  {
    var b := Filled(lo, hi, s, k, now);
    assert s == b.nodes + b.repl;
    FreshTo(b.nodes, b.repl, node);
  }

  lemma FreshTo(a: seq<Node>, b: seq<Node>, node: Node)
    requires NoDup(a + b + [node])
    ensures node.id !in Ids(a) && Without(b, node.id) == b
  {
    NoDupConcat(a + b, [node]);
    NoDupConcat(a, b);
    WithoutFacts(b, node.id);
  }

  function Midpoint(b: Bucket): (m: nat)
    requires b.lo <= b.hi
  {
    b.lo + (b.hi - b.lo) / 2
  }

  /** A fresh bucket for [lo, hi] with the contacts of `b` that belong there. */
  function Part(b: Bucket, lo: nat, hi: nat, k: nat, now: nat): Bucket {
    Filled(lo, hi, Within(b.nodes + b.repl, lo, hi), k, now)
  }

  function LowHalf(b: Bucket, k: nat, now: nat): Bucket
    requires b.lo <= b.hi
  {
    Part(b, b.lo, Midpoint(b), k, now)
  }

  function HighHalf(b: Bucket, k: nat, now: nat): Bucket
    requires b.lo <= b.hi
  {
    Part(b, Midpoint(b) + 1, b.hi, k, now)
  }

  /** A part of a bucket is well formed and holds exactly the contacts that belong there. */
  lemma PartFacts(b: Bucket, lo: nat, hi: nat, k: nat, now: nat)
    requires b.WellFormed(k)
    ensures var s, p := Within(b.nodes + b.repl, lo, hi), Part(b, lo, hi, k, now);
      && p.WellFormed(k) && p.Known() == Ids(s) && s == p.nodes + p.repl
      && NoDup(s) && |s| <= 6 * k
  {
    var s := Within(b.nodes + b.repl, lo, hi);
    NoDupConcat(b.nodes, b.repl);
    WithinNoDup(b.nodes + b.repl, lo, hi);
    WithinMembers(b.nodes + b.repl, lo, hi);
    FilledFacts(lo, hi, s, k, now);
  }

  lemma PartKnows(b: Bucket, lo: nat, hi: nat, k: nat, now: nat, p: Bucket, s: seq<Node>)
    requires b.WellFormed(k) && p == Part(b, lo, hi, k, now) && s == b.nodes + b.repl
    ensures p.Known() == Ids(Within(s, lo, hi))
  {
    PartFacts(b, lo, hi, k, now);
  }

  lemma AllTogether(b: Bucket, k: nat)
    requires b.WellFormed(k)
    ensures Ids(b.nodes + b.repl) == b.Known() && AllWithin(b.nodes + b.repl, b.lo, b.hi)
  {
    NoDupConcat(b.nodes, b.repl);
  }

  lemma PartWellFormed(b: Bucket, lo: nat, hi: nat, k: nat, now: nat)
    requires b.WellFormed(k)
    ensures Part(b, lo, hi, k, now).WellFormed(k)
  {
    PartFacts(b, lo, hi, k, now);
  }

  /** No primary is demoted in its part. */
  lemma PartPrimaries(b: Bucket, lo: nat, hi: nat, k: nat, now: nat)
    requires |b.nodes| <= k
    ensures forall n | n in b.nodes && lo <= n.longId <= hi :: n in Part(b, lo, hi, k, now).nodes
  {
    var w := Within(b.nodes, lo, hi);
    WithinConcat(b.nodes, b.repl, lo, hi);
    WithinMembers(b.nodes, lo, hi);
    assert Part(b, lo, hi, k, now).nodes[..|w|] == w;
  }

  lemma WithinPartition(s: seq<Node>, lo: nat, mid: nat, hi: int)
    requires AllWithin(s, lo, hi)
    ensures Ids(Within(s, lo, mid)) + Ids(Within(s, mid + 1, hi)) == Ids(s)
  {
    WithinMembers(s, lo, mid);
    WithinMembers(s, mid + 1, hi);
  }

  /** Splitting loses nobody. */
  lemma SplitKnown(b: Bucket, k: nat, now: nat)
    requires b.WellFormed(k) && b.lo <= b.hi
    ensures LowHalf(b, k, now).Known() + HighHalf(b, k, now).Known() == b.Known()
  {
    var s, mid := b.nodes + b.repl, Midpoint(b);
    var low, high := LowHalf(b, k, now), HighHalf(b, k, now);
    Unite(low.Known(), high.Known(), Ids(Within(s, b.lo, mid)), Ids(Within(s, mid + 1, b.hi)), b.Known()) by {
      PartKnows(b, b.lo, mid, k, now, low, s);
      PartKnows(b, mid + 1, b.hi, k, now, high, s);
      KnownParts(b, s, mid, k);
    }
  }

  lemma Unite<T>(a: set<T>, b: set<T>, x: set<T>, y: set<T>, all: set<T>)
    requires a == x && b == y && x + y == all
    ensures a + b == all
  {
  }

  lemma KnownParts(b: Bucket, s: seq<Node>, mid: nat, k: nat)
    requires b.WellFormed(k) && s == b.nodes + b.repl
    ensures Ids(Within(s, b.lo, mid)) + Ids(Within(s, mid + 1, b.hi)) == b.Known()
  {
    AllTogether(b, k);
    WithinPartition(s, b.lo, mid, b.hi);
  }

  /** Splitting demotes nobody. */
  lemma SplitPrimaries(b: Bucket, k: nat, now: nat)
    requires b.WellFormed(k) && b.lo <= b.hi
    ensures Ids(b.nodes) <= Ids(LowHalf(b, k, now).nodes) + Ids(HighHalf(b, k, now).nodes)
  {
    var low, high := LowHalf(b, k, now), HighHalf(b, k, now);
    forall n | n in b.nodes ensures n in low.nodes || n in high.nodes {
      PartPrimaries(b, b.lo, Midpoint(b), k, now);
      PartPrimaries(b, Midpoint(b) + 1, b.hi, k, now);
    }
  }

  // ---------- Depth

  const ID_BITS: nat := 8 * ID_LEN

  /** Bit `j` of an identifier, most significant first. */
  function BitAt(id: Id, j: nat): (bit: nat)
    requires j < ID_BITS
  {
    id[j / 8] / Pow2(7 - j % 8) % 2
  }

  /** All contacts of a non-empty list agree on bit `j`. */
  predicate AgreeAt(s: seq<Node>, j: nat)
    requires s != [] && j < ID_BITS
  {
    forall n | n in s :: BitAt(n.id, j) == BitAt(s[0].id, j)
  }

  /** The first bit from `j` on where the contacts disagree, or the end of the identifier. */
  function AgreeFrom(s: seq<Node>, j: nat): (d: nat)
    requires s != [] && j <= ID_BITS
    ensures j <= d <= ID_BITS
    ensures forall i | j <= i < d :: AgreeAt(s, i)
    ensures d < ID_BITS ==> !AgreeAt(s, d)
    decreases ID_BITS - j
  {
    if j < ID_BITS && AgreeAt(s, j) then AgreeFrom(s, j + 1) else j
  }

  /** Bits shared by all primary identifiers: nothing for no contact, everything for one. */
  function Depth(s: seq<Node>): (d: nat) {
    if s == [] then 0 else if |s| == 1 then ID_BITS else AgreeFrom(s, 0)
  }
}

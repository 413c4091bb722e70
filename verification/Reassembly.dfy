/** Putting messages together from datagrams that may be reordered, duplicated, lost or mixed with those
    of other messages and other peers, while stale buffers are thrown away. */
module Reassembly {
  import opened Nodes
  import opened Fragmentation

  type Peer = nat

  datatype Key = Key(peer: Peer, fragId: nat)

  const REASSEMBLY_TTL: nat := 10

  /** The buffer of a message in flight. */
  datatype Entry = Entry(total: nat, received: nat, chunks: seq<Option<Bytes>>, created: nat)

  function NewEntry(total: nat, now: nat): Entry {
    Entry(total, 0, seq(total, _ => None), now)
  }

  /** Store a chunk that is not there yet; the flag says that nothing is missing any more. */
  function InsertChunk(e: Entry, index: nat, chunk: Bytes): (Entry, bool) {
    if index >= |e.chunks| then (e, false)
    else
      var e' := if e.chunks[index].Some? then e
                else e.(chunks := e.chunks[index := Some(chunk)], received := e.received + 1);
      (e', e'.received == e'.total)
  }

  /** The chunks in order, unless one is missing. */
  function Assemble(chunks: seq<Option<Bytes>>): Option<Bytes> {
    if chunks == [] then Some([])
    else if chunks[0].None? then None
    else
      var rest := Assemble(chunks[1..]);
      if rest.None? then None else Some(chunks[0].value + rest.value)
  }

  function CountSome(chunks: seq<Option<Bytes>>): (n: nat)
    ensures n <= |chunks|
  {
    if chunks == [] then 0 else (if chunks[0].Some? then 1 else 0) + CountSome(chunks[1..])
  }

  lemma {:induction false} CountSet(chunks: seq<Option<Bytes>>, i: nat, c: Bytes)
    requires i < |chunks| && chunks[i].None?
    ensures CountSome(chunks[i := Some(c)]) == CountSome(chunks) + 1
  {
    var chunks' := chunks[i := Some(c)];
    if i == 0 {
      assert chunks'[1..] == chunks[1..];
    } else {
      assert chunks'[1..] == chunks[1..][i - 1 := Some(c)];
      CountSet(chunks[1..], i - 1, c);
    }
  }

  lemma {:induction false} CountFull(chunks: seq<Option<Bytes>>)
    ensures CountSome(chunks) == |chunks| <==> forall i | 0 <= i < |chunks| :: chunks[i].Some?
  {
    if chunks != [] {
      CountFull(chunks[1..]);
      assert (forall i | 0 <= i < |chunks| :: chunks[i].Some?) <==>
             chunks[0].Some? && forall i | 0 <= i < |chunks[1..]| :: chunks[1..][i].Some? by {
        assert forall i | 0 < i < |chunks| :: chunks[i] == chunks[1..][i - 1];
        assert forall i | 0 <= i < |chunks[1..]| :: chunks[1..][i] == chunks[i + 1];
      }
    }
  }

  lemma {:induction false} CountNone(n: nat)
    ensures CountSome(seq(n, _ => None)) == 0
  {
    var s: seq<Option<Bytes>> := seq(n, _ => None);
    if n > 0 {
      var s': seq<Option<Bytes>> := seq(n - 1, _ => None);
      assert s[1..] == s';
      CountNone(n - 1);
    }
  }

  lemma {:induction false} AssembleAll(chunks: seq<Option<Bytes>>, pieces: seq<Bytes>)
    requires |chunks| == |pieces| && forall i | 0 <= i < |chunks| :: chunks[i] == Some(pieces[i])
    ensures Assemble(chunks) == Some(Join(pieces))
  {
    if chunks != [] {
      AssembleAll(chunks[1..], pieces[1..]);
    }
  }

  // ---------- The machine

  type Buffers = map<Key, Entry>

  /** What one datagram does: nothing, a stored chunk, or a complete message. */
  function Accept(m: Buffers, peer: Peer, f: Fragment, now: nat): (Buffers, Option<Bytes>) {
    if f.total == 1 then (m, Some(f.chunk))
    else if f.total * CHUNK_SIZE > MAX_MESSAGE_SIZE then (m, None)
    else
      var key := Key(peer, f.fragId);
      var e := if key in m then m[key] else NewEntry(f.total, now);
      if e.total != f.total then (m, None)
      else
        var (e', complete) := InsertChunk(e, f.index, f.chunk);
        if complete then (m - {key}, Assemble(e'.chunks)) else (m[key := e'], None)
  }

  /** Throw away the buffers that are too old. */
  function Collect(m: Buffers, now: nat): Buffers {
    map key | key in m && now < m[key].created + REASSEMBLY_TTL :: m[key]
  }

  datatype Event = Receive(peer: Peer, data: Bytes, now: nat) | Gc(now: nat)

  datatype Delivery = Delivery(key: Key, payload: Bytes)

  datatype State = State(buffers: Buffers, out: seq<Delivery>)

  function Step(s: State, ev: Event): State {
    match ev
    case Gc(now) => s.(buffers := Collect(s.buffers, now))
    case Receive(peer, data, now) =>
      var f := Parse(data);
      if f.None? then s
      else
        var (m, p) := Accept(s.buffers, peer, f.value, now);
        State(m, if p.None? then s.out else s.out + [Delivery(Key(peer, f.value.fragId), p.value)])
  }

  /** A run from given buffers. */
  function Run(m0: Buffers, evs: seq<Event>): State {
    if evs == [] then State(m0, []) else Step(Run(m0, evs[..|evs| - 1]), evs[|evs| - 1])
  }

  // ---------- One message in the middle of everything else

  /** A message in flight: its key and its payload. */
  datatype Message = Message(key: Key, payload: Bytes)

  /** The event is a datagram that belongs to the key of the message. */
  predicate About(ev: Event, key: Key) {
    ev.Receive? && ev.peer == key.peer && Parse(ev.data).Some? && Parse(ev.data).value.fragId == key.fragId
  }

  predicate IsPiece(ev: Event, msg: Message, i: nat) {
    && i < |Pieces(msg.payload)|
    && ev.Receive? && ev.peer == msg.key.peer && ev.data == Datagram(msg.key.fragId, msg.payload, i)
  }

  /** Whatever carries the key of the message is one of its datagrams: no other message with the same
      peer and number is in flight. Everything else about the events is arbitrary. */
  ghost predicate Exclusive(evs: seq<Event>, msg: Message) {
    forall ev | ev in evs && About(ev, msg.key) :: exists i :: IsPiece(ev, msg, i)
  }

  function Copies(evs: seq<Event>, msg: Message, i: nat): (n: nat) {
    if evs == [] then 0
    else Copies(evs[..|evs| - 1], msg, i) + (if IsPiece(evs[|evs| - 1], msg, i) then 1 else 0)
  }

  function Deliveries(out: seq<Delivery>, key: Key): (n: nat) {
    if out == [] then 0
    else Deliveries(out[..|out| - 1], key) + (if out[|out| - 1].key == key then 1 else 0)
  }

  ghost predicate Sendable(msg: Message) {
    msg.key.fragId < FRAG_ID_LIMIT && |msg.payload| <= MAX_MESSAGE_SIZE
  }

  /** A buffer that holds chunks of the message, not all of them. */
  ghost predicate Partial(e: Entry, pieces: seq<Bytes>) {
    && e.total == |pieces| == |e.chunks|
    && e.received == CountSome(e.chunks) < e.total
    && forall i | 0 <= i < |pieces| :: e.chunks[i].Some? ==> e.chunks[i].value == pieces[i]
  }

  /** Chunk `i` of the message waits in its buffer. */
  predicate Waits(m: Buffers, key: Key, i: nat) {
    key in m && i < |m[key].chunks| && m[key].chunks[i].Some?
  }

  ghost predicate Faithful(s: State, msg: Message) {
    && (forall d | d in s.out && d.key == msg.key :: d.payload == msg.payload)
    && (msg.key in s.buffers ==> Partial(s.buffers[msg.key], Pieces(msg.payload)))
  }

  /** Each delivery and each waiting chunk is paid for by a copy that was received. */
  ghost predicate Paid(s: State, evs: seq<Event>, msg: Message) {
    forall i | 0 <= i < |Pieces(msg.payload)| ::
      Deliveries(s.out, msg.key) + (if Waits(s.buffers, msg.key, i) then 1 else 0) <= Copies(evs, msg, i)
  }

  /** A datagram of the message is recognised as itself, and by its index only. */
  lemma PieceParses(ev: Event, msg: Message, i: nat)
    requires Sendable(msg) && IsPiece(ev, msg, i)
    ensures Parse(ev.data) == Some(Fragment(msg.key.fragId, i, |Pieces(msg.payload)|, Pieces(msg.payload)[i]))
    ensures About(ev, msg.key)
    ensures forall j | IsPiece(ev, msg, j) :: j == i
  {
    ParseDatagram(msg.key.fragId, msg.payload, i);
    forall j | IsPiece(ev, msg, j) ensures j == i {
      ParseDatagram(msg.key.fragId, msg.payload, j);
    }
  }

  /** Storing one chunk of the message in its buffer. */
  lemma InsertPiece(e: Entry, pieces: seq<Bytes>, i: nat)
    requires Partial(e, pieces) && i < |pieces|
    ensures var (e', complete) := InsertChunk(e, i, pieces[i]);
      && (complete ==> Assemble(e'.chunks) == Some(Join(pieces)) && e.chunks[i].None?)
      && (complete ==> forall j | 0 <= j < |pieces| && j != i :: e.chunks[j].Some?)
      && (!complete ==> Partial(e', pieces))
      && (forall j | 0 <= j < |pieces| :: e'.chunks[j].Some? <==> e.chunks[j].Some? || j == i)
  {
    var (e', complete) := InsertChunk(e, i, pieces[i]);
    if e.chunks[i].None? {
      CountSet(e.chunks, i, pieces[i]);
      CountFull(e'.chunks);
      if complete {
        AssembleAll(e'.chunks, pieces);
        forall j | 0 <= j < |pieces| && j != i ensures e.chunks[j].Some? {
          assert e'.chunks[j].Some?;
        }
      }
    }
  }

  lemma FreshEntry(pieces: seq<Bytes>, now: nat)
    requires pieces != []
    ensures Partial(NewEntry(|pieces|, now), pieces)
  {
    CountNone(|pieces|);
  }

  lemma JoinPieces(payload: Bytes)
    ensures Join(Pieces(payload)) == payload
  {
    if payload == [] {
      assert Join([[]]) == [] + Join([[]][1..]);
    } else {
      JoinChunks(payload);
    }
  }

  /** The pieces of the message fit the receiver's limit. */
  ghost predicate Fits(msg: Message) {
    Sendable(msg) && |msg.payload| <= 187 * CHUNK_SIZE
  }

  lemma DeliveriesAppend(out: seq<Delivery>, d: Delivery, key: Key)
    ensures Deliveries(out + [d], key) == Deliveries(out, key) + (if d.key == key then 1 else 0)
  {
    assert (out + [d])[..|out|] == out;
  }

  /** What a datagram of the message does to a faithful state. */
  lemma AcceptPiece(m: Buffers, msg: Message, i: nat, now: nat)
    requires Fits(msg) && i < |Pieces(msg.payload)|
    requires msg.key in m ==> Partial(m[msg.key], Pieces(msg.payload))
    ensures var pieces := Pieces(msg.payload);
      var (m', p) := Accept(m, msg.key.peer, Fragment(msg.key.fragId, i, |pieces|, pieces[i]), now);
      && (p.Some? ==> p.value == msg.payload)
      && (msg.key in m' ==> Partial(m'[msg.key], pieces))
      && (forall j | 0 <= j < |pieces| ::
            (if p.Some? then 1 else 0) + (if Waits(m', msg.key, j) then 1 else 0) ==
            (if Waits(m, msg.key, j) then 1 else 0) + (if j == i && !Waits(m, msg.key, i) then 1 else 0))
  {
    var pieces := Pieces(msg.payload);
    PieceCount(msg.payload);
    JoinPieces(msg.payload);
    if |pieces| == 1 {
      assert Join(pieces) == pieces[0] + Join(pieces[1..]);
    } else {
      FreshEntry(pieces, now);
      var e := if msg.key in m then m[msg.key] else NewEntry(|pieces|, now);
      InsertPiece(e, pieces, i);
    }
  }

  /** A datagram of another message leaves the buffer of this one alone. */
  lemma AcceptOther(m: Buffers, peer: Peer, f: Fragment, now: nat, key: Key)
    requires Key(peer, f.fragId) != key
    ensures var m' := Accept(m, peer, f, now).0; (key in m' <==> key in m) && (key in m ==> m'[key] == m[key])
  {
  }

  /** The number of a delivered message in the list of deliveries, and of a waiting chunk. */
  ghost function Spent(s: State, msg: Message, i: nat): nat {
    Deliveries(s.out, msg.key) + (if Waits(s.buffers, msg.key, i) then 1 else 0)
  }

  lemma StepPiece(s: State, ev: Event, msg: Message, i: nat)
    requires Fits(msg) && Faithful(s, msg) && IsPiece(ev, msg, i)
    ensures Faithful(Step(s, ev), msg)
    ensures forall j | 0 <= j < |Pieces(msg.payload)| ::
              Spent(Step(s, ev), msg, j) == Spent(s, msg, j) + (if j == i && !Waits(s.buffers, msg.key, i) then 1 else 0)
  {
    PieceParses(ev, msg, i);
    AcceptPiece(s.buffers, msg, i, ev.now);
    var pieces := Pieces(msg.payload);
    var (m', p) := Accept(s.buffers, msg.key.peer, Fragment(msg.key.fragId, i, |pieces|, pieces[i]), ev.now);
    if p.Some? {
      DeliveriesAppend(s.out, Delivery(msg.key, p.value), msg.key);
    }
  }

  /** Anything else: another datagram, garbage, or a collection. */
  lemma StepElse(s: State, ev: Event, msg: Message)
    requires Faithful(s, msg) && !About(ev, msg.key)
    ensures Faithful(Step(s, ev), msg)
    ensures Deliveries(Step(s, ev).out, msg.key) == Deliveries(s.out, msg.key)
    ensures forall i: nat | Waits(Step(s, ev).buffers, msg.key, i) :: Waits(s.buffers, msg.key, i)
    ensures ev.Receive? ==> forall i: nat | Waits(s.buffers, msg.key, i) :: Waits(Step(s, ev).buffers, msg.key, i)
  {
    if ev.Receive? && Parse(ev.data).Some? {
      var f := Parse(ev.data).value;
      AcceptOther(s.buffers, ev.peer, f, ev.now, msg.key);
      var p := Accept(s.buffers, ev.peer, f, ev.now).1;
      if p.Some? {
        DeliveriesAppend(s.out, Delivery(Key(ev.peer, f.fragId), p.value), msg.key);
      }
    }
  }

  lemma CopiesOther(evs: seq<Event>, msg: Message, i: nat)
    requires evs != [] && Sendable(msg) && i < |Pieces(msg.payload)| && !About(evs[|evs| - 1], msg.key)
    ensures Copies(evs, msg, i) == Copies(evs[..|evs| - 1], msg, i)
  {
    var ev := evs[|evs| - 1];
    if IsPiece(ev, msg, i) {
      PieceParses(ev, msg, i);
    }
  }

  lemma CopiesPiece(evs: seq<Event>, msg: Message, i: nat, j: nat)
    requires evs != [] && Sendable(msg) && i < |Pieces(msg.payload)| && IsPiece(evs[|evs| - 1], msg, j)
    ensures Copies(evs, msg, i) == Copies(evs[..|evs| - 1], msg, i) + (if i == j then 1 else 0)
  {
    PieceParses(evs[|evs| - 1], msg, j);
  }

  /** Reassembly is safe: in every run from the moment the key of a message is free, whatever else
      arrives and is thrown away, every delivery under the
      key of the message has its payload, and there are never more deliveries than copies received of
      any one of its datagrams. */
  lemma {:induction false} ReassemblySafe(m0: Buffers, evs: seq<Event>, msg: Message)
    requires Fits(msg) && msg.key !in m0 && Exclusive(evs, msg)
    ensures Faithful(Run(m0, evs), msg) && Paid(Run(m0, evs), evs, msg)
  {
    if evs != [] {
      var front, ev := evs[..|evs| - 1], evs[|evs| - 1];
      var s := Run(m0, front);
      ReassemblySafe(m0, front, msg);
      if About(ev, msg.key) {
        var i :| IsPiece(ev, msg, i);
        StepPiece(s, ev, msg, i);
        forall j | 0 <= j < |Pieces(msg.payload)| ensures Spent(Run(m0, evs), msg, j) <= Copies(evs, msg, j) {
          CopiesPiece(evs, msg, j, i);
          assert Spent(s, msg, j) <= Copies(front, msg, j);
        }
      } else {
        StepElse(s, ev, msg);
        forall j | 0 <= j < |Pieces(msg.payload)| ensures Spent(Run(m0, evs), msg, j) <= Copies(evs, msg, j) {
          CopiesOther(evs, msg, j);
          assert Spent(s, msg, j) <= Copies(front, msg, j);
        }
      }
    }
  }

  // ---------- Exactly once

  /** The event throws away the buffer of the key. */
  predicate Throws(m: Buffers, ev: Event, key: Key) {
    ev.Gc? && key in m && ev.now >= m[key].created + REASSEMBLY_TTL
  }

  /** No event of the run throws away the buffer of the key. */
  ghost predicate Kept(m0: Buffers, evs: seq<Event>, key: Key) {
    evs == [] || (Kept(m0, evs[..|evs| - 1], key) && !Throws(Run(m0, evs[..|evs| - 1]).buffers, evs[|evs| - 1], key))
  }

  lemma GcKeeps(s: State, ev: Event, key: Key)
    requires ev.Gc? && !Throws(s.buffers, ev, key)
    ensures key in s.buffers ==> key in Step(s, ev).buffers && Step(s, ev).buffers[key] == s.buffers[key]
  {
  }

  /** While no datagram of the message came twice, every copy is a delivery or a waiting chunk. */
  lemma {:induction false} NothingLost(m0: Buffers, evs: seq<Event>, msg: Message)
    requires Fits(msg) && msg.key !in m0 && Exclusive(evs, msg) && Kept(m0, evs, msg.key)
    requires forall i | 0 <= i < |Pieces(msg.payload)| :: Copies(evs, msg, i) <= 1
    ensures forall i | 0 <= i < |Pieces(msg.payload)| :: Spent(Run(m0, evs), msg, i) == Copies(evs, msg, i)
  {
    if evs != [] {
      var front := evs[..|evs| - 1];
      forall i | 0 <= i < |Pieces(msg.payload)| ensures Copies(front, msg, i) <= 1 {
        assert Copies(front, msg, i) <= Copies(evs, msg, i);
      }
      NothingLost(m0, front, msg);
      ReassemblySafe(m0, front, msg);
      forall i | 0 <= i < |Pieces(msg.payload)| ensures Spent(Run(m0, evs), msg, i) == Copies(evs, msg, i) {
        StepLossless(m0, evs, msg, i);
      }
    }
  }

  lemma StepLossless(m0: Buffers, evs: seq<Event>, msg: Message, j: nat)
    requires evs != [] && Fits(msg) && Exclusive(evs, msg) && Kept(m0, evs, msg.key)
    requires j < |Pieces(msg.payload)| && Copies(evs, msg, j) <= 1
    requires var front := evs[..|evs| - 1];
      Faithful(Run(m0, front), msg) && Spent(Run(m0, front), msg, j) == Copies(front, msg, j)
    ensures Spent(Run(m0, evs), msg, j) == Copies(evs, msg, j)
  {
    var ev, s := evs[|evs| - 1], Run(m0, evs[..|evs| - 1]);
    if About(ev, msg.key) {
      var i :| IsPiece(ev, msg, i);
      CopiesPiece(evs, msg, j, i);
      StepPiece(s, ev, msg, i);
    } else {
      CopiesOther(evs, msg, j);
      StepElse(s, ev, msg);
      if ev.Gc? {
        GcKeeps(s, ev, msg.key);
      }
    }
  }

  /** A buffer has at least one chunk. */
  ghost predicate NotEmpty(m: Buffers, key: Key) {
    key in m ==> exists i :: Waits(m, key, i)
  }

  lemma AcceptNotEmpty(m: Buffers, peer: Peer, f: Fragment, now: nat, key: Key)
    requires NotEmpty(m, key) && f.index < f.total
    ensures NotEmpty(Accept(m, peer, f, now).0, key)
  {
    var m' := Accept(m, peer, f, now).0;
    if key == Key(peer, f.fragId) && key in m' && f.index < |m'[key].chunks| && m'[key].chunks[f.index].Some? {
      assert Waits(m', key, f.index);
    } else if key in m' {
      var i :| Waits(m, key, i);
      assert Waits(m', key, i);
    }
  }

  lemma {:induction false} NeverEmpty(m0: Buffers, evs: seq<Event>, key: Key)
    requires key !in m0
    ensures NotEmpty(Run(m0, evs).buffers, key)
  {
    if evs != [] {
      var front, ev := evs[..|evs| - 1], evs[|evs| - 1];
      var s := Run(m0, front);
      NeverEmpty(m0, front, key);
      if ev.Gc? {
        if key in Step(s, ev).buffers {
          var i :| Waits(s.buffers, key, i);
          assert Waits(Step(s, ev).buffers, key, i);
        }
      } else if Parse(ev.data).Some? {
        AcceptNotEmpty(s.buffers, ev.peer, Parse(ev.data).value, ev.now, key);
      }
    }
  }

  /** One event takes no more out than it puts in. */
  lemma StepPays(m0: Buffers, evs: seq<Event>, msg: Message, j: nat)
    requires evs != [] && Fits(msg) && msg.key !in m0 && Exclusive(evs, msg) && j < |Pieces(msg.payload)|
    ensures var front := evs[..|evs| - 1];
      Spent(Run(m0, evs), msg, j) - Spent(Run(m0, front), msg, j) <= Copies(evs, msg, j) - Copies(front, msg, j)
  {
    var front, ev := evs[..|evs| - 1], evs[|evs| - 1];
    var s := Run(m0, front);
    ReassemblySafe(m0, front, msg);
    if About(ev, msg.key) {
      var i :| IsPiece(ev, msg, i);
      StepPiece(s, ev, msg, i);
      CopiesPiece(evs, msg, j, i);
    } else {
      StepElse(s, ev, msg);
      CopiesOther(evs, msg, j);
    }
  }

  /** A buffer that is thrown away takes a copy of some datagram with it for good. */
  lemma {:induction false} ThrownIsLost(m0: Buffers, evs: seq<Event>, msg: Message) returns (i: nat)
    requires Fits(msg) && msg.key !in m0 && Exclusive(evs, msg) && !Kept(m0, evs, msg.key)
    ensures i < |Pieces(msg.payload)| && Spent(Run(m0, evs), msg, i) < Copies(evs, msg, i)
  {
    var front, ev := evs[..|evs| - 1], evs[|evs| - 1];
    var s := Run(m0, front);
    ReassemblySafe(m0, front, msg);
    if !Kept(m0, front, msg.key) {
      i := ThrownIsLost(m0, front, msg);
      StepPays(m0, evs, msg, i);
    } else {
      NeverEmpty(m0, front, msg.key);
      i :| Waits(s.buffers, msg.key, i);
      assert Spent(s, msg, i) <= Copies(front, msg, i);
      CopiesOther(evs, msg, i);
    }
  }

  lemma KeptDecides(m0: Buffers, evs: seq<Event>, msg: Message)
    requires Fits(msg) && msg.key !in m0 && Exclusive(evs, msg)
    requires forall i | 0 <= i < |Pieces(msg.payload)| :: Copies(evs, msg, i) == 1
    ensures Deliveries(Run(m0, evs).out, msg.key) == if Kept(m0, evs, msg.key) then 1 else 0
  {
    ReassemblySafe(m0, evs, msg);
    if Kept(m0, evs, msg.key) {
      NothingLost(m0, evs, msg);
      NotForever(m0, evs, msg);
    } else {
      var i := ThrownIsLost(m0, evs, msg);
    }
  }

  /** The chunks of a message do not all wait. */
  lemma NotForever(m0: Buffers, evs: seq<Event>, msg: Message)
    requires Faithful(Run(m0, evs), msg)
    requires forall i | 0 <= i < |Pieces(msg.payload)| :: Spent(Run(m0, evs), msg, i) == 1
    ensures Deliveries(Run(m0, evs).out, msg.key) == 1
  {
    var s := Run(m0, evs);
    assert Spent(s, msg, 0) == 1;
    if Deliveries(s.out, msg.key) == 0 {
      forall i | 0 <= i < |Pieces(msg.payload)| ensures s.buffers[msg.key].chunks[i].Some? {
        assert Spent(s, msg, i) == 1;
      }
      CountFull(s.buffers[msg.key].chunks);
    }
  }

  // ---------- The same on the events alone

  /** A datagram of the message has arrived. */
  ghost predicate Started(evs: seq<Event>, msg: Message) {
    exists i :: 0 <= i < |Pieces(msg.payload)| && Copies(evs, msg, i) >= 1
  }

  /** A datagram of the message is still missing. */
  ghost predicate Missing(evs: seq<Event>, msg: Message) {
    exists i :: 0 <= i < |Pieces(msg.payload)| && Copies(evs, msg, i) == 0
  }

  /** When the first datagram of the message arrived. */
  ghost function FirstTime(evs: seq<Event>, msg: Message): nat {
    if evs == [] then 0
    else if Started(evs[..|evs| - 1], msg) then FirstTime(evs[..|evs| - 1], msg)
    else evs[|evs| - 1].now
  }

  /** After some datagrams of the message and before its last, a collection comes a lifetime or more after the
      first. */
  ghost predicate Late(evs: seq<Event>, g: nat, msg: Message)
    requires g < |evs|
  {
    && evs[g].Gc? && Started(evs[..g], msg) && Missing(evs[..g], msg)
    && evs[g].now >= FirstTime(evs[..g], msg) + REASSEMBLY_TTL
  }

  ghost predicate NoneLate(evs: seq<Event>, msg: Message) {
    forall g | 0 <= g < |evs| :: !Late(evs, g, msg)
  }

  /** While the buffer is kept, it is there exactly between the first and the last datagram. */
  lemma BufferThere(m0: Buffers, evs: seq<Event>, msg: Message)
    requires Fits(msg) && msg.key !in m0 && Exclusive(evs, msg) && Kept(m0, evs, msg.key)
    requires forall i | 0 <= i < |Pieces(msg.payload)| :: Copies(evs, msg, i) <= 1
    ensures msg.key in Run(m0, evs).buffers <==> Started(evs, msg) && Missing(evs, msg)
  {
    var s := Run(m0, evs);
    NothingLost(m0, evs, msg);
    ReassemblySafe(m0, evs, msg);
    if msg.key in s.buffers {
      NeverEmpty(m0, evs, msg.key);
      var j :| Waits(s.buffers, msg.key, j);
      var i := SomeGap(s.buffers[msg.key].chunks);
      assert Spent(s, msg, j) == Copies(evs, msg, j) && Spent(s, msg, i) == Copies(evs, msg, i);
    }
    if Started(evs, msg) && Missing(evs, msg) {
      var j :| 0 <= j < |Pieces(msg.payload)| && Copies(evs, msg, j) >= 1;
      var i :| 0 <= i < |Pieces(msg.payload)| && Copies(evs, msg, i) == 0;
      assert Spent(s, msg, j) == Copies(evs, msg, j) && Spent(s, msg, i) == Copies(evs, msg, i);
    }
  }

  lemma SomeGap(chunks: seq<Option<Bytes>>) returns (i: nat)
    requires CountSome(chunks) < |chunks|
    ensures i < |chunks| && chunks[i].None?
  {
    CountFull(chunks);
    i :| 0 <= i < |chunks| && chunks[i].None?;
  }

  lemma AcceptCreated(m: Buffers, peer: Peer, f: Fragment, now: nat, key: Key)
    ensures var m' := Accept(m, peer, f, now).0;
      key in m' ==> m'[key].created == if key in m then m[key].created else now
  {
  }

  lemma StepCreated(s: State, ev: Event, key: Key)
    ensures key in Step(s, ev).buffers ==>
              Step(s, ev).buffers[key].created == if key in s.buffers then s.buffers[key].created else ev.now
  {
    if ev.Receive? && Parse(ev.data).Some? {
      AcceptCreated(s.buffers, ev.peer, Parse(ev.data).value, ev.now, key);
    }
  }

  lemma CopiesGrow(evs: seq<Event>, msg: Message, i: nat)
    requires evs != []
    ensures Copies(evs[..|evs| - 1], msg, i) <= Copies(evs, msg, i)
  {
  }

  /** While the buffer is kept, it was made when the first datagram arrived. */
  lemma {:induction false} MadeFirst(m0: Buffers, evs: seq<Event>, msg: Message)
    requires Fits(msg) && msg.key !in m0 && Exclusive(evs, msg) && Kept(m0, evs, msg.key)
    requires forall i | 0 <= i < |Pieces(msg.payload)| :: Copies(evs, msg, i) <= 1
    ensures msg.key in Run(m0, evs).buffers ==> Run(m0, evs).buffers[msg.key].created == FirstTime(evs, msg)
  {
    if evs != [] {
      var front, ev := evs[..|evs| - 1], evs[|evs| - 1];
      forall i | 0 <= i < |Pieces(msg.payload)| ensures Copies(front, msg, i) <= 1 {
        CopiesGrow(evs, msg, i);
      }
      MadeFirst(m0, front, msg);
      BufferThere(m0, front, msg);
      BufferThere(m0, evs, msg);
      StepCreated(Run(m0, front), ev, msg.key);
      if msg.key in Run(m0, evs).buffers && Started(front, msg) {
        var i :| 0 <= i < |Pieces(msg.payload)| && Copies(evs, msg, i) == 0;
        CopiesGrow(evs, msg, i);
        assert Missing(front, msg);
      }
    }
  }

  lemma FrontLate(evs: seq<Event>, g: nat, msg: Message)
    requires g + 1 < |evs|
    ensures Late(evs, g, msg) <==> Late(evs[..|evs| - 1], g, msg)
  {
    assert evs[..|evs| - 1][..g] == evs[..g];
  }

  /** The buffer is kept if and only if no collection is late. */
  lemma {:induction false} KeptExactly(m0: Buffers, evs: seq<Event>, msg: Message)
    requires Fits(msg) && msg.key !in m0 && Exclusive(evs, msg)
    requires forall i | 0 <= i < |Pieces(msg.payload)| :: Copies(evs, msg, i) <= 1
    ensures Kept(m0, evs, msg.key) <==> NoneLate(evs, msg)
  {
    if evs != [] {
      var last := |evs| - 1;
      var front := evs[..last];
      forall i | 0 <= i < |Pieces(msg.payload)| ensures Copies(front, msg, i) <= 1 {
        CopiesGrow(evs, msg, i);
      }
      KeptExactly(m0, front, msg);
      forall g | 0 <= g < last ensures Late(evs, g, msg) <==> Late(front, g, msg) {
        FrontLate(evs, g, msg);
      }
      if Kept(m0, front, msg.key) {
        BufferThere(m0, front, msg);
        MadeFirst(m0, front, msg);
        assert Throws(Run(m0, front).buffers, evs[last], msg.key) <==> Late(evs, last, msg);
      }
    }
  }

  /** A message whose datagrams all arrive exactly once, in whatever order and however late, is delivered exactly
      once if no collection between its first and its last datagram comes a lifetime or more after the first,
      and not at all otherwise. */
  lemma DeliveredOnce(m0: Buffers, evs: seq<Event>, msg: Message)
    requires Fits(msg) && msg.key !in m0 && Exclusive(evs, msg)
    requires forall i | 0 <= i < |Pieces(msg.payload)| :: Copies(evs, msg, i) == 1
    ensures Deliveries(Run(m0, evs).out, msg.key) == if NoneLate(evs, msg) then 1 else 0
  {
    KeptDecides(m0, evs, msg);
    KeptExactly(m0, evs, msg);
  }

  // ---------- The exact size limit

  /** A message that the sender accepts but whose projected size exceeds the receiver's limit is never
      delivered and never buffered. */
  lemma {:induction false} TooLargeNeverDelivered(m0: Buffers, evs: seq<Event>, msg: Message)
    requires Sendable(msg) && !Fits(msg) && msg.key !in m0 && Exclusive(evs, msg)
    ensures msg.key !in Run(m0, evs).buffers && Deliveries(Run(m0, evs).out, msg.key) == 0
  {
    if evs != [] {
      var front, ev := evs[..|evs| - 1], evs[|evs| - 1];
      TooLargeNeverDelivered(m0, front, msg);
      var s := Run(m0, front);
      if About(ev, msg.key) {
        var i :| IsPiece(ev, msg, i);
        PieceParses(ev, msg, i);
        PieceCount(msg.payload);
      } else {
        NotAboutKeeps(s, ev, msg.key);
      }
    }
  }

  lemma NotAboutKeeps(s: State, ev: Event, key: Key)
    requires key !in s.buffers && !About(ev, key)
    ensures key !in Step(s, ev).buffers && Deliveries(Step(s, ev).out, key) == Deliveries(s.out, key)
  {
    if ev.Receive? && Parse(ev.data).Some? {
      var f := Parse(ev.data).value;
      var p := Accept(s.buffers, ev.peer, f, ev.now).1;
      if p.Some? {
        DeliveriesAppend(s.out, Delivery(Key(ev.peer, f.fragId), p.value), key);
      }
    }
  }

  // ---------- Assembly never fails

  ghost predicate Sane(e: Entry) {
    |e.chunks| == e.total && e.received == CountSome(e.chunks) < e.total
  }

  ghost predicate AllSane(m: Buffers) {
    forall key | key in m :: Sane(m[key])
  }

  lemma InsertSane(e: Entry, index: nat, chunk: Bytes)
    requires Sane(e) && index < e.total
    ensures var (e', complete) := InsertChunk(e, index, chunk);
      if complete then Assemble(e'.chunks).Some? else Sane(e')
  {
    var (e', complete) := InsertChunk(e, index, chunk);
    if e.chunks[index].None? {
      CountSet(e.chunks, index, chunk);
      CountFull(e'.chunks);
      if complete {
        AssembleAll(e'.chunks, seq(|e'.chunks|, i requires 0 <= i < |e'.chunks| => e'.chunks[i].value));
      }
    }
  }

  /** The datagram is the last missing one, so the program assembles the buffer. */
  predicate Completes(m: Buffers, peer: Peer, f: Fragment, now: nat) {
    var key := Key(peer, f.fragId);
    var e := if key in m then m[key] else NewEntry(f.total, now);
    && f.total != 1 && f.total * CHUNK_SIZE <= MAX_MESSAGE_SIZE && e.total == f.total
    && InsertChunk(e, f.index, f.chunk).1
  }

  lemma AcceptSane(m: Buffers, peer: Peer, f: Fragment, now: nat)
    requires AllSane(m) && f.index < f.total
    ensures AllSane(Accept(m, peer, f, now).0)
    ensures Completes(m, peer, f, now) ==> Accept(m, peer, f, now).1.Some?
  {
    CountNone(f.total);
    var key := Key(peer, f.fragId);
    var e := if key in m then m[key] else NewEntry(f.total, now);
    if e.total == f.total {
      InsertSane(e, f.index, f.chunk);
    }
  }

  lemma {:induction false} BuffersSane(evs: seq<Event>)
    ensures AllSane(Run(map[], evs).buffers)
  {
    if evs != [] {
      var front, ev := evs[..|evs| - 1], evs[|evs| - 1];
      BuffersSane(front);
      if ev.Receive? && Parse(ev.data).Some? {
        AcceptSane(Run(map[], front).buffers, ev.peer, Parse(ev.data).value, ev.now);
      }
    }
  }

  /** After any events at all, a datagram that completes a buffer yields a message: the branch for a
      failed assembly is dead. */
  lemma AssemblyNeverFails(evs: seq<Event>, peer: Peer, data: Bytes, now: nat)
    requires Parse(data).Some? && Completes(Run(map[], evs).buffers, peer, Parse(data).value, now)
    ensures Accept(Run(map[], evs).buffers, peer, Parse(data).value, now).1.Some?
  {
    BuffersSane(evs);
    AcceptSane(Run(map[], evs).buffers, peer, Parse(data).value, now);
  }

  // ---------- The objects of the program

  class ReassemblyEntry {
    var total: nat
    var received: nat
    var chunks: seq<Option<Bytes>>
    const created: nat

    function View(): Entry
      reads this
    {
      Entry(total, received, chunks, created)
    }

    constructor Of(e: Entry)
      ensures View() == e
    {
      total, received, chunks, created := e.total, e.received, e.chunks, e.created;
    }

    method Insert(index: nat, payload: Bytes) returns (complete: bool)
      modifies this
      ensures (View(), complete) == InsertChunk(old(View()), index, payload)
    {
      if index >= |chunks| {
        return false;
      }
      if chunks[index].None? {
        chunks := chunks[index := Some(payload)];
        received := received + 1;
      }
      return received == total;
    }

    method Assembled() returns (out: Option<Bytes>)
      ensures out == Assemble(chunks)
    {
      var acc: Bytes := [];
      assert chunks[0..] == chunks;
      PrependFacts([], [], Assemble(chunks));
      for i := 0 to |chunks|
        invariant Assemble(chunks) == Prepend(acc, Assemble(chunks[i..]))
      {
        assert chunks[i..][1..] == chunks[i + 1..];
        if chunks[i].None? {
          return None;
        }
        PrependFacts(acc, chunks[i].value, Assemble(chunks[i + 1..]));
        acc := acc + chunks[i].value;
      }
      PrependFacts(acc, [], Some([]));
      return Some(acc);
    }
  }

  /** The datagram belongs to a message that still misses a chunk afterwards. */
  predicate StaysPartial(m: Buffers, peer: Peer, data: Bytes, now: nat) {
    var f := Parse(data);
    && f.Some? && f.value.total != 1 && f.value.total * CHUNK_SIZE <= MAX_MESSAGE_SIZE
    && var key := Key(peer, f.value.fragId);
      var e := if key in m then m[key] else NewEntry(f.value.total, now);
      e.total == f.value.total && !InsertChunk(e, f.value.index, f.value.chunk).1
  }

  function Prepend(a: Bytes, b: Option<Bytes>): Option<Bytes> {
    if b.None? then None else Some(a + b.value)
  }

  lemma PrependFacts(a: Bytes, b: Bytes, c: Option<Bytes>)
    ensures Prepend(a, Prepend(b, c)) == Prepend(a + b, c)
    ensures Prepend([], c) == c && Prepend(a, Some([])) == Some(a)
  {
    if c.Some? {
      assert a + (b + c.value) == a + b + c.value;
      assert [] + c.value == c.value;
    }
    assert a + [] == a;
  }

  class Reassembler {
    var buffers: Buffers

    constructor ()
      ensures buffers == map[]
    {
      buffers := map[];
    }

    method GcReassembly(now: nat)
      modifies this
      ensures buffers == Collect(old(buffers), now)
    {
      buffers := map key | key in buffers && now < buffers[key].created + REASSEMBLY_TTL :: buffers[key];
    }

    /** The part of the datagram handler before deserialization; incomplete messages trigger a
        collection. */
    method HandleDatagram(peer: Peer, data: Bytes, now: nat) returns (payload: Option<Bytes>)
      modifies this
      ensures var s1 := Step(State(old(buffers), []), Receive(peer, data, now));
        && payload == (if s1.out == [] then None else Some(s1.out[0].payload))
        && buffers == (if StaysPartial(old(buffers), peer, data, now) then Collect(s1.buffers, now) else s1.buffers)
    {
      var parsed := Parse(data);
      if parsed.None? {
        return None;
      }
      var f := parsed.value;
      if f.total == 1 {
        return Some(f.chunk);
      }
      if f.total * CHUNK_SIZE > MAX_MESSAGE_SIZE {
        return None;
      }
      var key := Key(peer, f.fragId);
      var entry := new ReassemblyEntry.Of(if key in buffers then buffers[key] else NewEntry(f.total, now));
      if entry.total != f.total {
        return None;
      }
      var complete := entry.Insert(f.index, f.chunk);
      if !complete {
        buffers := buffers[key := entry.View()];
        GcReassembly(now);
        return None;
      }
      buffers := buffers - {key};
      payload := entry.Assembled();
    }
  }
}

/** The receive loop that spreads datagrams over bounded worker queues. */
module Dispatch {
  import opened Nodes

  const DEPTH: nat := 256

  datatype Datagram = Datagram(data: seq<byte>, peer: nat)

  /** Where the loop is: waiting for a datagram, trying worker `Wrap(n, base + i)`, or waiting for room at
      `base` after every try failed. */
  datatype Phase = Idle | Placing(d: Datagram, base: nat, i: nat) | Blocked(d: Datagram, w: nat)

  datatype Placed = Placed(d: Datagram, w: nat)

  /** A queue that a try found full, with its length then. */
  datatype Refusal = Refusal(w: nat, length: nat)

  /** The queues, the loop, and four history variables: what was received, what went where, what each worker
      took, and the refusals of the current pass. */
  datatype State = State(queues: seq<seq<Datagram>>, phase: Phase, idx: nat,
                         received: seq<Datagram>, placed: seq<Placed>, taken: seq<seq<Datagram>>, refusals: seq<Refusal>)

  datatype Action = Receive(d: Datagram) | Try | Send | Take(w: nat)

  /** Counting on from the last worker to the first. */
  function Wrap(n: nat, x: nat): nat {
    if x < n then x else x - n
  }

  lemma WrapIsRemainder(n: nat, x: nat)
    requires x < 2 * n
    ensures Wrap(n, x) == x % n
  {
  }

  /** The datagram goes to the end of the queue and the loop turns to the next worker. */
  function Enqueue(n: nat, s: State, d: Datagram, w: nat): State
    requires w < |s.queues| && n > 0
  {
    s.(queues := s.queues[w := s.queues[w] + [d]], phase := Idle, idx := Wrap(n, w + 1), placed := s.placed + [Placed(d, w)])
  }

  /** There are `n` queues and every worker number is one of theirs. */
  predicate Shaped(n: nat, s: State) {
    && |s.queues| == n && |s.taken| == n && s.idx < n
    && match s.phase
       case Idle => true
       case Placing(_, base, i) => base < n && i < n
       case Blocked(_, w) => w < n
  }

  function TryStep(n: nat, s: State): (s': State)
    requires Shaped(n, s) && s.phase.Placing?
    ensures Shaped(n, s')
  {
    var w := Wrap(n, s.phase.base + s.phase.i);
    if |s.queues[w]| < DEPTH then Enqueue(n, s, s.phase.d, w)
    else
      var s' := s.(refusals := s.refusals + [Refusal(w, |s.queues[w]|)]);
      if s.phase.i + 1 < n then s'.(phase := s.phase.(i := s.phase.i + 1))
      else s'.(phase := Blocked(s.phase.d, s.phase.base))
  }

  /** Every action that is not possible changes nothing. */
  function Step(n: nat, s: State, a: Action): (s': State)
    requires Shaped(n, s)
    ensures Shaped(n, s')
  {
    match a
    case Receive(d) =>
      if s.phase != Idle then s else s.(phase := Placing(d, s.idx, 0), received := s.received + [d], refusals := [])
    case Try => if s.phase.Placing? then TryStep(n, s) else s
    case Send =>
      if s.phase.Blocked? && |s.queues[s.phase.w]| < DEPTH then Enqueue(n, s, s.phase.d, s.phase.w) else s
    case Take(w) =>
      if w >= n || s.queues[w] == [] then s
      else s.(queues := s.queues[w := s.queues[w][1..]], taken := s.taken[w := s.taken[w] + [s.queues[w][0]]])
  }

  function Start(n: nat): State {
    State(seq(n, _ => []), Idle, 0, [], [], seq(n, _ => []), [])
  }

  function Run(n: nat, acts: seq<Action>): (s: State)
    requires n > 0
    ensures Shaped(n, s)
  {
    if acts == [] then Start(n) else Step(n, Run(n, acts[..|acts| - 1]), acts[|acts| - 1])
  }

  // ---------- What every run keeps

  function Datagrams(placed: seq<Placed>): seq<Datagram> {
    if placed == [] then [] else Datagrams(placed[..|placed| - 1]) + [placed[|placed| - 1].d]
  }

  /** What went to one worker, in order. */
  function Share(placed: seq<Placed>, w: nat): seq<Datagram> {
    if placed == [] then []
    else Share(placed[..|placed| - 1], w) + (if placed[|placed| - 1].w == w then [placed[|placed| - 1].d] else [])
  }

  /** The datagram in the loop's hands. */
  function InHand(phase: Phase): seq<Datagram> {
    if phase.Idle? then [] else [phase.d]
  }

  ghost predicate Bounded(queues: seq<seq<Datagram>>) {
    forall w | 0 <= w < |queues| :: |queues[w]| <= DEPTH
  }

  /** Each worker's queue continues what it took, in the order in which the loop placed it. */
  ghost predicate InOrder(s: State) {
    |s.taken| == |s.queues| && forall w | 0 <= w < |s.queues| :: Share(s.placed, w) == s.taken[w] + s.queues[w]
  }

  /** The refusals of the pass so far are full queues, in cyclic order from the base. */
  ghost predicate Refused(n: nat, refusals: seq<Refusal>, base: nat, i: nat)
    requires n > 0
  {
    |refusals| == i && forall j | 0 <= j < i :: refusals[j] == Refusal(Wrap(n, base + j), DEPTH)
  }

  /** Every worker's queue was found full. */
  ghost predicate AllRefused(n: nat, refusals: seq<Refusal>) {
    forall w | 0 <= w < n :: Refusal(w, DEPTH) in refusals
  }

  ghost predicate PassInv(n: nat, s: State)
    requires n > 0
  {
    match s.phase
    case Idle => true
    case Placing(_, base, i) => Refused(n, s.refusals, base, i)
    case Blocked(_, w) => AllRefused(n, s.refusals)
  }

  ghost predicate Inv(n: nat, s: State)
    requires n > 0
  {
    && Shaped(n, s) && Bounded(s.queues) && InOrder(s) && PassInv(n, s)
    && (forall j | 0 <= j < |s.placed| :: s.placed[j].w < n)
    && s.received == Datagrams(s.placed) + InHand(s.phase)
  }

  lemma PlacedLast(placed: seq<Placed>, p: Placed, w: nat)
    ensures Datagrams(placed + [p]) == Datagrams(placed) + [p.d]
    ensures Share(placed + [p], w) == Share(placed, w) + (if p.w == w then [p.d] else [])
  {
    assert (placed + [p])[..|placed|] == placed;
  }

  lemma EnqueueKeepsInv(n: nat, s: State, w: nat)
    requires n > 0 && Inv(n, s) && !s.phase.Idle? && w < n && |s.queues[w]| < DEPTH
    ensures Inv(n, Enqueue(n, s, s.phase.d, w))
  {
    var s' := Enqueue(n, s, s.phase.d, w);
    var p := Placed(s.phase.d, w);
    forall v | 0 <= v < n ensures Share(s'.placed, v) == s'.taken[v] + s'.queues[v] {
      PlacedLast(s.placed, p, v);
    }
    PlacedLast(s.placed, p, w);
  }

  /** A pass of `n` tries goes to every worker. */
  lemma PassCovers(n: nat, refusals: seq<Refusal>, base: nat)
    requires n > 0 && base < n && Refused(n, refusals, base, n)
    ensures AllRefused(n, refusals)
  {
    forall w | 0 <= w < n ensures Refusal(w, DEPTH) in refusals {
      var j := if w >= base then w - base else w - base + n;
      assert refusals[j] == Refusal(w, DEPTH);
    }
  }

  lemma RefusedMore(n: nat, refusals: seq<Refusal>, base: nat, i: nat)
    requires n > 0 && Refused(n, refusals, base, i)
    ensures Refused(n, refusals + [Refusal(Wrap(n, base + i), DEPTH)], base, i + 1)
  {
  }

  lemma TryKeepsInv(n: nat, s: State)
    requires n > 0 && Inv(n, s) && s.phase.Placing?
    ensures Inv(n, TryStep(n, s))
  {
    var w := Wrap(n, s.phase.base + s.phase.i);
    if |s.queues[w]| < DEPTH {
      EnqueueKeepsInv(n, s, w);
    } else {
      RefusedMore(n, s.refusals, s.phase.base, s.phase.i);
      if s.phase.i + 1 == n {
        PassCovers(n, s.refusals + [Refusal(w, DEPTH)], s.phase.base);
      }
    }
  }

  lemma TakeKeepsInv(n: nat, s: State, w: nat)
    requires n > 0 && Inv(n, s) && w < n && s.queues[w] != []
    ensures Inv(n, Step(n, s, Take(w)))
  {
    var s' := Step(n, s, Take(w));
    assert s.queues[w] == [s.queues[w][0]] + s.queues[w][1..];
    forall v | 0 <= v < n ensures Share(s'.placed, v) == s'.taken[v] + s'.queues[v] {
    }
  }

  lemma {:induction false} RunKeepsInv(n: nat, acts: seq<Action>)
    requires n > 0
    ensures Inv(n, Run(n, acts))
  {
    if acts != [] {
      var s, a := Run(n, acts[..|acts| - 1]), acts[|acts| - 1];
      RunKeepsInv(n, acts[..|acts| - 1]);
      match a
      case Receive(d) =>
      case Try => if s.phase.Placing? { TryKeepsInv(n, s); }
      case Send =>
        if s.phase.Blocked? && |s.queues[s.phase.w]| < DEPTH {
          EnqueueKeepsInv(n, s, s.phase.w);
        }
      case Take(w) => if w < n && s.queues[w] != [] { TakeKeepsInv(n, s, w); }
    }
  }

  // ---------- Counting

  function Total(xs: seq<seq<Datagram>>): nat {
    if xs == [] then 0 else Total(xs[..|xs| - 1]) + |xs[|xs| - 1]|
  }

  function ShareSizes(placed: seq<Placed>, n: nat): nat {
    if n == 0 then 0 else ShareSizes(placed, n - 1) + |Share(placed, n - 1)|
  }

  lemma {:induction false} OneShareGrows(placed: seq<Placed>, p: Placed, n: nat)
    ensures ShareSizes(placed + [p], n) == ShareSizes(placed, n) + (if p.w < n then 1 else 0)
  {
    if n > 0 {
      OneShareGrows(placed, p, n - 1);
      PlacedLast(placed, p, n - 1);
    }
  }

  /** The shares of all workers together are everything that was placed. */
  lemma {:induction false} SharesAddUp(placed: seq<Placed>, n: nat)
    requires forall j | 0 <= j < |placed| :: placed[j].w < n
    ensures ShareSizes(placed, n) == |placed|
  {
    if placed == [] {
      NoShares(n);
    } else {
      var front, p := placed[..|placed| - 1], placed[|placed| - 1];
      assert placed == front + [p];
      assert p.w < n;
      SharesAddUp(front, n);
      OneShareGrows(front, p, n);
    }
  }

  lemma {:induction false} OneEach(placed: seq<Placed>)
    ensures |Datagrams(placed)| == |placed|
  {
    if placed != [] {
      OneEach(placed[..|placed| - 1]);
    }
  }

  lemma {:induction false} NoShares(n: nat)
    ensures ShareSizes([], n) == 0
  {
    if n > 0 {
      NoShares(n - 1);
    }
  }

  lemma {:induction false} SharesSplit(placed: seq<Placed>, taken: seq<seq<Datagram>>, queues: seq<seq<Datagram>>)
    requires |taken| == |queues| && forall w | 0 <= w < |queues| :: Share(placed, w) == taken[w] + queues[w]
    ensures ShareSizes(placed, |queues|) == Total(taken) + Total(queues)
    decreases |queues|
  {
    if queues != [] {
      SharesSplit(placed, taken[..|taken| - 1], queues[..|queues| - 1]);
    }
  }

  /** In every interleaving of the loop and the workers: no queue is longer than 256; what was received is
      queued, taken or in the loop's hands, and each worker gets its share in the order of arrival; and the
      loop waits for a worker only after finding every queue full in the same pass. */
  lemma Conserved(n: nat, acts: seq<Action>)
    requires n > 0
    ensures var s := Run(n, acts);
      && Bounded(s.queues) && InOrder(s)
      && s.received == Datagrams(s.placed) + InHand(s.phase)
      && |s.received| == Total(s.taken) + Total(s.queues) + |InHand(s.phase)|
      && (s.phase.Blocked? ==> AllRefused(n, s.refusals))
  {
    RunKeepsInv(n, acts);
    var s := Run(n, acts);
    SharesAddUp(s.placed, n);
    OneEach(s.placed);
    SharesSplit(s.placed, s.taken, s.queues);
  }

  // ---------- One pass of the program, when no worker runs in between

  function Pass(n: nat, s: State): (r: State)
    requires Shaped(n, s)
    decreases if s.phase.Placing? then n - s.phase.i else 0
  {
    if s.phase.Placing? then Pass(n, TryStep(n, s)) else s
  }

  /** Try `j` of a pass finds room. */
  predicate HasRoom(n: nat, queues: seq<seq<Datagram>>, base: nat, j: nat)
    requires |queues| == n && base < n && j < n
  {
    |queues[Wrap(n, base + j)]| < DEPTH
  }

  /** The first try from `i` on that finds room; `n` if none does. */
  function FirstRoom(n: nat, queues: seq<seq<Datagram>>, base: nat, i: nat): (m: nat)
    requires |queues| == n && base < n && i <= n
    ensures i <= m <= n
    decreases n - i
  {
    if i == n || HasRoom(n, queues, base, i) then i else FirstRoom(n, queues, base, i + 1)
  }

  /** What a pass leaves behind when its first `m` tries fail: the datagram in the next queue, or, when
      there is none, a loop that waits at the base. */
  predicate Settles(n: nat, queues: seq<seq<Datagram>>, d: Datagram, base: nat, m: nat, r: State)
    requires |queues| == n && base < n && m <= n
  {
    if m < n then
      var w := Wrap(n, base + m);
      r.queues == queues[w := queues[w] + [d]] && r.idx == Wrap(n, w + 1) && r.phase == Idle
    else r.queues == queues && r.phase == Blocked(d, base)
  }

  /** A pass puts the datagram into the first queue with room, or blocks at the base. */
  lemma {:induction false} PassSettles(n: nat, s: State)
    requires Shaped(n, s) && s.phase.Placing?
    ensures Settles(n, s.queues, s.phase.d, s.phase.base, FirstRoom(n, s.queues, s.phase.base, s.phase.i), Pass(n, s))
    decreases n - s.phase.i
  {
    var s' := TryStep(n, s);
    TrySettles(n, s, s');
    assert Pass(n, s) == Pass(n, s');
    if s'.phase.Placing? {
      PassSettles(n, s');
    }
  }

  /** One try: it settles the datagram, or the pass goes on with the next one. */
  lemma TrySettles(n: nat, s: State, s': State)
    requires Shaped(n, s) && s.phase.Placing? && s' == TryStep(n, s)
    ensures var m := FirstRoom(n, s.queues, s.phase.base, s.phase.i);
      if s'.phase.Placing? then
        && Shaped(n, s') && s'.queues == s.queues && s'.phase == s.phase.(i := s.phase.i + 1)
        && m == FirstRoom(n, s.queues, s.phase.base, s.phase.i + 1)
      else Settles(n, s.queues, s.phase.d, s.phase.base, m, s')
  {
  }

  /** The try it names finds room and the tries before it do not. */
  lemma {:induction false} FirstRoomIsFirst(n: nat, queues: seq<seq<Datagram>>, base: nat, i: nat)
    requires |queues| == n && base < n && i <= n
    ensures var m := FirstRoom(n, queues, base, i);
      && (m < n ==> HasRoom(n, queues, base, m))
      && forall j | i <= j < m :: !HasRoom(n, queues, base, j)
    decreases n - i
  {
    if i < n && !HasRoom(n, queues, base, i) {
      FirstRoomIsFirst(n, queues, base, i + 1);
    }
  }

  /** A pass that finds no room has seen every queue full. */
  lemma NoRoomAnywhere(n: nat, queues: seq<seq<Datagram>>, base: nat, w: nat)
    requires |queues| == n && base < n && w < n && FirstRoom(n, queues, base, 0) == n
    ensures |queues[w]| >= DEPTH
  {
    var j := if w >= base then w - base else w - base + n;
    FirstRoomIsFirst(n, queues, base, 0);
    assert !HasRoom(n, queues, base, j);
  }

  class Dispatcher {
    var queues: seq<seq<Datagram>>
    var idx: nat

    ghost predicate Valid()
      reads this
    {
      |queues| > 0 && idx < |queues| && Bounded(queues)
    }

    constructor (n: nat)
      requires n > 0
      ensures Valid() && queues == Start(n).queues && idx == 0
    {
      queues := seq(n, _ => []);
      idx := 0;
    }

    /** Try each worker once, starting at `idx`. The datagram goes to the first one with room. */
    method Place(d: Datagram) returns (sent: bool)
      requires Valid()
      modifies this
      ensures |queues| == old(|queues|) && idx < |queues|
      ensures var m := FirstRoom(|queues|, old(queues), old(idx), 0);
        && (sent <==> m < |queues|)
        && (sent ==> var w := Wrap(|queues|, old(idx) + m);
                     queues == old(queues)[w := old(queues)[w] + [d]] && idx == Wrap(|queues|, w + 1))
        && (!sent ==> queues == old(queues) && idx == old(idx))
    {
      var n, base, i := |queues|, idx, 0;
      while i < n
        invariant 0 <= i <= n && queues == old(queues) && idx == base
        invariant FirstRoom(n, queues, base, i) == FirstRoom(n, queues, base, 0)
      {
        var w := (base + i) % n;
        WrapIsRemainder(n, base + i);
        if |queues[w]| < DEPTH {
          queues := queues[w := queues[w] + [d]];
          idx := (w + 1) % n;
          WrapIsRemainder(n, w + 1);
          return true;
        }
        i := i + 1;
      }
      return false;
    }
  }
}

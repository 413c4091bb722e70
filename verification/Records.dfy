/** The life of a record at one node. A store is checked through the verdict cache and then committed; the
    other handlers read the store, verify without holding anything, and then commit. Between the steps of
    one handler any others may run. */
module Records {
  import opened Nodes
  import opened Storage
  import Auth
  import Cache

  /** The kinds of request whose handler reads before it commits. */
  datatype Request =
    | Update(key: Bytes, value: Bytes, auth: Bytes)
    | UpdateStatusList(key: Bytes, value: Bytes)
    | Remove(key: Bytes, auth: Bytes, message: Bytes)

  /** A handler between its read and its commit: the value it read, the write that put that value there,
      and the moment of the read. */
  datatype Pending = Pending(req: Request, seen: Bytes, parent: nat, seenAt: nat)

  /** Why a value was written: an accepted check of a store, a rotation, or an issuer's record. */
  datatype Origin =
    | Stored(answer: nat, seenAt: nat)
    | Rotated(parent: nat, auth: Bytes, seenAt: nat)
    | Issued

  datatype Write = Write(key: Bytes, value: Bytes, origin: Origin)

  datatype Snapshot = Snapshot(d: Data, now: nat)

  /** The store, the clock, the running handlers, the checks with their cache and answers, and the answers
      that a store has used up. Three history variables: all writes by handlers, the write behind each
      stored record, and the store before each action. */
  datatype State = State(d: Data, now: nat, pend: map<nat, Pending>, checks: Cache.State, used: set<nat>,
                         log: seq<Write>, at: map<Bytes, nat>, past: seq<Snapshot>)

  datatype Action =
    | Check(a: Cache.Action)
    | Store(key: Bytes, value: Bytes, answer: nat)
    | Begin(h: nat, req: Request)
    | Finish(h: nat)
    | Tick(later: nat)

  /** What stays fixed: the verifiers and their cache, the lifetime of records, and the key of the status
      list. */
  datatype Config = Config(checks: Cache.Config, life: Option<nat>, statusKey: Bytes) {
    function Crypto(): Auth.Crypto {
      checks.c
    }
  }

  /** The check that a store of this record at this key asks for. */
  function CheckOf(cf: Config, key: Bytes, value: Bytes): Cache.Check {
    Cache.Check(key == cf.statusKey, value)
  }

  /** The verdict without a cache, in the mode of the key. */
  predicate StoreOk(cf: Config, key: Bytes, value: Bytes) {
    Cache.Verdict(cf.Crypto(), CheckOf(cf, key, value))
  }

  predicate RequestOk(cf: Config, p: Pending) {
    match p.req
    case Update(key, value, auth) => Auth.Accepted(Auth.KeyRotation(cf.Crypto(), value, p.seen, auth))
    case UpdateStatusList(key, value) => Auth.Accepted(Auth.IssuerSigned(cf.Crypto(), value))
    case Remove(key, auth, message) => Auth.Accepted(Auth.DeleteSigned(cf.Crypto(), p.seen, auth, message))
  }

  /** Put a value into the store and record why. */
  function Commit(s: State, key: Bytes, value: Bytes, origin: Origin): State {
    s.(d := s.d[key := Record(value, s.now)],
       log := s.log + [Write(key, value, origin)],
       at := s.at[key := |s.log|])
  }

  function FinishPending(cf: Config, s: State, p: Pending): State {
    if !RequestOk(cf, p) then s
    else
      match p.req
      case Update(key, value, auth) => Commit(s, key, value, Rotated(p.parent, auth, p.seenAt))
      case UpdateStatusList(key, value) => Commit(s, key, value, Issued)
      case Remove(key, _, _) => s.(d := s.d - {key})
  }

  /** The answer accepts this record for this key. */
  predicate Accepts(cf: Config, answers: seq<Cache.Answer>, i: nat, key: Bytes, value: Bytes) {
    i < |answers| && answers[i] == Cache.Answer(CheckOf(cf, key, value), true)
  }

  /** The effect of an action, before the clock of the history moves on. */
  function Effect(cf: Config, s: State, a: Action): State {
    match a
    case Check(a) => s.(checks := Cache.Step(cf.checks, s.checks, a))
    case Store(key, value, i) =>
      if i in s.used || !Accepts(cf, s.checks.answers, i, key, value) then s
      else
        var s' := s.(used := s.used + {i});
        if LazyGet(s.d, key, cf.life, s.now).None? then Commit(s', key, value, Stored(i, |s.past|)) else s'
    case Begin(h, req) =>
      var v := LazyGet(s.d, req.key, cf.life, s.now);
      if h in s.pend || v.None? then s
      else s.(pend := s.pend[h := Pending(req, v.value, if req.key in s.at then s.at[req.key] else 0, |s.past|)])
    case Finish(h) =>
      if h !in s.pend then s
      else FinishPending(cf, s, s.pend[h]).(pend := s.pend - {h})
    case Tick(later) => if later > s.now then s.(now := later) else s
  }

  function Step(cf: Config, s: State, a: Action): State {
    Effect(cf, s, a).(past := s.past + [Snapshot(s.d, s.now)])
  }

  function Start(): State {
    State(map[], 0, map[], Cache.State(map[], map[], []), {}, [], map[], [])
  }

  function Run(cf: Config, acts: seq<Action>): State {
    if acts == [] then Start() else Step(cf, Run(cf, acts[..|acts| - 1]), acts[|acts| - 1])
  }

  // ---------- Provenance

  /** At the moment `i` of the history the key held this live value, or none. */
  predicate Held(past: seq<Snapshot>, i: nat, key: Bytes, v: Option<Bytes>, life: Option<nat>) {
    i < |past| && LazyGet(past[i].d, key, life, past[i].now) == v
  }

  /** Write `i` is justified: a store with an accepting answer onto an absent or expired key, a rotation
      authorised by a value that an earlier write put at the same key and that was live there, or an
      issuer's record. */
  predicate Justified(cf: Config, log: seq<Write>, answers: seq<Cache.Answer>, past: seq<Snapshot>, i: nat)
    requires i < |log|
  {
    var w := log[i];
    match w.origin
    case Stored(answer, seenAt) => Accepts(cf, answers, answer, w.key, w.value) && Held(past, seenAt, w.key, None, cf.life)
    case Rotated(parent, auth, seenAt) =>
      && parent < i && log[parent].key == w.key
      && Auth.Accepted(Auth.KeyRotation(cf.Crypto(), w.value, log[parent].value, auth))
      && Held(past, seenAt, w.key, Some(log[parent].value), cf.life)
    case Issued => Auth.Accepted(Auth.IssuerSigned(cf.Crypto(), w.value))
  }

  ghost predicate AllJustified(cf: Config, log: seq<Write>, answers: seq<Cache.Answer>, past: seq<Snapshot>) {
    forall i | 0 <= i < |log| :: Justified(cf, log, answers, past, i)
  }

  /** Every stored value is the value of a logged write at its key. */
  ghost predicate Traced(d: Data, log: seq<Write>, at: map<Bytes, nat>) {
    forall k | k in d :: k in at && at[k] < |log| && log[at[k]].key == k && log[at[k]].value == d[k].value
  }

  /** `at` points to the last write at each key. */
  ghost predicate Latest(log: seq<Write>, at: map<Bytes, nat>) {
    && (forall k | k in at :: at[k] < |log| && log[at[k]].key == k)
    && (forall i | 0 <= i < |log| :: log[i].key in at && i <= at[log[i].key])
  }

  /** A running handler has read a live value that a logged write put there. */
  predicate Reading(cf: Config, p: Pending, log: seq<Write>, past: seq<Snapshot>) {
    && p.parent < |log| && log[p.parent].key == p.req.key && log[p.parent].value == p.seen
    && Held(past, p.seenAt, p.req.key, Some(p.seen), cf.life)
  }

  ghost predicate AllReading(cf: Config, pend: map<nat, Pending>, log: seq<Write>, past: seq<Snapshot>) {
    forall h | h in pend :: Reading(cf, pend[h], log, past)
  }

  ghost predicate Inv(cf: Config, s: State) {
    && AllJustified(cf, s.log, s.checks.answers, s.past) && Traced(s.d, s.log, s.at) && Latest(s.log, s.at)
    && AllReading(cf, s.pend, s.log, s.past)
  }

  /** History only grows, and what is true of it stays true. */
  lemma HistoryGrows(cf: Config, log: seq<Write>, answers: seq<Cache.Answer>, past: seq<Snapshot>,
                     ws: seq<Write>, more: seq<Cache.Answer>, snaps: seq<Snapshot>, pend: map<nat, Pending>)
    requires AllJustified(cf, log, answers, past) && AllReading(cf, pend, log, past)
    ensures forall i | 0 <= i < |log| :: Justified(cf, log + ws, answers + more, past + snaps, i)
    ensures AllReading(cf, pend, log + ws, past + snaps)
  {
    forall i | 0 <= i < |log| ensures Justified(cf, log + ws, answers + more, past + snaps, i) {
      assert Justified(cf, log, answers, past, i);
    }
  }

  /** Nothing was written: only the history of the store, and perhaps that of the answers, has grown. */
  lemma NothingWritten(cf: Config, s: State, more: seq<Cache.Answer>, snap: Snapshot)
    requires Inv(cf, s)
    ensures AllJustified(cf, s.log, s.checks.answers + more, s.past + [snap])
    ensures AllReading(cf, s.pend, s.log, s.past + [snap])
  {
    HistoryGrows(cf, s.log, s.checks.answers, s.past, [], more, [snap], s.pend);
    assert s.log + [] == s.log;
  }

  lemma CommitTraced(s: State, key: Bytes, value: Bytes, origin: Origin)
    requires Traced(s.d, s.log, s.at) && Latest(s.log, s.at)
    ensures var s' := Commit(s, key, value, origin); Traced(s'.d, s'.log, s'.at) && Latest(s'.log, s'.at)
  {
  }

  /** A justified commit keeps the invariant. */
  lemma CommitKeepsInv(cf: Config, s: State, key: Bytes, value: Bytes, origin: Origin, snap: Snapshot, pend: map<nat, Pending>)
    requires Inv(cf, s) && (forall h | h in pend :: h in s.pend && pend[h] == s.pend[h])
    requires Justified(cf, s.log + [Write(key, value, origin)], s.checks.answers, s.past + [snap], |s.log|)
    ensures Inv(cf, Commit(s, key, value, origin).(past := s.past + [snap], pend := pend))
  {
    HistoryGrows(cf, s.log, s.checks.answers, s.past, [Write(key, value, origin)], [], [snap], s.pend);
    assert s.checks.answers + [] == s.checks.answers;
    CommitTraced(s, key, value, origin);
  }

  lemma CheckKeepsInv(cf: Config, s: State, a: Cache.Action)
    requires Inv(cf, s)
    ensures Inv(cf, Step(cf, s, Check(a)))
  {
    var answers, answers' := s.checks.answers, Cache.Step(cf.checks, s.checks, a).answers;
    assert answers' == answers + answers'[|answers|..];
    NothingWritten(cf, s, answers'[|answers|..], Snapshot(s.d, s.now));
  }

  lemma StoreKeepsInv(cf: Config, s: State, key: Bytes, value: Bytes, i: nat)
    requires Inv(cf, s)
    ensures Inv(cf, Step(cf, s, Store(key, value, i)))
  {
    var snap, s' := Snapshot(s.d, s.now), s.(used := s.used + {i});
    NothingWritten(cf, s, [], snap);
    assert s.checks.answers + [] == s.checks.answers;
    if Accepts(cf, s.checks.answers, i, key, value) && LazyGet(s.d, key, cf.life, s.now).None? {
      assert (s.past + [snap])[|s.past|] == snap;
      CommitKeepsInv(cf, s', key, value, Stored(i, |s.past|), snap, s.pend);
    }
  }

  lemma BeginKeepsInv(cf: Config, s: State, h: nat, req: Request)
    requires Inv(cf, s)
    ensures Inv(cf, Step(cf, s, Begin(h, req)))
  {
    var snap := Snapshot(s.d, s.now);
    NothingWritten(cf, s, [], snap);
    assert s.checks.answers + [] == s.checks.answers;
    assert (s.past + [snap])[|s.past|] == snap;
  }

  lemma FinishKeepsInv(cf: Config, s: State, h: nat)
    requires Inv(cf, s)
    ensures Inv(cf, Step(cf, s, Finish(h)))
  {
    if h in s.pend && RequestOk(cf, s.pend[h]) && !s.pend[h].req.Remove? {
      AcceptedWriteKeepsInv(cf, s, h, s.pend[h]);
    } else {
      NothingWritten(cf, s, [], Snapshot(s.d, s.now));
      assert s.checks.answers + [] == s.checks.answers;
    }
  }

  lemma AcceptedWriteKeepsInv(cf: Config, s: State, h: nat, p: Pending)
    requires Inv(cf, s) && h in s.pend && s.pend[h] == p && RequestOk(cf, p) && !p.req.Remove?
    ensures Inv(cf, Step(cf, s, Finish(h)))
  {
    var snap, rest := Snapshot(s.d, s.now), s.pend - {h};
    var origin := if p.req.Update? then Rotated(p.parent, p.req.auth, p.seenAt) else Issued;
    AcceptedWrite(cf, s, h, p, origin, snap);
    assert Reading(cf, p, s.log, s.past);
    RequestJustified(cf, s, p, origin, snap);
    CommitKeepsInv(cf, s, p.req.key, p.req.value, origin, snap, rest);
  }

  lemma AcceptedWrite(cf: Config, s: State, h: nat, p: Pending, origin: Origin, snap: Snapshot)
    requires h in s.pend && s.pend[h] == p && RequestOk(cf, p) && !p.req.Remove? && snap == Snapshot(s.d, s.now)
    requires origin == if p.req.Update? then Rotated(p.parent, p.req.auth, p.seenAt) else Issued
    ensures Step(cf, s, Finish(h)) == Commit(s, p.req.key, p.req.value, origin).(past := s.past + [snap], pend := s.pend - {h})
  {
  }

  /** An accepted request justifies its write. */
  lemma RequestJustified(cf: Config, s: State, p: Pending, origin: Origin, snap: Snapshot)
    requires Reading(cf, p, s.log, s.past) && RequestOk(cf, p) && !p.req.Remove?
    requires origin == if p.req.Update? then Rotated(p.parent, p.req.auth, p.seenAt) else Issued
    ensures Justified(cf, s.log + [Write(p.req.key, p.req.value, origin)], s.checks.answers, s.past + [snap], |s.log|)
  {
  }

  lemma TickKeepsInv(cf: Config, s: State, later: nat)
    requires Inv(cf, s)
    ensures Inv(cf, Step(cf, s, Tick(later)))
  {
    NothingWritten(cf, s, [], Snapshot(s.d, s.now));
    assert s.checks.answers + [] == s.checks.answers;
  }

  /** In every run, however the handlers interleave, every write is justified and every stored value is
      that of a justified write. */
  lemma {:induction false} Provenance(cf: Config, acts: seq<Action>)
    ensures Inv(cf, Run(cf, acts))
  {
    if acts != [] {
      var front, a := acts[..|acts| - 1], acts[|acts| - 1];
      Provenance(cf, front);
      match a
      case Check(a) => CheckKeepsInv(cf, Run(cf, front), a);
      case Store(key, value, i) => StoreKeepsInv(cf, Run(cf, front), key, value, i);
      case Begin(h, req) => BeginKeepsInv(cf, Run(cf, front), h, req);
      case Finish(h) => FinishKeepsInv(cf, Run(cf, front), h);
      case Tick(later) => TickKeepsInv(cf, Run(cf, front), later);
    }
  }

  // ---------- Nothing changes unaccounted

  /** Handler `h` is a deletion of the key, signed with the key of a value that was live there. */
  predicate Deletes(cf: Config, s: State, h: nat, key: Bytes) {
    && h in s.pend && s.pend[h].req.Remove? && s.pend[h].req.key == key
    && Auth.Accepted(Auth.DeleteSigned(cf.Crypto(), s.pend[h].seen, s.pend[h].req.auth, s.pend[h].req.message))
    && Held(s.past, s.pend[h].seenAt, key, Some(s.pend[h].seen), cf.life)
  }

  /** The last write of `log'` put this record at the key. */
  predicate Wrote(log: seq<Write>, log': seq<Write>, key: Bytes, r: Record) {
    |log'| == |log| + 1 && log'[..|log|] == log && log'[|log|].key == key && log'[|log|].value == r.value
  }

  /** An action that leaves another record at a key has logged it as the last write, stamped with the current
      time. */
  lemma ChangesLogged(cf: Config, s: State, a: Action, key: Bytes)
    requires var s' := Step(cf, s, a); key in s'.d && (key !in s.d || s'.d[key] != s.d[key])
    ensures var s' := Step(cf, s, a); Wrote(s.log, s'.log, key, s'.d[key]) && s'.d[key].inserted == s.now
  {
  }

  /** A record leaves the store exactly when a deletion commits that is signed with the key of a value that
      was live at its key. */
  lemma DeletionsExactly(cf: Config, s: State, a: Action, key: Bytes)
    requires Inv(cf, s) && key in s.d
    ensures key !in Step(cf, s, a).d <==> a.Finish? && Deletes(cf, s, a.h, key)
  {
    if a.Finish? {
      FinishDeletes(cf, s, a.h, key);
    } else {
      OthersKeep(cf, s, a, key);
    }
  }

  lemma OthersKeep(cf: Config, s: State, a: Action, key: Bytes)
    requires key in s.d && !a.Finish?
    ensures key in Step(cf, s, a).d
  {
  }

  lemma FinishDeletes(cf: Config, s: State, h: nat, key: Bytes)
    requires AllReading(cf, s.pend, s.log, s.past) && key in s.d
    ensures key !in Step(cf, s, Finish(h)).d <==> Deletes(cf, s, h, key)
  {
    if h in s.pend {
      assert Reading(cf, s.pend[h], s.log, s.past);
    }
  }

  // ---------- Ancestry

  /** Write `i` is a rotation that the value of the earlier write `p` at the same key authorised. */
  predicate Authorises(cf: Config, log: seq<Write>, p: nat, i: nat) {
    && p < i < |log| && log[p].key == log[i].key && log[i].origin.Rotated? && log[i].origin.parent == p
    && Auth.Accepted(Auth.KeyRotation(cf.Crypto(), log[i].value, log[p].value, log[i].origin.auth))
  }

  /** Write `i` needed no earlier value: an accepted store or an issuer's record. */
  predicate Rooted(cf: Config, log: seq<Write>, answers: seq<Cache.Answer>, i: nat) {
    && i < |log|
    && if log[i].origin.Issued? then Auth.Accepted(Auth.IssuerSigned(cf.Crypto(), log[i].value))
       else log[i].origin.Stored? && Accepts(cf, answers, log[i].origin.answer, log[i].key, log[i].value)
  }

  /** Each write is authorised by the next, and the last one is rooted. */
  ghost predicate IsAncestry(cf: Config, log: seq<Write>, answers: seq<Cache.Answer>, chain: seq<nat>) {
    && chain != []
    && (forall j | 0 <= j < |chain| - 1 :: Authorises(cf, log, chain[j + 1], chain[j]))
    && Rooted(cf, log, answers, chain[|chain| - 1])
  }

  /** Every write has a finite ancestry, all of it at the write's own key. */
  lemma {:induction false} AncestryEnds(cf: Config, log: seq<Write>, answers: seq<Cache.Answer>, past: seq<Snapshot>, i: nat)
    returns (chain: seq<nat>)
    requires AllJustified(cf, log, answers, past) && i < |log|
    ensures IsAncestry(cf, log, answers, chain) && chain[0] == i
    ensures forall j | 0 <= j < |chain| :: chain[j] < |log| && log[chain[j]].key == log[i].key
    decreases i
  {
    assert Justified(cf, log, answers, past, i);
    if log[i].origin.Rotated? {
      var rest := AncestryEnds(cf, log, answers, past, log[i].origin.parent);
      chain := [i] + rest;
      assert Authorises(cf, log, rest[0], i);
    } else {
      chain := [i];
    }
  }

  /** In every run, every stored value has an ancestry at its key. */
  lemma StoredHasAncestry(cf: Config, acts: seq<Action>, key: Bytes) returns (chain: seq<nat>)
    requires key in Run(cf, acts).d
    ensures var s := Run(cf, acts);
      && IsAncestry(cf, s.log, s.checks.answers, chain) && chain[0] < |s.log|
      && s.log[chain[0]].key == key && s.log[chain[0]].value == s.d[key].value
      && forall j | 0 <= j < |chain| :: chain[j] < |s.log| && s.log[chain[j]].key == key
  {
    Provenance(cf, acts);
    var s := Run(cf, acts);
    chain := AncestryEnds(cf, s.log, s.checks.answers, s.past, s.at[key]);
  }

  // ---------- Which update replaces the value that authorised it

  /** The step from `s1` to `s2` replaced the value at the key by the requested one, and the replaced value
      is the one that authorised it. */
  predicate ReplacesAuthoriser(s1: State, s2: State, p: Pending)
    requires p.req.Update?
  {
    && |s2.log| == |s1.log| + 1
    && var w := s2.log[|s1.log|];
    && w.key == p.req.key && w.value == p.req.value
    && p.req.key in s2.d && s2.d[p.req.key].value == p.req.value
    && p.req.key in s1.d && p.req.key in s1.at && w.origin.Rotated? && w.origin.parent == s1.at[p.req.key]
    && s1.d[p.req.key].value == p.seen
  }

  /** Nobody has written at the key since the value was written that the handler read. */
  ghost predicate NotOverwritten(log: seq<Write>, p: Pending) {
    forall i | p.parent < i < |log| :: log[i].key != p.req.key
  }

  /** In every run, the commit of an accepted update replaces the value that authorised it if and only if the
      record is still there and nobody has written at its key since the value that the handler read. */
  lemma ReplacesExactly(cf: Config, acts: seq<Action>, h: nat)
    requires var s := Run(cf, acts); h in s.pend && s.pend[h].req.Update? && RequestOk(cf, s.pend[h])
    ensures var s := Run(cf, acts);
      ReplacesAuthoriser(s, Step(cf, s, Finish(h)), s.pend[h]) <==>
        s.pend[h].req.key in s.d && NotOverwritten(s.log, s.pend[h])
  {
    var s := Run(cf, acts);
    Provenance(cf, acts);
    assert Reading(cf, s.pend[h], s.log, s.past);
    ReplacesInv(cf, s, h);
  }

  lemma ReplacesInv(cf: Config, s: State, h: nat)
    requires Inv(cf, s) && h in s.pend && s.pend[h].req.Update? && RequestOk(cf, s.pend[h])
    requires Reading(cf, s.pend[h], s.log, s.past)
    ensures ReplacesAuthoriser(s, Step(cf, s, Finish(h)), s.pend[h]) <==>
            s.pend[h].req.key in s.d && NotOverwritten(s.log, s.pend[h])
  {
    var p := s.pend[h];
    var key := p.req.key;
    assert key in s.at && p.parent <= s.at[key];
    assert s.at[key] < |s.log| && s.log[s.at[key]].key == key;
    assert NotOverwritten(s.log, p) <==> p.parent == s.at[key];
  }

  /** The action writes at the key, removes the record there, or finishes the handler. */
  predicate Disturbs(cf: Config, s: State, a: Action, key: Bytes, h: nat) {
    var s' := Step(cf, s, a);
    a == Finish(h) || (key in s.d && key !in s'.d) || (|s.log| < |s'.log| && s'.log[|s.log|].key == key)
  }

  function RunFrom(cf: Config, s: State, acts: seq<Action>): State
    decreases |acts|
  {
    if acts == [] then s else RunFrom(cf, Step(cf, s, acts[0]), acts[1..])
  }

  /** None of the actions disturbs the handler at its key. */
  ghost predicate Quiet(cf: Config, s: State, acts: seq<Action>, key: Bytes, h: nat)
    decreases |acts|
  {
    acts != [] ==> !Disturbs(cf, s, acts[0], key, h) && Quiet(cf, Step(cf, s, acts[0]), acts[1..], key, h)
  }

  /** The handler waits, and what it read is what is stored. */
  predicate Undisturbed(s: State, h: nat, p: Pending) {
    && h in s.pend && s.pend[h] == p
    && p.req.key in s.d && s.d[p.req.key].value == p.seen && p.req.key in s.at && s.at[p.req.key] == p.parent
  }

  lemma QuietStep(cf: Config, s: State, a: Action, h: nat, p: Pending)
    requires Undisturbed(s, h, p) && !Disturbs(cf, s, a, p.req.key, h)
    ensures Undisturbed(Step(cf, s, a), h, p)
  {
  }

  lemma {:induction false} QuietKeeps(cf: Config, s: State, acts: seq<Action>, h: nat, p: Pending)
    requires Undisturbed(s, h, p) && Quiet(cf, s, acts, p.req.key, h)
    ensures Undisturbed(RunFrom(cf, s, acts), h, p)
    decreases |acts|
  {
    if acts != [] {
      QuietStep(cf, s, acts[0], h, p);
      QuietKeeps(cf, Step(cf, s, acts[0]), acts[1..], h, p);
    }
  }

  /** In particular, an accepted update replaces the value that authorised it when nobody writes or removes
      the record between its read and its commit; refused requests do not matter. */
  lemma NoOverlapReplacesAuthoriser(cf: Config, s: State, h: nat, req: Request, acts: seq<Action>)
    requires Inv(cf, s) && req.Update? && h !in s.pend && LazyGet(s.d, req.key, cf.life, s.now).Some?
    requires var s0 := Step(cf, s, Begin(h, req)); Quiet(cf, s0, acts, req.key, h) && RequestOk(cf, s0.pend[h])
    ensures var s0 := Step(cf, s, Begin(h, req));
      var s1 := RunFrom(cf, s0, acts);
      ReplacesAuthoriser(s1, Step(cf, s1, Finish(h)), s0.pend[h])
  {
    var s0 := Step(cf, s, Begin(h, req));
    assert Undisturbed(s0, h, s0.pend[h]);
    QuietKeeps(cf, s0, acts, h, s0.pend[h]);
  }

  lemma RunSnoc(cf: Config, acts: seq<Action>, a: Action)
    ensures Run(cf, acts + [a]) == Step(cf, Run(cf, acts), a)
  {
    assert (acts + [a])[..|acts|] == acts;
  }

  /** Two accepted updates of one key are between read and commit, and both read the same value. */
  predicate Overlap(cf: Config, s: State, h1: nat, h2: nat) {
    && h1 != h2 && h1 in s.pend && h2 in s.pend
    && s.pend[h1].req.Update? && s.pend[h2].req.Update? && s.pend[h1].req.key == s.pend[h2].req.key
    && s.pend[h1].seen == s.pend[h2].seen && s.pend[h1].req.value != s.pend[h1].seen
    && RequestOk(cf, s.pend[h1]) && RequestOk(cf, s.pend[h2])
  }

  /** Overlapping updates fork: both are signed against the value they read, and the later commit replaces
      the value of the earlier one, which did not authorise it. */
  lemma OverlapForks(cf: Config, s: State, h1: nat, h2: nat)
    requires Inv(cf, s) && Overlap(cf, s, h1, h2)
    ensures var key := s.pend[h1].req.key;
      var s1 := Step(cf, s, Finish(h1));
      var s2 := Step(cf, s1, Finish(h2));
      && |s2.log| == |s1.log| + 1 && s2.log[|s1.log|].origin.Rotated?
      && var p := s2.log[|s1.log|].origin.parent;
      && p < |s2.log| && s2.log[p].value == s.pend[h1].seen
      && key in s1.d && s1.d[key].value != s.pend[h1].seen
      && key in s2.d && s2.d[key].value == s.pend[h2].req.value
  {
    var p1, p2, s1 := s.pend[h1], s.pend[h2], Step(cf, s, Finish(h1));
    assert Reading(cf, p2, s.log, s.past);
    AcceptedWrite(cf, s, h1, p1, Rotated(p1.parent, p1.req.auth, p1.seenAt), Snapshot(s.d, s.now));
    AcceptedWrite(cf, s1, h2, p2, Rotated(p2.parent, p2.req.auth, p2.seenAt), Snapshot(s1.d, s1.now));
  }

  /** A checked store into an empty table. */
  lemma FreshStore(cf: Config, key: Bytes, v: Bytes) returns (acts: seq<Action>)
    requires StoreOk(cf, key, v)
    ensures var s := Run(cf, acts);
      s.d == map[key := Record(v, 0)] && s.now == 0 && s.pend == map[] && key in s.at && s.at[key] == 0
  {
    var q := CheckOf(cf, key, v);
    var a0 := [] + [Check(Cache.Look(0, q))];
    var a1 := a0 + [Check(Cache.Finish(0))];
    assert Run(cf, []) == Start();
    RunSnoc(cf, [], Check(Cache.Look(0, q)));
    FreshLook(cf, q);
    RunSnoc(cf, a0, Check(Cache.Finish(0)));
    FreshVerdict(cf, key, v, Run(cf, a0));
    RunSnoc(cf, a1, Store(key, v, 0));
    FreshWrite(cf, key, v, Run(cf, a1));
    acts := a1 + [Store(key, v, 0)];
  }

  /** Nothing is stored and no handler is running. */
  ghost predicate Untouched(s: State) {
    s.d == map[] && s.now == 0 && s.pend == map[] && s.used == {} && s.log == [] && s.at == map[]
  }

  lemma FreshLook(cf: Config, q: Cache.Check)
    ensures var s := Step(cf, Start(), Check(Cache.Look(0, q)));
      Untouched(s) && s.checks == Cache.State(map[], map[0 := q], [])
  {
  }

  lemma FreshVerdict(cf: Config, key: Bytes, v: Bytes, s: State)
    requires StoreOk(cf, key, v) && Untouched(s) && s.checks == Cache.State(map[], map[0 := CheckOf(cf, key, v)], [])
    ensures var s' := Step(cf, s, Check(Cache.Finish(0))); Untouched(s') && Accepts(cf, s'.checks.answers, 0, key, v)
  {
  }

  lemma FreshWrite(cf: Config, key: Bytes, v: Bytes, s: State)
    requires Untouched(s) && Accepts(cf, s.checks.answers, 0, key, v)
    ensures var s' := Step(cf, s, Store(key, v, 0));
      s'.d == map[key := Record(v, 0)] && s'.now == 0 && s'.pend == map[] && key in s'.at && s'.at[key] == 0
  {
  }

  /** A store and two reads reach an overlap. */
  lemma OverlapReachable(cf: Config, key: Bytes, v0: Bytes, u1: Request, u2: Request) returns (acts: seq<Action>)
    requires StoreOk(cf, key, v0) && u1.Update? && u2.Update? && u1.key == u2.key == key && u1.value != v0
    requires Auth.Accepted(Auth.KeyRotation(cf.Crypto(), u1.value, v0, u1.auth))
    requires Auth.Accepted(Auth.KeyRotation(cf.Crypto(), u2.value, v0, u2.auth))
    ensures Overlap(cf, Run(cf, acts), 1, 2)
  {
    acts := FreshStore(cf, key, v0);
    RunSnoc(cf, acts, Begin(1, u1));
    acts := acts + [Begin(1, u1)];
    RunSnoc(cf, acts, Begin(2, u2));
    acts := acts + [Begin(2, u2)];
  }
}

/** The cache of signature verdicts, which a node may run without. A check looks into the cache, and on a
    miss verifies without holding anything and then remembers an acceptance. The cache key is a hash of the
    record bytes alone. */
module Cache {
  import opened Nodes
  import Auth

  /** A check of record bytes, in issuer mode or as a self-signed record. */
  datatype Check = Check(issuer: bool, value: Bytes)

  /** The uncached verdict; errors count as refusals. */
  predicate Verdict(c: Auth.Crypto, q: Check) {
    Auth.Accepted(if q.issuer then Auth.IssuerSigned(c, q.value) else Auth.SelfSigned(c, q.value))
  }

  datatype Answer = Answer(check: Check, verdict: bool)

  /** The cache, the checks that missed and are being verified, and all answers so far. */
  datatype State = State(cache: map<Bytes, bool>, pend: map<nat, Check>, answers: seq<Answer>)

  datatype Action =
    | Look(h: nat, check: Check)
    | Finish(h: nat)
    | Evict(keys: set<Bytes>)

  /** What stays fixed: the verifiers with the issuer's key, the hash, and whether there is a cache. */
  datatype Config = Config(c: Auth.Crypto, hash: Bytes -> Bytes, on: bool)

  function Step(cf: Config, s: State, a: Action): State {
    match a
    case Look(h, q) =>
      if h in s.pend then s
      else if cf.on && cf.hash(q.value) in s.cache then s.(answers := s.answers + [Answer(q, s.cache[cf.hash(q.value)])])
      else s.(pend := s.pend[h := q])
    case Finish(h) =>
      if h !in s.pend then s
      else
        var q, ok := s.pend[h], Verdict(cf.c, s.pend[h]);
        State(if ok && cf.on then s.cache[cf.hash(q.value) := true] else s.cache, s.pend - {h}, s.answers + [Answer(q, ok)])
    case Evict(keys) => s.(cache := s.cache - keys)
  }

  function Run(cf: Config, acts: seq<Action>): State {
    if acts == [] then State(map[], map[], []) else Step(cf, Run(cf, acts[..|acts| - 1]), acts[|acts| - 1])
  }

  /** Different records have different hashes. */
  ghost predicate CollisionFree(hash: Bytes -> Bytes) {
    forall a, b :: hash(a) == hash(b) ==> a == b
  }

  /** The run asks only what `asked` allows. */
  ghost predicate Within(acts: seq<Action>, asked: Check -> bool) {
    forall i | 0 <= i < |acts| && acts[i].Look? :: asked(acts[i].check)
  }

  /** Every answer is the verdict without a cache. */
  ghost predicate AnswersTrue(cf: Config, s: State) {
    forall i | 0 <= i < |s.answers| :: s.answers[i].verdict == Verdict(cf.c, s.answers[i].check)
  }

  /** No record is asked in both modes and accepted in exactly one. */
  ghost predicate NoConflict(c: Auth.Crypto, asked: Check -> bool) {
    forall v :: asked(Check(true, v)) && asked(Check(false, v)) ==> Verdict(c, Check(true, v)) == Verdict(c, Check(false, v))
  }

  /** A remembered hash belongs to a record that an allowed check accepted. */
  ghost predicate Earned(cf: Config, asked: Check -> bool, key: Bytes) {
    exists q: Check :: asked(q) && Verdict(cf.c, q) && cf.hash(q.value) == key
  }

  ghost predicate Inv(cf: Config, asked: Check -> bool, s: State) {
    && (forall key | key in s.cache :: s.cache[key] && Earned(cf, asked, key))
    && (forall h | h in s.pend :: asked(s.pend[h]))
    && AnswersTrue(cf, s)
  }

  /** A hit on an allowed check tells the truth. */
  lemma HitIsTrue(cf: Config, asked: Check -> bool, q: Check)
    requires CollisionFree(cf.hash) && NoConflict(cf.c, asked) && asked(q) && Earned(cf, asked, cf.hash(q.value))
    ensures Verdict(cf.c, q)
  {
    var p: Check :| asked(p) && Verdict(cf.c, p) && cf.hash(p.value) == cf.hash(q.value);
    assert p.value == q.value;
    assert p == q || (Check(true, q.value) in {p, q} && Check(false, q.value) in {p, q});
  }

  lemma StepKeepsInv(cf: Config, asked: Check -> bool, s: State, a: Action)
    requires CollisionFree(cf.hash) && (cf.on ==> NoConflict(cf.c, asked)) && Inv(cf, asked, s)
    requires a.Look? ==> asked(a.check)
    ensures Inv(cf, asked, Step(cf, s, a))
  {
    match a
    case Look(h, q) =>
      if h !in s.pend && cf.on && cf.hash(q.value) in s.cache {
        HitIsTrue(cf, asked, q);
      }
    case Finish(h) =>
      if h in s.pend && Verdict(cf.c, s.pend[h]) {
        assert Earned(cf, asked, cf.hash(s.pend[h].value));
      }
    case Evict(keys) =>
  }

  lemma {:induction false} RunKeepsInv(cf: Config, asked: Check -> bool, acts: seq<Action>)
    requires CollisionFree(cf.hash) && (cf.on ==> NoConflict(cf.c, asked)) && Within(acts, asked)
    ensures Inv(cf, asked, Run(cf, acts))
  {
    if acts != [] {
      var front := acts[..|acts| - 1];
      assert Within(front, asked);
      RunKeepsInv(cf, asked, front);
      StepKeepsInv(cf, asked, Run(cf, front), acts[|acts| - 1]);
    }
  }

  lemma RunSnoc(cf: Config, acts: seq<Action>, a: Action)
    ensures Run(cf, acts + [a]) == Step(cf, Run(cf, acts), a)
  {
    assert (acts + [a])[..|acts|] == acts;
  }

  lemma WithinSnoc(acts: seq<Action>, a: Action, asked: Check -> bool)
    requires Within(acts, asked) && (a.Look? ==> asked(a.check))
    ensures Within(acts + [a], asked)
  {
  }

  /** Once accepted in one mode, a record is accepted in the other one too, whatever its verdict there. */
  lemma ConflictShows(cf: Config, p: Check, q: Check, asked: Check -> bool) returns (acts: seq<Action>)
    requires cf.on && p.value == q.value && Verdict(cf.c, p) && !Verdict(cf.c, q) && asked(p) && asked(q)
    ensures Within(acts, asked) && !AnswersTrue(cf, Run(cf, acts))
  {
    var a: seq<Action> := [];
    RunSnoc(cf, a, Look(0, p));
    WithinSnoc(a, Look(0, p), asked);
    var b := a + [Look(0, p)];
    RunSnoc(cf, b, Finish(0));
    WithinSnoc(b, Finish(0), asked);
    var c := b + [Finish(0)];
    RunSnoc(cf, c, Look(1, q));
    WithinSnoc(c, Look(1, q), asked);
    acts := c + [Look(1, q)];
    Falsified(cf, Run(cf, c), q);
  }

  /** A hit on a refused record is a wrong answer. */
  lemma Falsified(cf: Config, s: State, q: Check)
    requires cf.on && s.pend == map[] && cf.hash(q.value) in s.cache && s.cache[cf.hash(q.value)] && !Verdict(cf.c, q)
    ensures !AnswersTrue(cf, Step(cf, s, Look(1, q)))
  {
    var s' := Step(cf, s, Look(1, q));
    assert s'.answers[|s.answers|] == Answer(q, true);
  }

  /** Over every run with any interleaving and eviction, the answers are the uncached verdicts exactly when
      there is no cache or no record is asked in both modes and accepted in only one. */
  lemma CacheTransparent(cf: Config, asked: Check -> bool)
    requires CollisionFree(cf.hash)
    ensures !cf.on || NoConflict(cf.c, asked) <==> forall acts | Within(acts, asked) :: AnswersTrue(cf, Run(cf, acts))
  {
    if !cf.on || NoConflict(cf.c, asked) {
      forall acts | Within(acts, asked) ensures AnswersTrue(cf, Run(cf, acts)) {
        RunKeepsInv(cf, asked, acts);
      }
    } else {
      var v :| asked(Check(true, v)) && asked(Check(false, v)) && Verdict(cf.c, Check(true, v)) != Verdict(cf.c, Check(false, v));
      var good := Verdict(cf.c, Check(true, v));
      var acts := ConflictShows(cf, Check(good, v), Check(!good, v), asked);
    }
  }

  /** In particular, nothing goes wrong when each record is only ever asked in one mode. */
  lemma OneModeTransparent(cf: Config, asked: Check -> bool, acts: seq<Action>)
    requires CollisionFree(cf.hash) && Within(acts, asked)
    requires forall v :: !(asked(Check(true, v)) && asked(Check(false, v)))
    ensures AnswersTrue(cf, Run(cf, acts))
  {
    RunKeepsInv(cf, asked, acts);
  }

  // ---------- Where an acceptance comes from

  /** An answer up to `i` is the acceptance, by a real verification, of the bytes asked in answer `i`. */
  ghost predicate GroundedAt(c: Auth.Crypto, answers: seq<Answer>, i: nat)
    requires i < |answers|
  {
    exists j :: 0 <= j <= i && Verdict(c, answers[j].check) && answers[j].check.value == answers[i].check.value
  }

  ghost predicate Grounded(c: Auth.Crypto, answers: seq<Answer>) {
    forall i | 0 <= i < |answers| && answers[i].verdict :: GroundedAt(c, answers, i)
  }

  /** A remembered hash is that of a record which some answer accepted by a real verification. */
  ghost predicate Known(cf: Config, answers: seq<Answer>, key: Bytes) {
    exists j :: 0 <= j < |answers| && Verdict(cf.c, answers[j].check) && cf.hash(answers[j].check.value) == key
  }

  ghost predicate AllGrounded(cf: Config, s: State) {
    && Grounded(cf.c, s.answers)
    && forall key | key in s.cache :: Known(cf, s.answers, key)
  }

  lemma MoreAnswers(cf: Config, s: State, a: Answer)
    requires AllGrounded(cf, s)
    ensures forall i | 0 <= i < |s.answers| && s.answers[i].verdict :: GroundedAt(cf.c, s.answers + [a], i)
    ensures forall key | key in s.cache :: Known(cf, s.answers + [a], key)
  {
    var more := s.answers + [a];
    forall i | 0 <= i < |s.answers| && s.answers[i].verdict ensures GroundedAt(cf.c, more, i) {
      var j :| 0 <= j <= i && Verdict(cf.c, s.answers[j].check) && s.answers[j].check.value == s.answers[i].check.value;
      assert more[j] == s.answers[j];
    }
    forall key | key in s.cache ensures Known(cf, more, key) {
      var j :| 0 <= j < |s.answers| && Verdict(cf.c, s.answers[j].check) && cf.hash(s.answers[j].check.value) == key;
      assert more[j] == s.answers[j];
    }
  }

  /** With the cache or without, in whatever mode it was asked, an accepted record has been accepted by a real
      verification of the same bytes before or now. */
  lemma StepGrounded(cf: Config, s: State, a: Action)
    requires CollisionFree(cf.hash) && AllGrounded(cf, s)
    ensures AllGrounded(cf, Step(cf, s, a))
  {
    match a
    case Look(h, q) =>
      if h !in s.pend && cf.on && cf.hash(q.value) in s.cache {
        var answer := Answer(q, s.cache[cf.hash(q.value)]);
        MoreAnswers(cf, s, answer);
        assert Known(cf, s.answers, cf.hash(q.value));
        var j :| 0 <= j < |s.answers| && Verdict(cf.c, s.answers[j].check) && cf.hash(s.answers[j].check.value) == cf.hash(q.value);
        assert (s.answers + [answer])[j] == s.answers[j];
        assert GroundedAt(cf.c, s.answers + [answer], |s.answers|);
      }
    case Finish(h) =>
      if h in s.pend {
        var q := s.pend[h];
        var answer := Answer(q, Verdict(cf.c, q));
        MoreAnswers(cf, s, answer);
        assert (s.answers + [answer])[|s.answers|] == answer;
        if answer.verdict {
          assert GroundedAt(cf.c, s.answers + [answer], |s.answers|);
          assert Known(cf, s.answers + [answer], cf.hash(q.value));
        }
      }
    case Evict(keys) =>
  }

  // ---------- The check of the program, when nothing else runs in between

  /** The cache afterwards and the answer. */
  function CheckNow(cf: Config, cache: map<Bytes, bool>, q: Check): (map<Bytes, bool>, bool) {
    var key, ok := cf.hash(q.value), Verdict(cf.c, q);
    if cf.on && key in cache then (cache, cache[key])
    else (if ok && cf.on then cache[key := true] else cache, ok)
  }

  /** It is a look and, on a miss, a finish, with no step in between. */
  lemma CheckNowIsSteps(cf: Config, s: State, h: nat, q: Check)
    requires h !in s.pend
    ensures var (cache, verdict) := CheckNow(cf, s.cache, q);
      Step(cf, Step(cf, s, Look(h, q)), Finish(h)) == State(cache, s.pend, s.answers + [Answer(q, verdict)])
  {
    assert s.pend[h := q] - {h} == s.pend;
  }

  class SignatureCache {
    var cache: map<Bytes, bool>
    const cf: Config

    constructor (cf: Config)
      ensures cache == map[] && this.cf == cf
    {
      this.cf := cf;
      cache := map[];
    }

    method VerifyForKey(issuer: bool, value: Bytes) returns (result: bool)
      modifies this
      ensures (cache, result) == CheckNow(cf, old(cache), Check(issuer, value))
    {
      var key := cf.hash(value);
      if cf.on && key in cache {
        return cache[key];
      }
      var verdict := if issuer then Auth.IssuerSigned(cf.c, value) else Auth.SelfSigned(cf.c, value);
      result := verdict == Some(true);
      if result && cf.on {
        cache := cache[key := result];
      }
    }
  }
}

/** What the verdict cache does to stores. The cache forgets in which mode a record was accepted, so a record
    may be stored at a key whose own mode refuses it; this is exactly when that can happen. */
module CachedStores {
  import opened Nodes
  import opened Records
  import Auth
  import Cache

  /** The answers of every run are grounded, and each stored root was accepted, in some mode, by a real
      verification of the same bytes. */
  lemma {:induction false} ChecksGrounded(cf: Config, acts: seq<Action>)
    requires Cache.CollisionFree(cf.checks.hash)
    ensures Cache.AllGrounded(cf.checks, Run(cf, acts).checks)
  {
    if acts != [] {
      ChecksGrounded(cf, acts[..|acts| - 1]);
      var a := acts[|acts| - 1];
      if a.Check? {
        Cache.StepGrounded(cf.checks, Run(cf, acts[..|acts| - 1]).checks, a.a);
      }
    }
  }

  /** The verifier accepts the signature in the record over the document in it, under the key in that document or
      under the issuer's key. */
  ghost predicate Signed(c: Auth.Crypto, value: Bytes) {
    exists p: Auth.Parts ::
      && Auth.Laid(c, value, p)
      && (Auth.Verifies(c, p.alg, c.keyOf(p.data), p.signature, p.data) || Auth.Verifies(c, p.alg, c.issuerKey, p.signature, p.data))
  }

  lemma SignedIfAccepted(c: Auth.Crypto, value: Bytes)
    ensures Signed(c, value) <==> Auth.Accepted(Auth.SelfSigned(c, value)) || Auth.Accepted(Auth.IssuerSigned(c, value))
  {
    Auth.SelfSignedExactly(c, value);
    Auth.IssuerSignedExactly(c, value);
  }

  /** A write by a store was accepted by a check up to the one it used, in some mode, of the same bytes. */
  lemma RootVerified(cf: Config, acts: seq<Action>, i: nat) returns (j: nat)
    requires Cache.CollisionFree(cf.checks.hash)
    requires i < |Run(cf, acts).log| && Run(cf, acts).log[i].origin.Stored?
    ensures var s := Run(cf, acts);
      && j <= s.log[i].origin.answer < |s.checks.answers|
      && s.checks.answers[j].check.value == s.log[i].value && Cache.Verdict(cf.Crypto(), s.checks.answers[j].check)
  {
    var s := Run(cf, acts);
    Provenance(cf, acts);
    ChecksGrounded(cf, acts);
    assert Justified(cf, s.log, s.checks.answers, s.past, i);
    var answers, n := s.checks.answers, s.log[i].origin.answer;
    assert Cache.GroundedAt(cf.Crypto(), answers, n);
    j :| 0 <= j <= n && Cache.Verdict(cf.Crypto(), answers[j].check) && answers[j].check.value == answers[n].check.value;
  }

  /** In every run, with the cache or without, everything stored carries a signature over its document that the
      verifier accepts, under the key in that document or under the issuer's key. */
  lemma StoredIsSigned(cf: Config, acts: seq<Action>, key: Bytes)
    requires Cache.CollisionFree(cf.checks.hash) && key in Run(cf, acts).d
    ensures Signed(cf.Crypto(), Run(cf, acts).d[key].value)
  {
    var s := Run(cf, acts);
    Provenance(cf, acts);
    var i := s.at[key];
    assert Justified(cf, s.log, s.checks.answers, s.past, i);
    SignedIfAccepted(cf.Crypto(), s.log[i].value);
    match s.log[i].origin
    case Stored(_, _) =>
      var j := RootVerified(cf, acts, i);
    case Rotated(parent, auth, _) =>
      Auth.RotationNeedsBoth(cf.Crypto(), s.log[i].value, s.log[parent].value, auth);
    case Issued =>
  }

  // ---------- The mode of the key

  /** The run asks only checks that `asked` allows. */
  ghost predicate Within(acts: seq<Action>, asked: Cache.Check -> bool) {
    forall i | 0 <= i < |acts| && acts[i].Check? && acts[i].a.Look? :: asked(acts[i].a.check)
  }

  /** Every store wrote a record that verifies in the mode of its key. */
  ghost predicate OwnMode(cf: Config, s: State) {
    forall i | 0 <= i < |s.log| && s.log[i].origin.Stored? :: StoreOk(cf, s.log[i].key, s.log[i].value)
  }

  lemma {:induction false} AnswersKeepInv(cf: Config, acts: seq<Action>, asked: Cache.Check -> bool)
    requires Cache.CollisionFree(cf.checks.hash) && (cf.checks.on ==> Cache.NoConflict(cf.Crypto(), asked))
    requires Within(acts, asked)
    ensures Cache.Inv(cf.checks, asked, Run(cf, acts).checks)
  {
    if acts != [] {
      var front, a := acts[..|acts| - 1], acts[|acts| - 1];
      assert Within(front, asked);
      AnswersKeepInv(cf, front, asked);
      if a.Check? {
        Cache.StepKeepsInv(cf.checks, asked, Run(cf, front).checks, a.a);
      }
    }
  }

  /** Without a cache, or without a record on which the modes disagree, every store is verified in the mode of
      its key. */
  lemma OwnModeKept(cf: Config, acts: seq<Action>, asked: Cache.Check -> bool)
    requires Cache.CollisionFree(cf.checks.hash) && (cf.checks.on ==> Cache.NoConflict(cf.Crypto(), asked))
    requires Within(acts, asked)
    ensures OwnMode(cf, Run(cf, acts))
  {
    var s := Run(cf, acts);
    Provenance(cf, acts);
    AnswersKeepInv(cf, acts, asked);
    forall i | 0 <= i < |s.log| && s.log[i].origin.Stored? ensures StoreOk(cf, s.log[i].key, s.log[i].value) {
      assert Justified(cf, s.log, s.checks.answers, s.past, i);
      var n := s.log[i].origin.answer;
      assert s.checks.answers[n].verdict == Cache.Verdict(cf.Crypto(), s.checks.answers[n].check);
    }
  }

  lemma WithinSnoc(acts: seq<Action>, a: Action, asked: Cache.Check -> bool)
    requires Within(acts, asked) && (a.Check? && a.a.Look? ==> asked(a.a.check))
    ensures Within(acts + [a], asked)
  {
  }

  /** A check in one mode, accepted and remembered, and then a check of the same bytes in the other. */
  lemma CheckedTwice(cf: Config, p: Cache.Check, q: Cache.Check, asked: Cache.Check -> bool) returns (acts: seq<Action>)
    requires cf.checks.on && p.value == q.value && Cache.Verdict(cf.Crypto(), p) && asked(p) && asked(q)
    ensures Within(acts, asked)
    ensures var s := Run(cf, acts);
      && s.d == map[] && s.used == {} && s.log == [] && s.now == 0
      && |s.checks.answers| == 2 && s.checks.answers[1] == Cache.Answer(q, true)
  {
    var look, finish, again := Check(Cache.Look(0, p)), Check(Cache.Finish(0)), Check(Cache.Look(1, q));
    RunSnoc(cf, [], look);
    WithinSnoc([], look, asked);
    var a := [] + [look];
    RunSnoc(cf, a, finish);
    WithinSnoc(a, finish, asked);
    var b := a + [finish];
    assert Run(cf, b).checks == Cache.State(map[cf.checks.hash(p.value) := true], map[], [Cache.Answer(p, true)]);
    RunSnoc(cf, b, again);
    WithinSnoc(b, again, asked);
    acts := b + [again];
  }

  /** A record accepted in one mode is then stored at a key of the other mode, whatever its verdict there. */
  lemma StoredInOtherMode(cf: Config, p: Cache.Check, key: Bytes, asked: Cache.Check -> bool) returns (acts: seq<Action>)
    requires cf.checks.on && Cache.Verdict(cf.Crypto(), p) && asked(p) && asked(CheckOf(cf, key, p.value))
    ensures Within(acts, asked)
    ensures var s := Run(cf, acts);
      && key in s.d && s.d[key].value == p.value
      && |s.log| == 1 && s.log[0].key == key && s.log[0].value == p.value && s.log[0].origin.Stored?
  {
    var before := CheckedTwice(cf, p, CheckOf(cf, key, p.value), asked);
    RunSnoc(cf, before, Store(key, p.value, 1));
    WithinSnoc(before, Store(key, p.value, 1), asked);
    acts := before + [Store(key, p.value, 1)];
  }

  /** Over every run that asks only what `asked` allows, all stores are verified in the mode of their key if and
      only if there is no cache or no record is asked in both modes and accepted in only one. */
  lemma StoresVerifiedExactly(cf: Config, asked: Cache.Check -> bool, other: Bytes)
    requires Cache.CollisionFree(cf.checks.hash) && other != cf.statusKey
    ensures !cf.checks.on || Cache.NoConflict(cf.Crypto(), asked) <==>
            forall acts | Within(acts, asked) :: OwnMode(cf, Run(cf, acts))
  {
    if !cf.checks.on || Cache.NoConflict(cf.Crypto(), asked) {
      forall acts | Within(acts, asked) ensures OwnMode(cf, Run(cf, acts)) {
        OwnModeKept(cf, acts, asked);
      }
    } else {
      var v :| asked(Cache.Check(true, v)) && asked(Cache.Check(false, v)) &&
               Cache.Verdict(cf.Crypto(), Cache.Check(true, v)) != Cache.Verdict(cf.Crypto(), Cache.Check(false, v));
      var good := Cache.Verdict(cf.Crypto(), Cache.Check(true, v));
      var key := if good then other else cf.statusKey;
      var acts := StoredInOtherMode(cf, Cache.Check(good, v), key, asked);
      assert !StoreOk(cf, key, v);
      assert !OwnMode(cf, Run(cf, acts));
    }
  }

  /** A self-signed record that the issuer did not sign ends up at the status key. */
  lemma StatusKeyTaken(cf: Config, v: Bytes) returns (acts: seq<Action>)
    requires cf.checks.on && Auth.Accepted(Auth.SelfSigned(cf.Crypto(), v)) && !Auth.Accepted(Auth.IssuerSigned(cf.Crypto(), v))
    ensures var s := Run(cf, acts);
      cf.statusKey in s.d && s.d[cf.statusKey].value == v && !StoreOk(cf, cf.statusKey, v)
  {
    acts := StoredInOtherMode(cf, Cache.Check(false, v), cf.statusKey, _ => true);
  }
}

/** The two halves of each record handler, over the store of the program. */
module RecordHandlers {
  import opened Nodes
  import opened Storage
  import opened Records
  import Auth
  import Cache

  /** A check without interruption, and then the insertion unless a live record is there. */
  function StoreOnce(cf: Config, s: State, h: nat, key: Bytes, value: Bytes): State {
    var s1 := Effect(cf, Effect(cf, s, Check(Cache.Look(h, CheckOf(cf, key, value)))), Check(Cache.Finish(h)));
    Effect(cf, s1, Store(key, value, |s.checks.answers|))
  }

  /** The store afterwards and whether the record was inserted, when a check with this verdict came before. */
  function InsertedIf(cf: Config, d: Data, now: nat, key: Bytes, value: Bytes, verdict: bool): (Data, bool) {
    if verdict && LazyGet(d, key, cf.life, now).None? then (d[key := Record(value, now)], true) else (d, false)
  }

  /** From any state, the three steps of a store leave the cache as the check does and insert the record exactly
      when the answer, remembered or new, accepts it and no live record is there. */
  lemma StoreOnceIs(cf: Config, s: State, h: nat, key: Bytes, value: Bytes)
    requires h !in s.checks.pend && |s.checks.answers| !in s.used
    ensures var r := StoreOnce(cf, s, h, key, value);
      var (cache, verdict) := Cache.CheckNow(cf.checks, s.checks.cache, CheckOf(cf, key, value));
      && r.now == s.now && r.checks.cache == cache
      && (r.d, |r.log| == |s.log| + 1) == InsertedIf(cf, s.d, s.now, key, value, verdict)
  {
    Cache.CheckNowIsSteps(cf.checks, s.checks, h, CheckOf(cf, key, value));
  }

  // ---------- What the verdicts mean to the foreign verifier

  /** The verifier accepts the signature in the record over its document, under the issuer's key for the status
      list and under the key in the document for any other key. */
  ghost predicate SignedFor(cf: Config, key: Bytes, value: Bytes) {
    exists p: Auth.Parts ::
      && Auth.Laid(cf.Crypto(), value, p)
      && Auth.Verifies(cf.Crypto(), p.alg, if key == cf.statusKey then cf.Crypto().issuerKey else cf.Crypto().keyOf(p.data),
                       p.signature, p.data)
  }

  lemma StoreOkExactly(cf: Config, key: Bytes, value: Bytes)
    ensures StoreOk(cf, key, value) <==> SignedFor(cf, key, value)
  {
    Auth.SelfSignedExactly(cf.Crypto(), value);
    Auth.IssuerSignedExactly(cf.Crypto(), value);
  }

  /** The verifier accepts a signature over the message, under the key in the document of the record. */
  ghost predicate HolderSigned(c: Auth.Crypto, value: Bytes, signature: Bytes, message: Bytes) {
    exists p: Auth.Parts :: Auth.Laid(c, value, p) && Auth.Verifies(c, p.alg, c.keyOf(p.data), signature, message)
  }

  /** What a request needs: an update is signed by the holder of the stored record and carries a signature of its
      own, a status list is signed by the issuer, and a deletion by the holder of the stored record. */
  ghost predicate Authorised(c: Auth.Crypto, req: Request, seen: Bytes) {
    match req
    case Update(_, value, auth) =>
      && HolderSigned(c, seen, auth, value)
      && exists p: Auth.Parts :: Auth.Laid(c, value, p) && Auth.Verifies(c, p.alg, c.keyOf(p.data), p.signature, p.data)
    case UpdateStatusList(_, value) =>
      exists p: Auth.Parts :: Auth.Laid(c, value, p) && Auth.Verifies(c, p.alg, c.issuerKey, p.signature, p.data)
    case Remove(_, auth, message) => HolderSigned(c, seen, auth, message)
  }

  /** In every state of every run, a handler's request is accepted if and only if it is authorised. */
  lemma RequestExactly(cf: Config, p: Pending)
    ensures RequestOk(cf, p) <==> Authorised(cf.Crypto(), p.req, p.seen)
  {
    match p.req
    case Update(_, value, auth) => Auth.RotationExactly(cf.Crypto(), value, p.seen, auth);
    case UpdateStatusList(_, value) => Auth.IssuerSignedExactly(cf.Crypto(), value);
    case Remove(_, auth, message) => Auth.DeleteSignedExactly(cf.Crypto(), p.seen, auth, message);
  }

  class Handlers {
    const storage: ForgetfulStorage
    const cache: Cache.SignatureCache
    const cf: Config

    ghost predicate Valid()
      reads this
    {
      storage.Valid() && cf.life == storage.Life() && cache.cf == cf.checks
    }

    /** No record is from the future. */
    ghost predicate Clocked(now: nat)
      reads this, storage
    {
      forall k | k in storage.data :: storage.data[k].inserted <= now
    }

    constructor (storage: ForgetfulStorage, cache: Cache.SignatureCache, statusKey: Bytes)
      requires storage.Valid()
      ensures Valid() && this.storage == storage && this.cache == cache && cf.statusKey == statusKey
    {
      this.storage := storage;
      this.cache := cache;
      this.cf := Config(cache.cf, Lifetime(storage.ttl), statusKey);
    }

    /** Ask the cache or verify, then insert unless a live record is there. */
    method RpcStore(key: Bytes, value: Bytes, now: nat) returns (ok: bool)
      requires Valid() && Clocked(now)
      modifies storage, cache
      ensures var (c, verdict) := Cache.CheckNow(cf.checks, old(cache.cache), CheckOf(cf, key, value));
        cache.cache == c && (storage.data, ok) == InsertedIf(cf, old(storage.data), now, key, value, verdict)
      ensures storage.data == if ok then old(storage.data)[key := Record(value, now)] else old(storage.data)
      ensures var d, hash := old(storage.data), cf.checks.hash(value);
        ok <==>
          && (key !in d || (cf.life.Some? && now > d[key].inserted + cf.life.value))
          && (if cf.checks.on && hash in old(cache.cache) then old(cache.cache)[hash] else SignedFor(cf, key, value))
    {
      StoreOkExactly(cf, key, value);
      var verdict := cache.VerifyForKey(key == cf.statusKey, value);
      if !verdict {
        return false;
      }
      ok := storage.PutIfAbsent(key, value, now);
    }

    /** What a handler reads before it suspends; `None` ends it. */
    method ReadPhase(h: nat, req: Request, now: nat) returns (seen: Option<Bytes>)
      requires Valid() && Clocked(now)
      ensures forall s: State | s.d == storage.data && s.now == now && h !in s.pend ::
                var s' := Effect(cf, s, Begin(h, req));
                if seen.None? then s' == s else h in s'.pend && s'.pend[h].req == req && s'.pend[h].seen == seen.value
    {
      seen := storage.Read(req.key, now);
    }

    /** What a handler does after its verdict on the value it read. */
    method CommitPhase(req: Request, seen: Bytes, now: nat) returns (ok: bool)
      requires Valid()
      modifies storage
      ensures forall s: State, p: Pending | s.d == old(storage.data) && s.now == now && p.req == req && p.seen == seen ::
                storage.data == FinishPending(cf, s, p).d && (ok <==> RequestOk(cf, p))
      ensures ok <==> Authorised(cf.Crypto(), req, seen)
      ensures !ok ==> storage.data == old(storage.data)
      ensures ok ==> storage.data == if req.Remove? then old(storage.data) - {req.key}
                                     else old(storage.data)[req.key := Record(req.value, now)]
    {
      RequestExactly(cf, Pending(req, seen, 0, 0));
      var verdict := match req
        case Update(_, value, auth) => Auth.KeyRotation(cf.Crypto(), value, seen, auth)
        case UpdateStatusList(_, value) => Auth.IssuerSigned(cf.Crypto(), value)
        case Remove(_, auth, message) => Auth.DeleteSigned(cf.Crypto(), seen, auth, message);
      if verdict != Some(true) {
        return false;
      }
      match req {
        case Update(key, value, _) => storage.Put(key, value, now);
        case UpdateStatusList(key, value) => storage.Put(key, value, now);
        case Remove(key, _, _) => storage.Erase(key);
      }
      return true;
    }
  }
}

/** The record store with lazy expiry, and the store that drops every record the instant it expires. */
module Storage {
  import opened Nodes

  const NANOS: nat := 1_000_000_000
  const U64: nat := 0x1_0000_0000_0000_0000

  datatype Record = Record(value: Bytes, inserted: nat)

  type Data = map<Bytes, Record>

  /** The lifetime in nanoseconds of a store with the given 64-bit setting: -1 means no expiry, any other
      negative number becomes a very large unsigned one. */
  function Lifetime(ttl: int): Option<nat>
    requires -0x8000_0000_0000_0000 <= ttl < 0x8000_0000_0000_0000
  {
    if ttl == -1 then None else Some((if ttl < 0 then ttl + U64 else ttl) * NANOS)
  }

  /** Times are in nanoseconds. */
  predicate Expired(r: Record, life: Option<nat>, now: nat) {
    life.Some? && now > r.inserted + life.value
  }

  function Live(d: Data, life: Option<nat>, now: nat): (l: Data) {
    map k | k in d && !Expired(d[k], life, now) :: d[k]
  }

  datatype Op =
    | Set(key: Bytes, value: Bytes)
    | InsertIfAbsent(key: Bytes, value: Bytes)
    | Get(key: Bytes)
    | Delete(key: Bytes)
    | IterOlderThan(secs: nat)
    | IterAll

  /** What a caller sees. A listing has each key once, in no particular order. */
  datatype Observation = Nothing | Inserted(ok: bool) | Found(value: Option<Bytes>) | Listed(entries: map<Bytes, Bytes>)

  // ---------- The lazy store: entries stay until they are overwritten or deleted

  function LazyGet(d: Data, key: Bytes, life: Option<nat>, now: nat): Option<Bytes> {
    if key in d && !Expired(d[key], life, now) then Some(d[key].value) else None
  }

  /** Every operation at time `now`. */
  function LazyStep(d: Data, op: Op, life: Option<nat>, now: nat): (Data, Observation) {
    match op
    case Set(key, value) => (d[key := Record(value, now)], Nothing)
    case InsertIfAbsent(key, value) =>
      if key !in d then (d[key := Record(value, now)], Inserted(true))
      else if Expired(d[key], life, now) then (d[key := Record(value, now)], Inserted(true))
      else (d, Inserted(false))
    case Get(key) => (d, Found(LazyGet(d, key, life, now)))
    case Delete(key) => (d - {key}, Nothing)
    case IterOlderThan(secs) =>
      (d, Listed(map k | k in d && now >= d[k].inserted + secs * NANOS && !Expired(d[k], life, now) :: d[k].value))
    case IterAll => (d, Listed(map k | k in d && !Expired(d[k], life, now) :: d[k].value))
  }

  // ---------- The eager store: nothing in it is expired, so no operation looks at the lifetime

  function EagerStep(d: Data, op: Op, now: nat): (Data, Observation) {
    match op
    case Set(key, value) => (d[key := Record(value, now)], Nothing)
    case InsertIfAbsent(key, value) =>
      if key in d then (d, Inserted(false)) else (d[key := Record(value, now)], Inserted(true))
    case Get(key) => (d, Found(if key in d then Some(d[key].value) else None))
    case Delete(key) => (d - {key}, Nothing)
    case IterOlderThan(secs) => (d, Listed(map k | k in d && now >= d[k].inserted + secs * NANOS :: d[k].value))
    case IterAll => (d, Listed(map k | k in d :: d[k].value))
  }

  /** Time passes: the eager store drops what expires. */
  function EagerAdvance(d: Data, life: Option<nat>, now: nat): Data {
    Live(d, life, now)
  }

  /** One operation keeps the eager store equal to the live part of the lazy one and shows the same. */
  lemma StepRefines(d: Data, op: Op, life: Option<nat>, now: nat)
    ensures var (l', lo) := LazyStep(d, op, life, now);
      var (e', eo) := EagerStep(Live(d, life, now), op, now);
      e' == Live(l', life, now) && lo == eo
  {
    match op
    case Set(key, value) =>
    case InsertIfAbsent(key, value) =>
    case Get(key) =>
    case Delete(key) =>
      DeleteRefines(d, key, life, now);
    case IterOlderThan(secs) =>
      ListRefines(d, secs, life, now);
    case IterAll =>
      ListRefines(d, 0, life, now);
  }

  lemma DeleteRefines(d: Data, key: Bytes, life: Option<nat>, now: nat)
    ensures Live(d, life, now) - {key} == Live(d - {key}, life, now)
  {
  }

  lemma ListRefines(d: Data, secs: nat, life: Option<nat>, now: nat)
    ensures LazyStep(d, IterOlderThan(secs), life, now).1 == EagerStep(Live(d, life, now), IterOlderThan(secs), now).1
    ensures LazyStep(d, IterAll, life, now).1 == EagerStep(Live(d, life, now), IterAll, now).1
  {
    var e := Live(d, life, now);
    assert (map k | k in d && now >= d[k].inserted + secs * NANOS && !Expired(d[k], life, now) :: d[k].value) ==
           (map k | k in e && now >= e[k].inserted + secs * NANOS :: e[k].value);
    assert (map k | k in d && !Expired(d[k], life, now) :: d[k].value) == (map k | k in e :: e[k].value);
  }

  lemma AdvanceRefines(d: Data, life: Option<nat>, now: nat, later: nat)
    requires now <= later
    ensures EagerAdvance(Live(d, life, now), life, later) == Live(d, life, later)
  {
  }

  // ---------- Every run

  /** An operation and the time at which it happens. */
  datatype Timed = Timed(op: Op, now: nat)

  ghost predicate Ordered(run: seq<Timed>, start: nat) {
    && (forall i | 0 <= i < |run| :: start <= run[i].now)
    && (forall i, j | 0 <= i < j < |run| :: run[i].now <= run[j].now)
  }

  function LazyRun(d: Data, run: seq<Timed>, life: Option<nat>): seq<Observation>
    decreases |run|
  {
    if run == [] then []
    else
      var (d', o) := LazyStep(d, run[0].op, life, run[0].now);
      [o] + LazyRun(d', run[1..], life)
  }

  function EagerRun(d: Data, run: seq<Timed>, life: Option<nat>): seq<Observation>
    decreases |run|
  {
    if run == [] then []
    else
      var (d', o) := EagerStep(EagerAdvance(d, life, run[0].now), run[0].op, run[0].now);
      [o] + EagerRun(d', run[1..], life)
  }

  /** The lazy store cannot be told from the eager one by any sequence of operations at any times. */
  lemma {:induction false} LazyRefinesEager(d: Data, run: seq<Timed>, life: Option<nat>, start: nat)
    requires Ordered(run, start)
    ensures LazyRun(d, run, life) == EagerRun(Live(d, life, start), run, life)
    decreases |run|
  {
    if run != [] {
      var t := run[0];
      AdvanceRefines(d, life, start, t.now);
      StepRefines(d, t.op, life, t.now);
      var d' := LazyStep(d, t.op, life, t.now).0;
      LazyRefinesEager(d', run[1..], life, t.now);
    }
  }

  // ---------- The store of the program

  class ForgetfulStorage {
    var data: Data
    const ttl: int

    ghost predicate Valid() {
      -0x8000_0000_0000_0000 <= ttl < 0x8000_0000_0000_0000
    }

    function Life(): Option<nat>
      requires Valid()
    {
      Lifetime(ttl)
    }

    constructor (ttl: int)
      requires -0x8000_0000_0000_0000 <= ttl < 0x8000_0000_0000_0000
      ensures Valid() && data == map[] && this.ttl == ttl
    {
      this.ttl := ttl;
      data := map[];
    }

    method IsExpired(inserted: nat, now: nat) returns (b: bool)
      requires Valid() && inserted <= now
      ensures forall v :: b <==> Expired(Record(v, inserted), Life(), now)
    {
      if ttl == -1 {
        return false;
      }
      var elapsed := now - inserted;
      return elapsed > (if ttl < 0 then ttl + U64 else ttl) * NANOS;
    }

    method Put(key: Bytes, value: Bytes, now: nat)
      requires Valid()
      modifies this
      ensures data == LazyStep(old(data), Set(key, value), Life(), now).0 == old(data)[key := Record(value, now)]
    {
      data := data[key := Record(value, now)];
    }

    /** The vacant and the expired entry are filled, a live one is kept. */
    method PutIfAbsent(key: Bytes, value: Bytes, now: nat) returns (ok: bool)
      requires Valid() && forall k | k in data :: data[k].inserted <= now
      modifies this
      ensures (data, Inserted(ok)) == LazyStep(old(data), InsertIfAbsent(key, value), Life(), now)
      ensures data == if ok then old(data)[key := Record(value, now)] else old(data)
      ensures ok <==> key !in old(data) ||
                      (ttl != -1 && now - old(data)[key].inserted > (if ttl < 0 then ttl + U64 else ttl) * 1_000_000_000)
    {
      if key !in data {
        data := data[key := Record(value, now)];
        return true;
      }
      var old_ := data[key];
      var expired := IsExpired(old_.inserted, now);
      assert expired <==> Expired(Record(old_.value, old_.inserted), Life(), now);
      if expired {
        data := data[key := Record(value, now)];
        return true;
      }
      return false;
    }

    method Read(key: Bytes, now: nat) returns (v: Option<Bytes>)
      requires Valid() && forall k | k in data :: data[k].inserted <= now
      ensures v == LazyGet(data, key, Life(), now)
      ensures v.Some? <==> key in data &&
                           (ttl == -1 || now - data[key].inserted <= (if ttl < 0 then ttl + U64 else ttl) * 1_000_000_000)
      ensures v.Some? ==> v.value == data[key].value
    {
      if key !in data {
        return None;
      }
      var expired := IsExpired(data[key].inserted, now);
      assert expired <==> Expired(Record(data[key].value, data[key].inserted), Life(), now);
      return if expired then None else Some(data[key].value);
    }

    method Erase(key: Bytes)
      requires Valid()
      modifies this
      ensures data == old(data) - {key}
    {
      data := data - {key};
    }
  }
}

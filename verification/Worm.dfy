/** The write-once store (infra/worm/src/memory.ts). */
module Worm {
  import opened Outcomes
  import opened Instants
  import opened Digests

  /** No `retainUntil` means retained for ever. */
  datatype Lock = Lock(retainUntil: Option<Instant>, legalHold: bool)

  datatype Stored = Stored(bytes: Text, lock: Lock)

  type Objects = map<string, Stored>

  datatype Op =
    | Put(key: string, bytes: Text)
    | Extend(key: string, until: Instant)
    | Hold(key: string, on: bool)
    | DeleteExpired(key: string, now: Instant)

  // ---------- what each operation does; an error leaves the store alone ----------

  /** May the object be deleted at this instant? */
  predicate Expired(lock: Lock, now: Instant) {
    && !lock.legalHold && lock.retainUntil.Some? && now.Parses() && lock.retainUntil.value.Parses()
    && now.millis.value >= lock.retainUntil.value.millis.value
  }

  /** Is this a later (or equal) end of retention? */
  predicate Extends(lock: Lock, until: Instant) {
    && lock.retainUntil.Some? && until.Parses() && lock.retainUntil.value.Parses()
    && until.millis.value >= lock.retainUntil.value.millis.value
  }

  predicate Allowed(objects: Objects, op: Op) {
    match op
    case Put(key, bytes) => key !in objects
    case Extend(key, until) => key in objects && Extends(objects[key].lock, until)
    case Hold(key, on) => key in objects
    case DeleteExpired(key, now) => key in objects && Expired(objects[key].lock, now)
  }

  function Apply(objects: Objects, default: Option<Instant>, op: Op): Objects {
    if !Allowed(objects, op) then objects
    else
      match op
      case Put(key, bytes) => objects[key := Stored(bytes, Lock(default, false))]
      case Extend(key, until) => objects[key := objects[key].(lock := objects[key].lock.(retainUntil := Some(until)))]
      case Hold(key, on) => objects[key := objects[key].(lock := objects[key].lock.(legalHold := on))]
      case DeleteExpired(key, now) => objects - {key}
  }

  function Run(objects: Objects, default: Option<Instant>, ops: seq<Op>): Objects {
    if ops == [] then objects
    else Apply(Run(objects, default, ops[..|ops| - 1]), default, ops[|ops| - 1])
  }

  // ---------- the store ----------

  class InMemoryWormStore {
    var objects: Objects
    const defaultRetainUntil: Option<Instant>

    /** Every recorded end of retention is a readable instant. */
    ghost predicate Valid()
      reads this
    {
      && (defaultRetainUntil.Some? ==> defaultRetainUntil.value.Parses())
      && Readable(objects)
    }

    constructor (default: Option<Instant>)
      requires default.Some? ==> default.value.Parses()
      ensures Valid() && objects == map[] && defaultRetainUntil == default
    {
      objects, defaultRetainUntil := map[], default;
    }

    method PutImmutable(key: string, bytes: Text) returns (ok: bool)
      requires Valid()
      modifies this`objects
      ensures Valid() && ok == Allowed(old(objects), Put(key, bytes))
      ensures objects == Apply(old(objects), defaultRetainUntil, Put(key, bytes))
      ensures ok <==> key !in old(objects)
      ensures objects == if ok then old(objects)[key := Stored(bytes, Lock(defaultRetainUntil, false))] else old(objects)
    {
      if key in objects {
        return false;
      }
      objects := objects[key := Stored(bytes, Lock(defaultRetainUntil, false))];
      ok := true;
    }

    method Get(key: string) returns (r: Result<Text>)
      ensures r.Ok? <==> key in objects
      ensures r.Ok? ==> r.value == objects[key].bytes
    {
      r := if key in objects then Ok(objects[key].bytes) else Err("no object");
    }

    method ExtendRetention(key: string, until: Instant) returns (ok: bool)
      requires Valid()
      modifies this`objects
      ensures Valid() && ok == Allowed(old(objects), Extend(key, until))
      ensures objects == Apply(old(objects), defaultRetainUntil, Extend(key, until))
      ensures ok <==>
        key in old(objects) && old(objects)[key].lock.retainUntil.Some? && until.millis.Some? &&
        until.millis.value >= old(objects)[key].lock.retainUntil.value.millis.value
      ensures ok ==> objects == old(objects)[key := Stored(old(objects)[key].bytes, Lock(Some(until), old(objects)[key].lock.legalHold))]
      ensures !ok ==> objects == old(objects)
    {
      if key !in objects {
        return false;
      }
      var lock := objects[key].lock;
      if !until.Parses() || lock.retainUntil.None? {
        return false;
      }
      if until.millis.value < lock.retainUntil.value.millis.value {
        return false;
      }
      objects := objects[key := objects[key].(lock := lock.(retainUntil := Some(until)))];
      ok := true;
    }

    method SetLegalHold(key: string, on: bool) returns (ok: bool)
      requires Valid()
      modifies this`objects
      ensures Valid() && ok == Allowed(old(objects), Hold(key, on))
      ensures objects == Apply(old(objects), defaultRetainUntil, Hold(key, on))
      ensures ok <==> key in old(objects)
      ensures ok ==> objects == old(objects)[key := Stored(old(objects)[key].bytes, Lock(old(objects)[key].lock.retainUntil, on))]
      ensures !ok ==> objects == old(objects)
    {
      if key !in objects {
        return false;
      }
      objects := objects[key := objects[key].(lock := objects[key].lock.(legalHold := on))];
      ok := true;
    }

    method Delete(key: string, now: Instant) returns (ok: bool)
      requires Valid()
      modifies this`objects
      ensures Valid() && ok == Allowed(old(objects), DeleteExpired(key, now))
      ensures objects == Apply(old(objects), defaultRetainUntil, DeleteExpired(key, now))
      ensures ok <==>
        key in old(objects) && !old(objects)[key].lock.legalHold && old(objects)[key].lock.retainUntil.Some? &&
        now.millis.Some? && now.millis.value >= old(objects)[key].lock.retainUntil.value.millis.value
      ensures objects == if ok then old(objects) - {key} else old(objects)
    {
      if key !in objects {
        return false;
      }
      var lock := objects[key].lock;
      if lock.legalHold || lock.retainUntil.None? || !now.Parses() {
        return false;
      }
      if now.millis.value < lock.retainUntil.value.millis.value {
        return false;
      }
      objects := objects - {key};
      ok := true;
    }
  }

  ghost predicate Readable(objects: Objects) {
    forall key | key in objects :: objects[key].lock.retainUntil.Some? ==> objects[key].lock.retainUntil.value.Parses()
  }

  // ---------- every run of operations ----------

  /** The retention of `later` is at least that of `lock`; for ever stays for ever. */
  predicate AtLeast(later: Lock, lock: Lock) {
    if lock.retainUntil.None? then later.retainUntil.None?
    else later.retainUntil.Some? && (lock.retainUntil.value.Parses() ==>
      later.retainUntil.value.Parses() && later.retainUntil.value.millis.value >= lock.retainUntil.value.millis.value)
  }

  /** A request to delete this object that comes once its original retention is over. */
  predicate DeletesAfter(op: Op, key: string, lock: Lock) {
    && op.DeleteExpired? && op.key == key && op.now.Parses()
    && lock.retainUntil.Some? && lock.retainUntil.value.Parses() && op.now.millis.value >= lock.retainUntil.value.millis.value
  }

  /**
   Once written, an object reads back unchanged and its retention never shortens, in every run
   that holds no request to delete it after its retention is over.
   */
  lemma {:induction false} WrittenStays(objects: Objects, default: Option<Instant>, ops: seq<Op>, key: string)
    requires Readable(objects) && key in objects && forall i | 0 <= i < |ops| :: !DeletesAfter(ops[i], key, objects[key].lock)
    ensures key in Run(objects, default, ops)
    ensures Run(objects, default, ops)[key].bytes == objects[key].bytes
    ensures AtLeast(Run(objects, default, ops)[key].lock, objects[key].lock)
  {
    if ops != [] {
      WrittenStays(objects, default, ops[..|ops| - 1], key);
      assert !DeletesAfter(ops[|ops| - 1], key, objects[key].lock);
    }
  }

  /** A legal hold keeps an object, whatever is asked, until it is lifted. */
  lemma {:induction false} HeldStays(objects: Objects, default: Option<Instant>, ops: seq<Op>, key: string)
    requires key in objects && objects[key].lock.legalHold
    requires forall i | 0 <= i < |ops| :: ops[i] != Hold(key, false)
    ensures key in Run(objects, default, ops) && Run(objects, default, ops)[key].lock.legalHold
    ensures Run(objects, default, ops)[key].bytes == objects[key].bytes
  {
    if ops != [] {
      HeldStays(objects, default, ops[..|ops| - 1], key);
      assert ops[|ops| - 1] != Hold(key, false);
    }
  }

  /** While it is never gone, an object's retention never shortens. */
  lemma {:induction false} NeverGoneNeverShortened(objects: Objects, default: Option<Instant>, ops: seq<Op>, key: string)
    requires key in objects && forall j | 0 <= j <= |ops| :: key in Run(objects, default, ops[..j])
    ensures key in Run(objects, default, ops) && AtLeast(Run(objects, default, ops)[key].lock, objects[key].lock)
  {
    assert ops[..|ops|] == ops;
    if ops != [] {
      var init := ops[..|ops| - 1];
      forall j | 0 <= j <= |init| ensures key in Run(objects, default, init[..j]) {
        assert init[..j] == ops[..j];
      }
      NeverGoneNeverShortened(objects, default, init, key);
    }
  }

  /** Request i deletes the object, past the retention it was written with and with no hold in force. */
  ghost predicate DeletedAt(objects: Objects, default: Option<Instant>, ops: seq<Op>, key: string, i: nat)
    requires i < |ops| && key in objects
  {
    && DeletesAfter(ops[i], key, objects[key].lock)
    && key in Run(objects, default, ops[..i]) && Expired(Run(objects, default, ops[..i])[key].lock, ops[i].now)
  }

  /** A run that loses an object holds such a request. */
  lemma {:induction false} DeletedOnlyWhenExpired(objects: Objects, default: Option<Instant>, ops: seq<Op>, key: string)
    requires Readable(objects) && key in objects && key !in Run(objects, default, ops)
    ensures exists i | 0 <= i < |ops| :: DeletedAt(objects, default, ops, key, i)
    decreases |ops|
  {
    var n := |ops| - 1;
    if j :| 0 <= j <= n && key !in Run(objects, default, ops[..j]) {
      DeletedOnlyWhenExpired(objects, default, ops[..j], key);
      var i :| 0 <= i < j && DeletedAt(objects, default, ops[..j], key, i);
      assert ops[..j][..i] == ops[..i];
      assert DeletedAt(objects, default, ops, key, i);
    } else {
      forall j | 0 <= j <= n ensures key in Run(objects, default, ops[..n][..j]) {
        assert ops[..n][..j] == ops[..j];
      }
      NeverGoneNeverShortened(objects, default, ops[..n], key);
      assert DeletedAt(objects, default, ops, key, n);
    }
  }
}

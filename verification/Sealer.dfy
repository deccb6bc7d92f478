/** Validate, then append one object (services/evidence-writer/src/writer.ts). */
module EvidenceWriting {
  import opened Outcomes
  import opened Digests
  import opened Canonical
  import CanonicalReading
  import opened CceModel
  import opened ManifestModel
  import opened SealedChains
  import Accumulation
  import opened Worm

  type CceCheck = Cce -> bool

  // ---------- the bytes of an envelope ----------

  function OptionalV(key: string, s: Option<string>): seq<Member> {
    if s.Some? then [Member(key, StrV(s.value))] else []
  }

  function EvidenceV(e: Evidence): Value {
    Obj([Member("event_hash", HashV(e.eventHash)),
         Member("prev_row_hash", if e.prevRowHash.Some? then HashV(e.prevRowHash.value) else Null),
         Member("row_hash", HashV(e.rowHash))]
        + OptionalV("worm_object_key", e.wormObjectKey) + OptionalV("segment_id", e.segmentId))
  }

  /** The whole envelope, hashed core and evidence. */
  function CceV(c: Cce): Value {
    if c.core.Obj? then Obj(c.core.members + [Member("evidence", EvidenceV(c.evidence))]) else c.core
  }

  // ---------- prepare and append ----------

  datatype Prepared = Prepared(key: string, bytes: Text, toWrite: Cce)

  /** Everything that can be refused before the store is asked; an error goes to the dead-letter queue. */
  function Prepare(c: Cce, segmentId: string, n: nat, valid: CceCheck): Result<Prepared> {
    if StringOf(Field(c.core, "kind")) != Some("transaction") || !Field(c.core, "source").Obj? then
      Err("unrecognized evidence object kind")
    else if !valid(c) then Err("evidence object failed validation")
    else if !IsHashToken(c.evidence.eventHash) then Err("missing/invalid evidence.event_hash")
    else if !IsHashToken(c.evidence.rowHash) then Err("missing/invalid evidence.row_hash")
    else
      var v :- VerifyCce(c);
      if !v.eventHashOk || !v.rowHashOk then Err("CCE evidence does not verify")
      else
        var key := Accumulation.EvidenceObjectKey(OrEmpty(DbId(c)), segmentId, n);
        var toWrite := WithBackRefs(c, key, segmentId);
        var bytes :- Serialize(CceV(toWrite));
        Ok(Prepared(key, bytes, toWrite))
  }

  /** Only a valid envelope whose hashes verify is ever prepared for writing. */
  lemma PreparedIsSound(c: Cce, segmentId: string, n: nat, valid: CceCheck)
    requires Prepare(c, segmentId, n, valid).Ok?
    ensures valid(c) && Sound(c) && Sound(Prepare(c, segmentId, n, valid).value.toWrite)
  {
    VerifyCceIsSoundness(c);
  }

  /** The stored envelope: the same core and hashes, with its key and segment filled in. */
  ghost predicate IsStoredCopy(c: Cce, segmentId: string, key: string, copy: Cce) {
    && copy.core == c.core && copy.evidence.eventHash == c.evidence.eventHash && copy.evidence.rowHash == c.evidence.rowHash
    && copy.evidence.prevRowHash == c.evidence.prevRowHash
    && copy.evidence.wormObjectKey == Some(key) && copy.evidence.segmentId == Some(segmentId)
  }

  /** An envelope is prepared exactly when it is of the kind, valid and sound, and its stored copy can be serialized. */
  lemma PreparesIff(c: Cce, segmentId: string, n: nat, valid: CceCheck, p: Prepared)
    ensures Prepare(c, segmentId, n, valid) == Ok(p) <==>
      && StringOf(Field(c.core, "kind")) == Some("transaction") && Field(c.core, "source").Obj?
      && valid(c) && Sound(c)
      && p.key == OrEmpty(DbId(c)) + "/" + segmentId + "/" + Accumulation.PadSix(n) + ".cce.json"
      && IsStoredCopy(c, segmentId, p.key, p.toWrite) && Serialize(CceV(p.toWrite)) == Ok(p.bytes)
  {
    VerifyCceIsSoundness(c);
    if Sound(c) && IsStoredCopy(c, segmentId, p.key, p.toWrite) {
      assert p.toWrite.evidence == WithBackRefs(c, p.key, segmentId).evidence;
    }
  }

  type EpochCheck = Value -> bool

  /** What can be appended: an envelope, or an object of another kind. */
  datatype Appendable = Envelope(cce: Cce) | OtherObject(value: Value)

  datatype ToStore = ToStore(key: string, bytes: Text)

  function EpochObjectKey(dbId: string, segmentId: string, n: nat): string {
    dbId + "/" + segmentId + "/" + Accumulation.PadSix(n) + ".snapshot_epoch_manifest.json"
  }

  /** A snapshot epoch manifest is written as it is. */
  function PrepareEpoch(v: Value, segmentId: string, n: nat, validEpoch: EpochCheck): Result<ToStore> {
    if StringOf(Field(v, "kind")) != Some("snapshot_epoch_manifest") then Err("unrecognized evidence object kind")
    else if !validEpoch(v) then Err("evidence object failed validation")
    else
      var bytes :- Serialize(v);
      Ok(ToStore(EpochObjectKey(OrEmpty(StringOf(Field(v, "db_id"))), segmentId, n), bytes))
  }

  /** A snapshot epoch manifest is prepared exactly when it is of the kind, valid and can be serialized. */
  lemma PreparesEpochIff(v: Value, segmentId: string, n: nat, validEpoch: EpochCheck, p: ToStore)
    ensures PrepareEpoch(v, segmentId, n, validEpoch) == Ok(p) <==>
      && StringOf(Field(v, "kind")) == Some("snapshot_epoch_manifest") && validEpoch(v) && Serialize(v) == Ok(p.bytes)
      && p.key == OrEmpty(StringOf(Field(v, "db_id"))) + "/" + segmentId + "/" + Accumulation.PadSix(n) + ".snapshot_epoch_manifest.json"
  {
  }

  function PrepareObject(o: Appendable, segmentId: string, n: nat, valid: CceCheck, validEpoch: EpochCheck): Result<ToStore> {
    match o
    case Envelope(c) =>
      var p :- Prepare(c, segmentId, n, valid);
      Ok(ToStore(p.key, p.bytes))
    case OtherObject(v) => PrepareEpoch(v, segmentId, n, validEpoch)
  }

  lemma SuffixesDiffer(a: string, b: string)
    ensures a + ".cce.json" != b + ".snapshot_epoch_manifest.json"
  {
    var x, y := a + ".cce.json", b + ".snapshot_epoch_manifest.json";
    assert x[|x| - 6] == 'e' && y[|y| - 6] == 't';
  }

  /** An envelope and an epoch manifest never get the same key. */
  lemma KindsAreApart(c: Cce, m: nat, v: Value, n: nat, segment: string, other: string, valid: CceCheck, validEpoch: EpochCheck)
    ensures var x, y := Prepare(c, segment, m, valid), PrepareEpoch(v, other, n, validEpoch);
      x.Ok? && y.Ok? ==> x.value.key != y.value.key
  {
    SuffixesDiffer(OrEmpty(DbId(c)) + "/" + segment + "/" + Accumulation.PadSix(m),
                   OrEmpty(StringOf(Field(v, "db_id"))) + "/" + other + "/" + Accumulation.PadSix(n));
  }

  /** The stored bytes of an epoch manifest tell what was stored. */
  lemma EpochBytesBind(v: Value, w: Value, m: nat, n: nat, segment: string, other: string, validEpoch: EpochCheck)
    ensures var x, y := PrepareEpoch(v, segment, m, validEpoch), PrepareEpoch(w, other, n, validEpoch);
      x.Ok? && y.Ok? ==> (x.value.bytes == y.value.bytes <==> MeaningOf(v) == MeaningOf(w))
  {
    if Serialize(v).Ok? && Serialize(w).Ok? {
      CanonicalReading.SerializationIsUnambiguous(v, w);
    }
  }

  datatype AppendOutcome = WRITTEN(key: string) | DLQ(reason: string)

  class EvidenceWriter {
    const worm: InMemoryWormStore
    const valid: CceCheck
    const validEpoch: EpochCheck
    var dlq: seq<Appendable>

    constructor (worm: InMemoryWormStore, valid: CceCheck, validEpoch: EpochCheck)
      ensures this.worm == worm && this.valid == valid && this.validEpoch == validEpoch && dlq == []
    {
      this.worm, this.valid, this.validEpoch, dlq := worm, valid, validEpoch, [];
    }

    /** Persist a failure; an error when the queue itself is down. */
    method ToDlq(o: Appendable, reason: string, queueDown: bool) returns (r: Result<AppendOutcome>)
      modifies this`dlq
      ensures r == if queueDown then Err("DLQ persistence failed") else Ok(DLQ(reason))
      ensures dlq == if queueDown then old(dlq) else old(dlq) + [o]
    {
      if queueDown {
        return Err("DLQ persistence failed");
      }
      dlq := dlq + [o];
      r := Ok(DLQ(reason));
    }

    /**
     `append`: the object is in the store, or in the dead-letter queue, or the caller is told
     that neither worked.  `storeDown` stands for a store failure other than an existing key.
     */
    method Append(o: Appendable, segmentId: string, n: nat, storeDown: bool, queueDown: bool) returns (r: Result<AppendOutcome>)
      requires worm.Valid()
      modifies this`dlq, worm`objects
      ensures worm.Valid()
      ensures var p := PrepareObject(o, segmentId, n, valid, validEpoch); p.Ok? && !storeDown && p.value.key !in old(worm.objects) ==>
        && r == Ok(WRITTEN(p.value.key)) && dlq == old(dlq)
        && worm.objects == Apply(old(worm.objects), worm.defaultRetainUntil, Put(p.value.key, p.value.bytes))
      ensures var p := PrepareObject(o, segmentId, n, valid, validEpoch); p.Err? || storeDown || p.value.key in old(worm.objects) ==>
        && worm.objects == old(worm.objects)
        && (if queueDown then r.Err? else r.Ok? && r.value.DLQ?)
        && dlq == (if queueDown then old(dlq) else old(dlq) + [o])
    {
      var p := PrepareObject(o, segmentId, n, valid, validEpoch);
      if p.Err? {
        r := ToDlq(o, p.error, queueDown);
        return;
      }
      var ok := false;
      if !storeDown {
        ok := worm.PutImmutable(p.value.key, p.value.bytes);
      }
      if !ok {
        r := ToDlq(o, "WORM write failed", queueDown);
        return;
      }
      r := Ok(WRITTEN(p.value.key));
    }
  }
}

/** The seal transition with its writes (services/evidence-writer/src/sealer.ts). */
module Sealer {
  import Instants
  import opened Outcomes
  import opened Digests
  import opened Canonical
  import opened ManifestModel
  import opened ManifestBuilder
  import opened CrossSegment
  import opened Worm
  import opened EvidenceWriting
  import opened SealPlans
  import opened Sealing
  import opened StoreKeys

  /** The bytes of a whole manifest. */
  function ManifestBytes(m: Manifest): Result<Text> {
    Serialize(Obj(ManifestFields(m.core) + [Member("manifest_hash", HashV(m.manifestHash))]))
  }

  datatype AlarmKind = VERIFICATION_FAILED | SEAL_WRITE_FAILED

  datatype SealOutcome =
    | SEALED(plan: Plan)
    | VerificationFailed(stage: Stage)
    | WriteFailed

  /** The write of object i, validated and serialized. */
  ghost predicate IsPut(seg: SealReady, valid: CceCheck, i: nat, op: Op)
    requires i < |seg.objects|
  {
    var p := Prepare(seg.objects[i], seg.segmentId, i, valid);
    p.Ok? && op == Put(p.value.key, p.value.bytes)
  }

  /** The writes of the first objects of a segment, in order. */
  ghost predicate Puts(seg: SealReady, valid: CceCheck, ops: seq<Op>) {
    |ops| <= |seg.objects| && forall i | 0 <= i < |ops| :: IsPut(seg, valid, i, ops[i])
  }

  /** Every object is written under the key the manifest lists for it. */
  ghost predicate AtListedKeys(seg: SealReady, ops: seq<Op>) {
    |ops| <= |seg.objectList| && forall i | 0 <= i < |ops| :: ops[i].key == seg.objectList[i].wormObjectKey
  }

  /** All writes of a sealed segment: its objects, then its manifest. */
  ghost predicate AllPuts(plan: Plan, valid: CceCheck, ops: seq<Op>) {
    var seg, n := plan.chained, |plan.chained.objects|;
    && |ops| == n + 1 && Puts(seg, valid, ops[..n]) && AtListedKeys(seg, ops[..n])
    && ManifestBytes(plan.manifest).Ok?
    && ops[n] == Put(ManifestObjectKey(seg.dbId, seg.segmentId), ManifestBytes(plan.manifest).value)
  }

  /** Object i can be written where the manifest lists it. */
  ghost predicate CanPut(seg: SealReady, valid: CceCheck, i: nat)
    requires i < |seg.objects| && i < |seg.objectList|
  {
    var p := Prepare(seg.objects[i], seg.segmentId, i, valid);
    p.Ok? && p.value.key == seg.objectList[i].wormObjectKey
  }

  ghost predicate KeyIsFree(key: string, storeDown: string -> bool, objects: Objects) {
    !storeDown(key) && key !in objects
  }

  /** Every object can be written at its listed key, and these keys are new, all different and not down. */
  ghost predicate ObjectsCanBeWritten(seg: SealReady, valid: CceCheck, storeDown: string -> bool, objects: Objects) {
    && |seg.objectList| == |seg.objects|
    && (forall i | 0 <= i < |seg.objects| :: CanPut(seg, valid, i) && KeyIsFree(seg.objectList[i].wormObjectKey, storeDown, objects))
    && forall i, j | 0 <= i < j < |seg.objects| :: seg.objectList[i].wormObjectKey != seg.objectList[j].wormObjectKey
  }

  /** So can the manifest. */
  ghost predicate CanBeWritten(plan: Plan, valid: CceCheck, storeDown: string -> bool, objects: Objects) {
    var key := ManifestObjectKey(plan.chained.dbId, plan.chained.segmentId);
    && ObjectsCanBeWritten(plan.chained, valid, storeDown, objects)
    && ManifestBytes(plan.manifest).Ok? && KeyIsFree(key, storeDown, objects)
    && forall i | 0 <= i < |plan.chained.objectList| :: plan.chained.objectList[i].wormObjectKey != key
  }

  /** Nothing but the first n listed keys is new. */
  ghost predicate OnlyAdds(seg: SealReady, n: nat, before: Objects, after: Objects)
    requires n <= |seg.objectList|
  {
    forall k | k in after :: k in before || exists i | 0 <= i < n :: k == seg.objectList[i].wormObjectKey
  }

  lemma AddsOneMore(seg: SealReady, n: nat, before: Objects, between: Objects, after: Objects)
    requires n < |seg.objectList| && OnlyAdds(seg, n, before, between)
    requires forall k | k in after :: k in between || k == seg.objectList[n].wormObjectKey
    ensures OnlyAdds(seg, n + 1, before, after)
  {
  }

  lemma StaysFree(seg: SealReady, n: nat, valid: CceCheck, storeDown: string -> bool, before: Objects, between: Objects)
    requires n < |seg.objects| == |seg.objectList| && OnlyAdds(seg, n, before, between)
    ensures ObjectsCanBeWritten(seg, valid, storeDown, before) ==>
      CanPut(seg, valid, n) && KeyIsFree(seg.objectList[n].wormObjectKey, storeDown, between)
  {
  }

  /** The first n objects went to their listed keys, which were free and all different. */
  ghost predicate WrittenSoFar(seg: SealReady, n: nat, valid: CceCheck, storeDown: string -> bool, before: Objects, now: Objects)
    requires n <= |seg.objects| == |seg.objectList|
  {
    && (forall k | k in before :: k in now)
    && (forall i | 0 <= i < n ::
          CanPut(seg, valid, i) && KeyIsFree(seg.objectList[i].wormObjectKey, storeDown, before) && seg.objectList[i].wormObjectKey in now)
    && forall i, j | 0 <= i < j < n :: seg.objectList[i].wormObjectKey != seg.objectList[j].wormObjectKey
  }

  lemma WritesOneMore(seg: SealReady, n: nat, valid: CceCheck, storeDown: string -> bool,
                      before: Objects, between: Objects, now: Objects)
    requires n < |seg.objects| == |seg.objectList| && WrittenSoFar(seg, n, valid, storeDown, before, between)
    requires CanPut(seg, valid, n) && KeyIsFree(seg.objectList[n].wormObjectKey, storeDown, between)
    requires seg.objectList[n].wormObjectKey in now && forall k | k in between :: k in now
    ensures WrittenSoFar(seg, n + 1, valid, storeDown, before, now)
  {
  }

  lemma WrittenCanBeWritten(seg: SealReady, valid: CceCheck, storeDown: string -> bool, before: Objects, now: Objects)
    requires |seg.objects| == |seg.objectList| && WrittenSoFar(seg, |seg.objects|, valid, storeDown, before, now)
    ensures ObjectsCanBeWritten(seg, valid, storeDown, before)
  {
  }

  /** After its objects the manifest can be written exactly when the whole plan could be. */
  lemma ManifestIsLeft(plan: Plan, valid: CceCheck, storeDown: string -> bool, before: Objects, now: Objects)
    requires |plan.chained.objects| == |plan.chained.objectList|
    requires ObjectsCanBeWritten(plan.chained, valid, storeDown, before)
    requires OnlyAdds(plan.chained, |plan.chained.objects|, before, now)
    requires WrittenSoFar(plan.chained, |plan.chained.objects|, valid, storeDown, before, now)
    ensures CanBeWritten(plan, valid, storeDown, before) <==>
      ManifestBytes(plan.manifest).Ok? && KeyIsFree(ManifestObjectKey(plan.chained.dbId, plan.chained.segmentId), storeDown, now)
  {
  }

  /** Some objects of a plan that passes were written, in order, and nothing else. */
  ghost predicate BrokenOff(seg: SealReady, previous: Option<PreviousSealed>, at: string, valid: SchemaCheck, cces: CceCheck, ops: seq<Op>) {
    exists plan :: Passes(seg, previous, at, valid, plan) && Puts(plan.chained, cces, ops)
  }

  class SegmentSealer {
    const worm: InMemoryWormStore
    const writer: EvidenceWriter
    const validManifest: SchemaCheck
    var alarms: seq<AlarmKind>
    var heads: seq<SegmentHead>

    constructor (worm: InMemoryWormStore, writer: EvidenceWriter, validManifest: SchemaCheck)
      ensures this.worm == worm && this.writer == writer && this.validManifest == validManifest
      ensures alarms == [] && heads == []
    {
      this.worm, this.writer, this.validManifest, alarms, heads := worm, writer, validManifest, [], [];
    }

    ghost predicate Valid()
      reads this, writer, worm
    {
      writer.worm == worm && worm.Valid()
    }

    /** Write one object: `ops` is that write, or empty when nothing reached the store. */
    method WriteObject(seg: SealReady, i: nat, storeDown: string -> bool, queueDown: bool)
      returns (r: Result<bool>, ghost ops: seq<Op>)
      requires Valid() && |seg.objectList| == |seg.objects| && i < |seg.objects|
      modifies writer`dlq, worm`objects
      ensures Valid() && worm.objects == Run(old(worm.objects), worm.defaultRetainUntil, ops)
      ensures ops == [] || (|ops| == 1 && IsPut(seg, writer.valid, i, ops[0]))
      ensures r == Ok(true) ==> |ops| == 1 && ops[0].key == seg.objectList[i].wormObjectKey && ops[0].key in worm.objects
      ensures forall k | k in worm.objects :: k in old(worm.objects) || (ops != [] && k == ops[0].key)
      ensures forall k | k in old(worm.objects) :: k in worm.objects
      ensures r == Ok(true) <==>
        CanPut(seg, writer.valid, i) && KeyIsFree(seg.objectList[i].wormObjectKey, storeDown, old(worm.objects))
    {
      var expectedKey := seg.objectList[i].wormObjectKey;
      ghost var p := Prepare(seg.objects[i], seg.segmentId, i, writer.valid);
      var out := writer.Append(Envelope(seg.objects[i]), seg.segmentId, i, storeDown(expectedKey), queueDown);
      ops := if out.Ok? && out.value.WRITTEN? then [Put(p.value.key, p.value.bytes)] else [];
      if ops != [] {
        assert ops[..0] == [];
      }
      if out.Err? {
        return Err(out.error), ops;
      }
      r := Ok(out.value.WRITTEN? && out.value.key == expectedKey);
    }

    /** Write the objects in order; stops at the first that is not written where it belongs. */
    method WriteObjects(seg: SealReady, storeDown: string -> bool, queueDown: bool)
      returns (r: Result<bool>, ghost ops: seq<Op>)
      requires Valid() && |seg.objectList| == |seg.objects|
      modifies writer`dlq, worm`objects
      ensures Valid() && worm.objects == Run(old(worm.objects), worm.defaultRetainUntil, ops)
      ensures Puts(seg, writer.valid, ops)
      ensures r == Ok(true) ==> |ops| == |seg.objects| && AtListedKeys(seg, ops)
      ensures r == Ok(true) ==> OnlyAdds(seg, |seg.objects|, old(worm.objects), worm.objects)
      ensures r == Ok(true) ==> WrittenSoFar(seg, |seg.objects|, writer.valid, storeDown, old(worm.objects), worm.objects)
      ensures r == Ok(true) <==> ObjectsCanBeWritten(seg, writer.valid, storeDown, old(worm.objects))
    {
      ops := [];
      var i := 0;
      while i < |seg.objects|
        invariant 0 <= i == |ops| <= |seg.objects| && Valid()
        invariant worm.objects == Run(old(worm.objects), worm.defaultRetainUntil, ops)
        invariant Puts(seg, writer.valid, ops) && AtListedKeys(seg, ops)
        invariant OnlyAdds(seg, i, old(worm.objects), worm.objects)
        invariant WrittenSoFar(seg, i, writer.valid, storeDown, old(worm.objects), worm.objects)
      {
        ghost var between := worm.objects;
        StaysFree(seg, i, writer.valid, storeDown, old(worm.objects), between);
        var one, here := WriteObject(seg, i, storeDown, queueDown);
        RunOn(old(worm.objects), worm.defaultRetainUntil, ops, here);
        PutsStep(seg, writer.valid, ops, here);
        ops := ops + here;
        if one != Ok(true) {
          return one, ops;
        }
        AddsOneMore(seg, i, old(worm.objects), between, worm.objects);
        WritesOneMore(seg, i, writer.valid, storeDown, old(worm.objects), between, worm.objects);
        i := i + 1;
      }
      WrittenCanBeWritten(seg, writer.valid, storeDown, old(worm.objects), worm.objects);
      r := Ok(true);
    }

    /** The manifest write; its key must be new. */
    method WriteManifest(plan: Plan, storeDown: string -> bool) returns (ok: bool)
      requires Valid()
      modifies worm`objects
      ensures Valid()
      ensures var key := ManifestObjectKey(plan.chained.dbId, plan.chained.segmentId); var bytes := ManifestBytes(plan.manifest);
        && (ok <==> bytes.Ok? && KeyIsFree(key, storeDown, old(worm.objects)))
        && worm.objects == if ok then Apply(old(worm.objects), worm.defaultRetainUntil, Put(key, bytes.value)) else old(worm.objects)
    {
      var key := ManifestObjectKey(plan.chained.dbId, plan.chained.segmentId);
      var bytes := ManifestBytes(plan.manifest);
      if bytes.Err? || storeDown(key) {
        return false;
      }
      ok := worm.PutImmutable(key, bytes.value);
    }

    /**
     `seal`: nothing is written unless the segment passed; the objects are written before the
     manifest, and the head is emitted last.  Every refusal raises one alarm of its kind and names the
     check that failed; a seal that breaks off has written objects of the plan in order, and no more.
     */
    method Seal(seg: SealReady, previous: Option<PreviousSealed>, at: string, storeDown: string -> bool, queueDown: bool)
      returns (r: Result<SealOutcome>, ghost ops: seq<Op>)
      requires Valid()
      modifies this`alarms, this`heads, writer`dlq, worm`objects
      ensures Valid() && worm.objects == Run(old(worm.objects), worm.defaultRetainUntil, ops)
      ensures r.Ok? && r.value.SEALED? ==>
        && Passes(seg, previous, at, validManifest, r.value.plan) && AllPuts(r.value.plan, writer.valid, ops)
        && heads == old(heads) + [r.value.plan.head] && alarms == old(alarms)
      ensures !(r.Ok? && r.value.SEALED?) ==> heads == old(heads)
      ensures r.Ok? && r.value.VerificationFailed? ==>
        && IsVerdict(seg, previous, at, validManifest, Ok(Rejected(r.value.stage)))
        && ops == [] && alarms == old(alarms) + [VERIFICATION_FAILED]
      ensures r.Ok? && r.value.WriteFailed? ==>
        BrokenOff(seg, previous, at, validManifest, writer.valid, ops) && alarms == old(alarms) + [SEAL_WRITE_FAILED]
      ensures r.Err? ==>
        && alarms == old(alarms)
        && ((ops == [] && IsVerdict(seg, previous, at, validManifest, Err(r.error)))
            || BrokenOff(seg, previous, at, validManifest, writer.valid, ops))
      ensures (forall plan :: !Passes(seg, previous, at, validManifest, plan)) ==>
        ops == [] && !(r.Ok? && r.value.SEALED?)
      ensures forall plan | Passes(seg, previous, at, validManifest, plan) ::
        CanBeWritten(plan, writer.valid, storeDown, old(worm.objects)) <==> r == Ok(SEALED(plan))
    {
      ops := [];
      var verdict := CheckSegment(seg, previous, at, validManifest);
      if verdict.Err? {
        return Err(verdict.error), ops;
      }
      if verdict.value.Rejected? {
        alarms := alarms + [VERIFICATION_FAILED];
        return Ok(VerificationFailed(verdict.value.stage)), ops;
      }
      var plan := verdict.value.plan;
      CoherentPlan(seg, previous, at, validManifest, plan);
      forall other | Passes(seg, previous, at, validManifest, other) ensures other == plan {
        PlanIsUnique(seg, previous, at, validManifest, other, plan);
      }
      var written;
      written, ops := WritePlan(plan, storeDown, queueDown);
      if written.Err? {
        return Err(written.error), ops;
      }
      if !written.value {
        alarms := alarms + [SEAL_WRITE_FAILED];
        return Ok(WriteFailed), ops;
      }
      heads := heads + [plan.head];
      r := Ok(SEALED(plan));
    }

    /** Objects first, manifest last. */
    method WritePlan(plan: Plan, storeDown: string -> bool, queueDown: bool) returns (r: Result<bool>, ghost ops: seq<Op>)
      requires Valid() && |plan.chained.objectList| == |plan.chained.objects|
      modifies writer`dlq, worm`objects
      ensures Valid() && worm.objects == Run(old(worm.objects), worm.defaultRetainUntil, ops)
      ensures r == Ok(true) ==> AllPuts(plan, writer.valid, ops)
      ensures r != Ok(true) ==> Puts(plan.chained, writer.valid, ops)
      ensures r == Ok(true) <==> CanBeWritten(plan, writer.valid, storeDown, old(worm.objects))
    {
      r, ops := WriteObjects(plan.chained, storeDown, queueDown);
      if r != Ok(true) {
        return;
      }
      ManifestIsLeft(plan, writer.valid, storeDown, old(worm.objects), worm.objects);
      var ok := WriteManifest(plan, storeDown);
      if ok {
        ghost var last := Put(ManifestObjectKey(plan.chained.dbId, plan.chained.segmentId), ManifestBytes(plan.manifest).value);
        RunOn(old(worm.objects), worm.defaultRetainUntil, ops, [last]);
        RunOne(Run(old(worm.objects), worm.defaultRetainUntil, ops), worm.defaultRetainUntil, last);
        assert (ops + [last])[..|ops|] == ops;
        ops := ops + [last];
      }
      r := Ok(ok);
    }
  }

  lemma ExtendPuts(holds: (nat, Op) -> bool, ops: seq<Op>, last: Op)
    requires (forall i | 0 <= i < |ops| :: holds(i, ops[i])) && holds(|ops|, last)
    ensures forall i | 0 <= i < |ops + [last]| :: holds(i, (ops + [last])[i])
  {
  }

  lemma PutsOneMore(seg: SealReady, valid: CceCheck, ops: seq<Op>, op: Op)
    requires Puts(seg, valid, ops) && |ops| < |seg.objects| && IsPut(seg, valid, |ops|, op)
    ensures Puts(seg, valid, ops + [op])
  {
    ExtendPuts((i: nat, op: Op) => i < |seg.objects| && IsPut(seg, valid, i, op), ops, op);
  }

  lemma KeysOneMore(seg: SealReady, ops: seq<Op>, op: Op)
    requires AtListedKeys(seg, ops) && |ops| < |seg.objectList| && op.key == seg.objectList[|ops|].wormObjectKey
    ensures AtListedKeys(seg, ops + [op])
  {
  }

  lemma PutsStep(seg: SealReady, valid: CceCheck, ops: seq<Op>, here: seq<Op>)
    requires Puts(seg, valid, ops) && AtListedKeys(seg, ops) && |ops| < |seg.objects| == |seg.objectList|
    requires here == [] || (|here| == 1 && IsPut(seg, valid, |ops|, here[0]))
    ensures Puts(seg, valid, ops + here)
    ensures here != [] && here[0].key == seg.objectList[|ops|].wormObjectKey ==> AtListedKeys(seg, ops + here)
  {
    if here == [] {
      assert ops + here == ops;
    } else {
      assert here == [here[0]];
      PutsOneMore(seg, valid, ops, here[0]);
      if here[0].key == seg.objectList[|ops|].wormObjectKey {
        KeysOneMore(seg, ops, here[0]);
      }
    }
  }

  lemma CoherentPlan(seg: SealReady, previous: Option<PreviousSealed>, at: string, valid: SchemaCheck, plan: Plan)
    requires Passes(seg, previous, at, valid, plan)
    ensures |plan.chained.objectList| == |plan.chained.objects|
  {
  }

  lemma RunOne(objects: Objects, default: Option<Instants.Instant>, op: Op)
    ensures Run(objects, default, [op]) == Apply(objects, default, op)
  {
    assert [op][..0] == [];
  }

  /** Running some operations after others is running them all. */
  lemma {:induction false} RunOn(objects: Objects, default: Option<Instants.Instant>, ops: seq<Op>, more: seq<Op>)
    ensures Run(objects, default, ops + more) == Run(Run(objects, default, ops), default, more)
  {
    if more == [] {
      assert ops + more == ops;
    } else {
      assert (ops + more)[..|ops + more| - 1] == ops + more[..|more| - 1];
      RunOn(objects, default, ops, more[..|more| - 1]);
    }
  }
}

/** What sealing produces and hands on (types of services/evidence-writer/src/sealer.ts). */
module SealPlans {
  import opened Outcomes
  import opened ManifestModel
  import opened ManifestBuilder
  import opened CrossSegment

  /** The segment sealed last: its manifest and head. */
  datatype PreviousSealed = PreviousSealed(manifest: Manifest, head: SegmentHead)

  /** What sealing will write and emit. */
  datatype Plan = Plan(chained: SealReady, manifest: Manifest, head: SegmentHead)

  /** One sealed segment: what was handed over, when, and what came of it. */
  datatype Sealed = Sealed(seg: SealReady, at: string, plan: Plan)

  /** The predecessor of the segment at this place of a log of seals. */
  function Before(log: seq<Sealed>, i: nat): Option<PreviousSealed>
    requires i <= |log|
  {
    if i == 0 then None else Some(PreviousSealed(log[i - 1].plan.manifest, log[i - 1].plan.head))
  }
}

/**
 Sealing (services/evidence-writer/src/sealer.ts): establishing the row-hash chain, and what a
 segment must pass before it may be written.
 */
module Sealing {
  import opened Outcomes
  import opened Digests
  import opened CceModel
  import opened ManifestModel
  import opened ManifestBuilder
  import opened SegmentChain
  import opened CrossSegment
  import opened SealPlans
  import opened Sequences

  // ---------- establishing the chain ----------

  function Relinked(c: Cce, prev: HashText, row: HashText): Cce {
    c.(evidence := c.evidence.(prevRowHash := Some(prev), rowHash := row))
  }

  /** The envelopes re-chained from `prev`, in order. */
  function ChainFrom(objects: seq<Cce>, prev: HashText): Result<seq<Cce>> {
    if objects == [] then Ok([])
    else
      var row :- RowHash(prev, objects[0].evidence.eventHash);
      var rest :- ChainFrom(objects[1..], Hash(row));
      Ok([Relinked(objects[0], prev, Hash(row))] + rest)
  }

  function HashList(objects: seq<Cce>): seq<ObjectHash> {
    seq(|objects|, i requires 0 <= i < |objects| => ObjectHash(i, objects[i].evidence.eventHash, objects[i].evidence.rowHash))
  }

  function WithChain(seg: SealReady, chained: seq<Cce>): SealReady {
    seg.(objects := chained,
         objectHashList := HashList(chained),
         firstRowHash := if chained != [] then chained[0].evidence.rowHash else seg.firstRowHash,
         lastRowHash := if chained != [] then chained[|chained| - 1].evidence.rowHash else seg.lastRowHash)
  }

  function Prepend(done: seq<Cce>, rest: Result<seq<Cce>>): Result<seq<Cce>> {
    if rest.Ok? then Ok(done + rest.value) else rest
  }

  method EstablishChain(seg: SealReady, boundary: HashText) returns (r: Result<SealReady>)
    ensures r.Ok? <==> ChainFrom(seg.objects, boundary).Ok?
    ensures r.Ok? ==> r.value == WithChain(seg, ChainFrom(seg.objects, boundary).value)
  {
    var chained: seq<Cce> := [];
    var prev := boundary;
    var rest := seg.objects;
    assert ChainFrom(rest, prev).Ok? ==> [] + ChainFrom(rest, prev).value == ChainFrom(rest, prev).value;
    while rest != []
      invariant Prepend(chained, ChainFrom(rest, prev)) == ChainFrom(seg.objects, boundary)
      decreases |rest|
    {
      var c := rest[0];
      var row := RowHash(prev, c.evidence.eventHash);
      if row.Err? {
        return Err(row.error);
      }
      ghost var after := ChainFrom(rest[1..], Hash(row.value));
      if after.Ok? {
        Regroup(chained, [Relinked(c, prev, Hash(row.value))], after.value);
      }
      chained := chained + [Relinked(c, prev, Hash(row.value))];
      prev := Hash(row.value);
      rest := rest[1..];
    }
    r := Ok(WithChain(seg, chained));
  }

  /** Object i of a chain: same core and event hash, linked to its predecessor. */
  ghost predicate ChainedAt(objects: seq<Cce>, chained: seq<Cce>, boundary: HashText, i: nat)
    requires i < |objects| == |chained|
  {
    var prev := if i == 0 then boundary else chained[i - 1].evidence.rowHash;
    && IsHashToken(prev) && IsHashToken(objects[i].evidence.eventHash)
    && chained[i] == Relinked(objects[i], prev, Hash(Sha256([Token(prev.d), Token(objects[i].evidence.eventHash.d)])))
  }

  /** Re-chaining succeeds exactly when every hash it reads is a hash, and links every object. */
  lemma {:induction false} ChainFromLinks(objects: seq<Cce>, boundary: HashText)
    requires objects != []
    ensures ChainFrom(objects, boundary).Ok? <==>
      IsHashToken(boundary) && forall i | 0 <= i < |objects| :: IsHashToken(objects[i].evidence.eventHash)
    ensures ChainFrom(objects, boundary).Ok? ==>
      var chained := ChainFrom(objects, boundary).value;
      |chained| == |objects| && forall i {:trigger ChainedAt(objects, chained, boundary, i)} | 0 <= i < |objects| ::
        ChainedAt(objects, chained, boundary, i)
  {
    var event := objects[0].evidence.eventHash;
    if IsHashToken(boundary) && IsHashToken(event) {
      var row := Hash(RowHash(boundary, event).value);
      var rest := objects[1..];
      if rest != [] {
        ChainFromLinks(rest, row);
        assert forall i | 1 <= i < |objects| :: objects[i] == rest[i - 1];
      }
      if ChainFrom(objects, boundary).Ok? {
        var tail, chained := ChainFrom(rest, row).value, ChainFrom(objects, boundary).value;
        assert chained == [Relinked(objects[0], boundary, row)] + tail;
        forall i {:trigger ChainedAt(objects, chained, boundary, i)} | 0 <= i < |objects|
          ensures ChainedAt(objects, chained, boundary, i)
        {
          if i > 0 {
            assert ChainedAt(rest, tail, row, i - 1);
            assert chained[i] == tail[i - 1] && chained[i - 1] == if i == 1 then Relinked(objects[0], boundary, row) else tail[i - 2];
          }
        }
      }
    } else {
      assert !IsHashToken(boundary) || !IsHashToken(objects[0].evidence.eventHash);
    }
  }

  // ---------- what must pass before anything is written ----------

  function BoundaryOf(seg: SealReady, previous: Option<PreviousSealed>): HashText {
    if seg.segmentSequence == 0 || previous.None? then GENESIS_ROW_HASH else previous.value.head.lastRowHash
  }

  function RefTo(seg: SealReady, previous: Option<PreviousSealed>): Option<PreviousRef> {
    if seg.segmentSequence == 0 || previous.None? then None
    else
      var p := previous.value;
      Some(PreviousRef(p.manifest.core.segmentId, p.manifest.core.segmentSequence, p.head.segmentHash))
  }

  function ManifestOf(previous: Option<PreviousSealed>): Option<Manifest> {
    if previous.Some? then Some(previous.value.manifest) else None
  }

  function ChainInputOf(seg: SealReady): ChainInput {
    ChainInput(seg.objectList, seg.objectHashList, seg.objects)
  }

  ghost predicate Passes(seg: SealReady, previous: Option<PreviousSealed>, at: string, valid: SchemaCheck, plan: Plan) {
    var boundary := BoundaryOf(seg, previous);
    && (seg.segmentSequence == 0 || previous.Some?)
    && ChainFrom(seg.objects, boundary).Ok? && plan.chained == WithChain(seg, ChainFrom(seg.objects, boundary).value)
    && ChainHolds(ChainInputOf(plan.chained))
    && BuiltFrom(plan.manifest, plan.chained, at, RefTo(seg, previous), valid)
    && Linked(plan.manifest.core, boundary, ManifestOf(previous))
    && DeriveSegmentHead(plan.manifest) == Ok(plan.head)
  }

  datatype Stage = INTRA_CHAIN | CROSS_SEGMENT | MANIFEST

  /** The verdict reached before the first write; an error is a thrown exception. */
  datatype Verdict = Verified(plan: Plan) | Rejected(stage: Stage)

  /** The verdict once the manifest is built: the link and the head, either of which may throw. */
  ghost predicate LinkVerdict(chained: SealReady, boundary: HashText, previous: Option<PreviousSealed>, m: Manifest, r: Result<Verdict>) {
    if Throws(m.core, ManifestOf(previous)) then r.Err?
    else if !Linked(m.core, boundary, ManifestOf(previous)) then r == Ok(Rejected(CROSS_SEGMENT))
    else if DeriveSegmentHead(m).Err? then r.Err?
    else r == Ok(Verified(Plan(chained, m, DeriveSegmentHead(m).value)))
  }

  /** Which check rejects, and which throws: in order, the predecessor, the chain, the manifest, the link. */
  ghost predicate IsVerdict(seg: SealReady, previous: Option<PreviousSealed>, at: string, valid: SchemaCheck, r: Result<Verdict>) {
    var chain := ChainFrom(seg.objects, BoundaryOf(seg, previous));
    if seg.segmentSequence != 0 && previous.None? then r == Ok(Rejected(CROSS_SEGMENT))
    else if chain.Err? then r.Err?
    else
      var chained := WithChain(seg, chain.value);
      if !ChainHolds(ChainInputOf(chained)) then r == Ok(Rejected(INTRA_CHAIN))
      else if forall m :: !BuiltFrom(m, chained, at, RefTo(seg, previous), valid) then r == Ok(Rejected(MANIFEST))
      else forall m | BuiltFrom(m, chained, at, RefTo(seg, previous), valid) ::
        LinkVerdict(chained, BoundaryOf(seg, previous), previous, m, r)
  }

  method CheckSegment(seg: SealReady, previous: Option<PreviousSealed>, at: string, valid: SchemaCheck)
    returns (r: Result<Verdict>)
    ensures IsVerdict(seg, previous, at, valid, r)
    ensures r.Ok? && r.value.Verified? ==> Passes(seg, previous, at, valid, r.value.plan)
    ensures !(r.Ok? && r.value.Verified?) ==> forall plan :: !Passes(seg, previous, at, valid, plan)
  {
    r := Check(seg, previous, at, valid);
    VerdictIsPassing(seg, previous, at, valid, r);
  }

  method Check(seg: SealReady, previous: Option<PreviousSealed>, at: string, valid: SchemaCheck)
    returns (r: Result<Verdict>)
    ensures IsVerdict(seg, previous, at, valid, r)
  {
    if seg.segmentSequence != 0 && previous.None? {
      return Ok(Rejected(CROSS_SEGMENT));
    }
    var boundary := BoundaryOf(seg, previous);
    var chained := EstablishChain(seg, boundary);
    if chained.Err? {
      return Err(chained.error);
    }
    var intra := VerifySegmentChain(ChainInputOf(chained.value));
    if !intra.ok {
      return Ok(Rejected(INTRA_CHAIN));
    }
    var manifest := BuildSegmentManifest(chained.value, at, RefTo(seg, previous), valid);
    if manifest.Err? {
      return Ok(Rejected(MANIFEST));
    }
    ManifestIsUnique(chained.value, at, RefTo(seg, previous), valid, manifest.value);
    r := CheckLink(chained.value, boundary, previous, manifest.value);
  }

  /** The cross-segment check and the head, once the manifest is built. */
  method CheckLink(chained: SealReady, boundary: HashText, previous: Option<PreviousSealed>, manifest: Manifest)
    returns (r: Result<Verdict>)
    ensures LinkVerdict(chained, boundary, previous, manifest, r)
  {
    var cross := VerifyCrossSegment(manifest.core, boundary, ManifestOf(previous));
    if cross.Err? {
      return Err(cross.error);
    }
    if !cross.value.ok {
      return Ok(Rejected(CROSS_SEGMENT));
    }
    var head :- DeriveSegmentHead(manifest);
    r := Ok(Verified(Plan(chained, manifest, head)));
  }

  /** A link that throws does not hold. */
  lemma ThrowingIsNotLinked(current: ManifestCore, boundary: HashText, previous: Option<Manifest>)
    requires Throws(current, previous)
    ensures !Linked(current, boundary, previous)
  {
    SegmentHashThrowsIff(previous.value);
  }

  lemma LinkVerdictIsPassing(seg: SealReady, previous: Option<PreviousSealed>, at: string, valid: SchemaCheck,
                             chained: SealReady, m: Manifest, r: Result<Verdict>)
    requires (seg.segmentSequence == 0 || previous.Some?) && ChainFrom(seg.objects, BoundaryOf(seg, previous)).Ok?
    requires chained == WithChain(seg, ChainFrom(seg.objects, BoundaryOf(seg, previous)).value)
    requires ChainHolds(ChainInputOf(chained)) && BuiltFrom(m, chained, at, RefTo(seg, previous), valid)
    requires LinkVerdict(chained, BoundaryOf(seg, previous), previous, m, r)
    ensures r.Ok? && r.value.Verified? ==> Passes(seg, previous, at, valid, r.value.plan)
    ensures !(r.Ok? && r.value.Verified?) ==> forall plan :: !Passes(seg, previous, at, valid, plan)
  {
    ManifestIsUnique(chained, at, RefTo(seg, previous), valid, m);
    if Throws(m.core, ManifestOf(previous)) {
      ThrowingIsNotLinked(m.core, BoundaryOf(seg, previous), ManifestOf(previous));
    }
  }

  /** The verdict is a plan exactly when some plan passes, and then that one. */
  lemma VerdictIsPassing(seg: SealReady, previous: Option<PreviousSealed>, at: string, valid: SchemaCheck, r: Result<Verdict>)
    requires IsVerdict(seg, previous, at, valid, r)
    ensures r.Ok? && r.value.Verified? ==> Passes(seg, previous, at, valid, r.value.plan)
    ensures !(r.Ok? && r.value.Verified?) ==> forall plan :: !Passes(seg, previous, at, valid, plan)
  {
    var chain := ChainFrom(seg.objects, BoundaryOf(seg, previous));
    if (seg.segmentSequence == 0 || previous.Some?) && chain.Ok? && ChainHolds(ChainInputOf(WithChain(seg, chain.value))) {
      var chained := WithChain(seg, chain.value);
      if m :| BuiltFrom(m, chained, at, RefTo(seg, previous), valid) {
        LinkVerdictIsPassing(seg, previous, at, valid, chained, m, r);
      }
    }
  }

  lemma ManifestIsUnique(seg: SealReady, at: string, previous: Option<PreviousRef>, valid: SchemaCheck, m: Manifest)
    requires BuiltFrom(m, seg, at, previous, valid)
    ensures forall n :: BuiltFrom(n, seg, at, previous, valid) ==> n == m
  {
  }

  /** The checks before writing leave no choice: one input, at most one plan. */
  lemma PlanIsUnique(seg: SealReady, previous: Option<PreviousSealed>, at: string, valid: SchemaCheck, a: Plan, b: Plan)
    requires Passes(seg, previous, at, valid, a) && Passes(seg, previous, at, valid, b)
    ensures a == b
  {
    ManifestIsUnique(a.chained, at, RefTo(seg, previous), valid, a.manifest);
  }
}

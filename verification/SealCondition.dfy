/** Exactly when a segment from the accumulator passes the checks made before anything is written. */
module SealCondition {
  import opened Outcomes
  import opened Digests
  import opened CceModel
  import opened ManifestModel
  import opened ManifestBuilder
  import opened SegmentChain
  import opened CrossSegment
  import opened Accumulation
  import opened SealPlans
  import opened Sealing
  import CanonicalReading
  import CceOrder
  import Instants

  /** A predecessor as sealing leaves it. */
  ghost predicate WasSealed(previous: Option<PreviousSealed>) {
    previous.Some? ==>
      && DeriveSegmentHead(previous.value.manifest) == Ok(previous.value.head)
      && IsHashToken(previous.value.head.lastRowHash)
  }

  /** The segment comes next after its predecessor. */
  predicate ComesNext(seg: SealReady, previous: Option<PreviousSealed>) {
    && (seg.segmentSequence == 0 <==> previous.None?)
    && (previous.Some? ==> previous.value.manifest.core.dbId == seg.dbId)
    && (previous.Some? ==> previous.value.manifest.core.segmentSequence + 1 == seg.segmentSequence)
  }

  /** The object can be serialized and carries the hash of its core. */
  predicate EventSound(c: Cce) {
    CoreHash(c.core).Ok? && c.evidence.eventHash == Hash(CoreHash(c.core).value)
  }

  predicate EventsSound(objects: seq<Cce>) {
    forall i | 0 <= i < |objects| :: EventSound(objects[i])
  }

  function ChainedSegment(seg: SealReady, previous: Option<PreviousSealed>): SealReady
    requires ChainFrom(seg.objects, BoundaryOf(seg, previous)).Ok?
  {
    WithChain(seg, ChainFrom(seg.objects, BoundaryOf(seg, previous)).value)
  }

  /** The manifest of the re-chained segment can be hashed and satisfies its schema. */
  predicate ManifestBuilds(chained: SealReady, at: string, ref: Option<PreviousRef>, valid: SchemaCheck) {
    var hash := ManifestHash(CoreOf(chained, at, ref));
    hash.Ok? && valid(Manifest(CoreOf(chained, at, ref), Hash(hash.value)))
  }

  lemma BoundaryIsToken(seg: SealReady, previous: Option<PreviousSealed>)
    requires WasSealed(previous)
    ensures IsHashToken(BoundaryOf(seg, previous))
  {
  }

  lemma CanChain(caps: Caps, seg: SealReady, previous: Option<PreviousSealed>)
    requires WellClosed(caps, seg) && WasSealed(previous)
    ensures ChainFrom(seg.objects, BoundaryOf(seg, previous)).Ok?
  {
    BoundaryIsToken(seg, previous);
    ChainFromLinks(seg.objects, BoundaryOf(seg, previous));
    forall i | 0 <= i < |seg.objects| ensures IsHashToken(seg.objects[i].evidence.eventHash) {
      AdmittedHash(seg.objects[i], seg.dbId);
    }
  }

  lemma AdmittedHash(c: Cce, db: string)
    requires AdmittedFor(c, db)
    ensures IsHashToken(c.evidence.eventHash)
  {
  }

  lemma ChainedDescribes(seg: SealReady, boundary: HashText, i: nat)
    requires Coherent(seg) && ChainFrom(seg.objects, boundary).Ok? && i < |seg.objects|
    ensures var c := WithChain(seg, ChainFrom(seg.objects, boundary).value);
      |c.objects| == |seg.objects| && Describes(c.objectList, c.objectHashList, c.objects, i)
  {
    ChainFromLinks(seg.objects, boundary);
    assert ChainedAt(seg.objects, ChainFrom(seg.objects, boundary).value, boundary, i);
    assert Describes(seg.objectList, seg.objectHashList, seg.objects, i);
  }

  lemma ChainedIsCoherent(seg: SealReady, boundary: HashText)
    requires Coherent(seg) && ChainFrom(seg.objects, boundary).Ok?
    ensures Coherent(WithChain(seg, ChainFrom(seg.objects, boundary).value))
  {
    var c := WithChain(seg, ChainFrom(seg.objects, boundary).value);
    ChainFromLinks(seg.objects, boundary);
    forall i | 0 <= i < |seg.objects| ensures Describes(c.objectList, c.objectHashList, c.objects, i) {
      ChainedDescribes(seg, boundary, i);
    }
  }

  lemma ChainedLinks(seg: SealReady, boundary: HashText, i: nat)
    requires ChainFrom(seg.objects, boundary).Ok? && i < |seg.objects|
    ensures var c := ChainFrom(seg.objects, boundary).value;
      |c| == |seg.objects| && LinksBack(c, i) && c[i].core == seg.objects[i].core
      && (Sound(c[i]) <==> EventSound(seg.objects[i]))
  {
    var c := ChainFrom(seg.objects, boundary).value;
    ChainFromLinks(seg.objects, boundary);
    assert ChainedAt(seg.objects, c, boundary, i);
    CanonicalReading.SerializableIffMeaningful(seg.objects[i].core);
  }

  lemma ChainedHolds(seg: SealReady, boundary: HashText)
    requires Coherent(seg) && ChainFrom(seg.objects, boundary).Ok?
    ensures ChainHolds(ChainInputOf(WithChain(seg, ChainFrom(seg.objects, boundary).value))) <==> EventsSound(seg.objects)
  {
    var c := ChainInputOf(WithChain(seg, ChainFrom(seg.objects, boundary).value));
    ChainFromLinks(seg.objects, boundary);
    forall i | 0 <= i < |seg.objects|
      ensures LinksBack(c.objects, i) && Describes(c.refs, c.hashes, c.objects, i)
      ensures Sound(c.objects[i]) <==> EventSound(seg.objects[i])
    {
      ChainedLinks(seg, boundary, i);
      ChainedDescribes(seg, boundary, i);
    }
  }

  lemma BuiltLinks(m: Manifest, seg: SealReady, at: string, previous: Option<PreviousSealed>, valid: SchemaCheck)
    requires BuiltFrom(m, seg, at, RefTo(seg, previous), valid) && WasSealed(previous)
    ensures Linked(m.core, BoundaryOf(seg, previous), ManifestOf(previous)) <==> ComesNext(seg, previous)
  {
  }

  lemma BuiltHasHead(m: Manifest, seg: SealReady, at: string, previous: Option<PreviousSealed>, valid: SchemaCheck)
    requires BuiltFrom(m, seg, at, RefTo(seg, previous), valid) && WasSealed(previous)
    requires IsHashToken(seg.lastRowHash) && (seg.segmentSequence == 0 || previous.Some?)
    ensures DeriveSegmentHead(m).Ok?
  {
  }

  lemma LastRowIsToken(seg: SealReady, boundary: HashText)
    requires seg.objects != [] && ChainFrom(seg.objects, boundary).Ok?
    ensures IsHashToken(WithChain(seg, ChainFrom(seg.objects, boundary).value).lastRowHash)
  {
    ChainFromLinks(seg.objects, boundary);
    assert ChainedAt(seg.objects, ChainFrom(seg.objects, boundary).value, boundary, |seg.objects| - 1);
  }

  function BuiltManifest(chained: SealReady, at: string, ref: Option<PreviousRef>): Manifest
    requires ManifestHash(CoreOf(chained, at, ref)).Ok?
  {
    Manifest(CoreOf(chained, at, ref), Hash(ManifestHash(CoreOf(chained, at, ref)).value))
  }

  lemma BuiltIsBuilt(chained: SealReady, at: string, ref: Option<PreviousRef>, valid: SchemaCheck)
    requires Coherent(chained) && ManifestBuilds(chained, at, ref, valid) && (chained.segmentSequence == 0 <==> ref.None?)
    ensures BuiltFrom(BuiltManifest(chained, at, ref), chained, at, ref, valid)
  {
  }

  lemma BuiltMeansBuilds(m: Manifest, chained: SealReady, at: string, ref: Option<PreviousRef>, valid: SchemaCheck)
    requires BuiltFrom(m, chained, at, ref, valid)
    ensures ManifestBuilds(chained, at, ref, valid)
  {
  }

  lemma PassingMeans(seg: SealReady, previous: Option<PreviousSealed>, at: string, valid: SchemaCheck, plan: Plan)
    requires Coherent(seg) && WasSealed(previous) && Passes(seg, previous, at, valid, plan)
    ensures ComesNext(seg, previous) && EventsSound(seg.objects)
    ensures ManifestBuilds(ChainedSegment(seg, previous), at, RefTo(seg, previous), valid)
  {
    ChainedHolds(seg, BoundaryOf(seg, previous));
    BuiltMeansBuilds(plan.manifest, plan.chained, at, RefTo(seg, previous), valid);
    BuiltLinks(plan.manifest, plan.chained, at, previous, valid);
  }

  function PlanFor(seg: SealReady, previous: Option<PreviousSealed>, at: string): Result<Plan>
    requires ChainFrom(seg.objects, BoundaryOf(seg, previous)).Ok?
    requires ManifestHash(CoreOf(ChainedSegment(seg, previous), at, RefTo(seg, previous))).Ok?
  {
    var manifest := BuiltManifest(ChainedSegment(seg, previous), at, RefTo(seg, previous));
    var head :- DeriveSegmentHead(manifest);
    Ok(Plan(ChainedSegment(seg, previous), manifest, head))
  }

  lemma ConditionPasses(seg: SealReady, previous: Option<PreviousSealed>, at: string, valid: SchemaCheck)
    requires Coherent(seg) && WasSealed(previous) && ChainFrom(seg.objects, BoundaryOf(seg, previous)).Ok?
    requires ComesNext(seg, previous) && EventsSound(seg.objects)
    requires ManifestBuilds(ChainedSegment(seg, previous), at, RefTo(seg, previous), valid)
    ensures var plan := PlanFor(seg, previous, at); plan.Ok? && Passes(seg, previous, at, valid, plan.value)
  {
    var boundary, ref, chained := BoundaryOf(seg, previous), RefTo(seg, previous), ChainedSegment(seg, previous);
    var m := BuiltManifest(chained, at, ref);
    ChainedHolds(seg, boundary);
    ChainedIsCoherent(seg, boundary);
    LastRowIsToken(seg, boundary);
    BuiltIsBuilt(chained, at, ref, valid);
    BuiltLinks(m, chained, at, previous, valid);
    BuiltHasHead(m, chained, at, previous, valid);
  }

  /**
   A segment from the accumulator passes exactly when it comes next, every object carries the
   hash of its content, and its manifest builds.
   */
  lemma SegmentPassesIff(caps: Caps, seg: SealReady, previous: Option<PreviousSealed>, at: string, valid: SchemaCheck)
    requires WellClosed(caps, seg) && WasSealed(previous)
    ensures ChainFrom(seg.objects, BoundaryOf(seg, previous)).Ok?
    ensures (exists plan :: Passes(seg, previous, at, valid, plan)) <==>
      ComesNext(seg, previous) && EventsSound(seg.objects)
      && ManifestBuilds(ChainedSegment(seg, previous), at, RefTo(seg, previous), valid)
  {
    CanChain(caps, seg, previous);
    if plan :| Passes(seg, previous, at, valid, plan) {
      PassingMeans(seg, previous, at, valid, plan);
    }
    if ComesNext(seg, previous) && EventsSound(seg.objects)
      && ManifestBuilds(ChainedSegment(seg, previous), at, RefTo(seg, previous), valid)
    {
      ConditionPasses(seg, previous, at, valid);
    }
  }

  /** What was just sealed can serve as the next predecessor. */
  lemma PassedWasSealed(seg: SealReady, previous: Option<PreviousSealed>, at: string, valid: SchemaCheck, plan: Plan)
    requires Passes(seg, previous, at, valid, plan)
    ensures WasSealed(Some(PreviousSealed(plan.manifest, plan.head)))
  {
  }

  /**
   Two buffers with the same envelopes in different order of arrival, closed and sealed at the
   same instants after the same predecessor, get the same objects, row hashes, manifest and head.
   */
  lemma ArrivalOrderGivesTheSameHead(hex: CceOrder.Hex, seg: OpenSegment, arrived: seq<Cce>, trigger: SealTrigger,
                                     closedAt: Instants.Instant, previous: Option<PreviousSealed>, at: string,
                                     valid: SchemaCheck, plan: Plan)
    requires seg.objects != [] && CceOrder.DistinctIds(seg.objects) && multiset(arrived) == multiset(seg.objects)
    requires var a := Close(hex, seg, trigger, closedAt); a.Ok? && Passes(a.value, previous, at, valid, plan)
    ensures arrived != []
    ensures var b := Close(hex, seg.(objects := arrived), trigger, closedAt);
      b.Ok? && forall q :: Passes(b.value, previous, at, valid, q) <==> q == plan
  {
    ArrivalOrderIsForgotten(hex, seg, arrived, trigger, closedAt);
    var closed := Close(hex, seg, trigger, closedAt).value;
    forall q | Passes(closed, previous, at, valid, q) ensures q == plan {
      PlanIsUnique(closed, previous, at, valid, plan, q);
    }
  }

  // ---------- what the manifest of a sealed segment says ----------

  /** What stands in front of object i in the chain of row hashes. */
  ghost function RowBefore(core: ManifestCore, boundary: HashText, i: nat): HashText
    requires i <= |core.objectHashList|
  {
    if i == 0 then boundary else core.objectHashList[i - 1].rowHash
  }

  /** Row hashes run on from the boundary: each is over the one before it and the event hash of its object. */
  ghost predicate HashesRunOn(core: ManifestCore, objects: seq<Cce>, boundary: HashText) {
    && |core.objectHashList| == |objects| > 0
    && (forall i | 0 <= i < |objects| ::
          && RowBefore(core, boundary, i).Hash? && objects[i].evidence.eventHash.Hash?
          && core.objectHashList[i] == ObjectHash(i, objects[i].evidence.eventHash,
               Hash(Sha256([Token(RowBefore(core, boundary, i).d), Token(objects[i].evidence.eventHash.d)]))))
    && core.firstRowHash == core.objectHashList[0].rowHash && core.lastRowHash == core.objectHashList[|objects| - 1].rowHash
  }

  /** The fields taken over from the segment, field by field, and the instant of sealing. */
  ghost predicate TakesOver(core: ManifestCore, seg: SealReady, at: string) {
    && core.segmentId == seg.segmentId && core.dbId == seg.dbId && core.engine == seg.engine
    && core.segmentSequence == seg.segmentSequence && core.openedAt == seg.openedAt && core.sealedAt == at
    && core.eventCount == |seg.objects| && core.objectList == seg.objectList
    && core.firstEnvelopeId == seg.firstEnvelopeId && core.lastEnvelopeId == seg.lastEnvelopeId
    && core.offsets == seg.offsets && core.fidelity == seg.fidelity && core.completeness == seg.completeness
  }

  /** The predecessor named is the segment sealed before, with its segment hash; a genesis segment names none. */
  ghost predicate NamesBefore(core: ManifestCore, previous: Option<PreviousSealed>) {
    if core.segmentSequence == 0 then core.previous == None
    else
      previous.Some? && core.previous == Some(PreviousRef(
        previous.value.manifest.core.segmentId, previous.value.manifest.core.segmentSequence, previous.value.head.segmentHash))
  }

  lemma ChainRunsOn(seg: SealReady, boundary: HashText, core: ManifestCore)
    requires seg.objects != [] && ChainFrom(seg.objects, boundary).Ok?
    requires var chained := WithChain(seg, ChainFrom(seg.objects, boundary).value);
      && core.objectHashList == chained.objectHashList
      && core.firstRowHash == chained.firstRowHash && core.lastRowHash == chained.lastRowHash
    ensures HashesRunOn(core, seg.objects, boundary)
  {
    var chained := ChainFrom(seg.objects, boundary).value;
    ChainFromLinks(seg.objects, boundary);
    forall i | 0 <= i < |seg.objects|
      ensures RowBefore(core, boundary, i).Hash? && seg.objects[i].evidence.eventHash.Hash?
      ensures core.objectHashList[i] == ObjectHash(i, seg.objects[i].evidence.eventHash,
        Hash(Sha256([Token(RowBefore(core, boundary, i).d), Token(seg.objects[i].evidence.eventHash.d)])))
    {
      assert ChainedAt(seg.objects, chained, boundary, i);
    }
  }

  lemma {:induction false} ChainKeepsLength(objects: seq<Cce>, boundary: HashText)
    ensures ChainFrom(objects, boundary).Ok? ==> |ChainFrom(objects, boundary).value| == |objects|
    decreases |objects|
  {
    if objects != [] && RowHash(boundary, objects[0].evidence.eventHash).Ok? {
      ChainKeepsLength(objects[1..], Hash(RowHash(boundary, objects[0].evidence.eventHash).value));
    }
  }

  /** The manifest of a segment that passed tells what the segment was, what it follows and how its rows are chained. */
  lemma PassedManifestTells(seg: SealReady, previous: Option<PreviousSealed>, at: string, valid: SchemaCheck, plan: Plan)
    requires Passes(seg, previous, at, valid, plan)
    ensures TakesOver(plan.manifest.core, seg, at) && NamesBefore(plan.manifest.core, previous)
    ensures HashesRunOn(plan.manifest.core, seg.objects,
      if seg.segmentSequence == 0 then Hash(Zero) else previous.value.head.lastRowHash)
    ensures plan.chained.objects != [] && plan.head.segmentId == seg.segmentId && plan.head.segmentSequence == seg.segmentSequence
  {
    var boundary := BoundaryOf(seg, previous);
    assert Coherent(plan.chained) && plan.chained.objects != [];
    ChainKeepsLength(seg.objects, boundary);
    ChainFromLinks(seg.objects, boundary);
    ChainRunsOn(seg, boundary, plan.manifest.core);
  }
}

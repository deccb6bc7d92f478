/**
 What the verifier accepts, written out down to the bytes that are hashed: the checks of
 packages/verifier/src/verify.ts as one list of conditions on the segments in order.
 */
module Verdicts {
  import opened Outcomes
  import opened Digests
  import opened Canonical
  import opened CceModel
  import opened ManifestModel
  import opened ManifestBuilder
  import opened SegmentChain
  import opened CrossSegment
  import opened Verifier
  import opened Continuity
  import opened TamperEvidence
  import CanonicalReading

  // ---------- one segment ----------

  /** What a row hash runs on from: the hash an object names, or zero. */
  function RowBefore(c: Cce): HashText {
    if c.evidence.prevRowHash.Some? then c.evidence.prevRowHash.value else Hash(Zero)
  }

  /** Object i carries the hash of its content, its row hash runs on from the object before, and the lists say so at place i. */
  ghost predicate ObjectStands(m: ManifestCore, objects: seq<Cce>, i: nat)
    requires i < |objects| == |m.objectList| == |m.objectHashList|
  {
    var c := objects[i];
    && Serialize(c.core).Ok? && c.evidence.eventHash == Hash(Sha256(Serialize(c.core).value))
    && RowBefore(c).Hash? && c.evidence.rowHash == Hash(Sha256([Token(RowBefore(c).d), Token(c.evidence.eventHash.d)]))
    && (i > 0 ==> c.evidence.prevRowHash == Some(objects[i - 1].evidence.rowHash))
    && m.objectList[i].seqNo == i && StringOf(Field(c.core, "envelope_id")) == Some(m.objectList[i].objectId)
    && m.objectHashList[i] == ObjectHash(i, c.evidence.eventHash, c.evidence.rowHash)
  }

  /** The manifest has the hash of its fields, meets the schema, and counts and ends are those of its objects. */
  ghost predicate ManifestStands(s: VerifierSegment, valid: SchemaCheck) {
    var m, n := s.manifest.core, |s.objects|;
    && n > 0 && m.eventCount == |m.objectList| == |m.objectHashList| == n
    && m.firstEnvelopeId == m.objectList[0].objectId && m.lastEnvelopeId == m.objectList[n - 1].objectId
    && m.firstRowHash == s.objects[0].evidence.rowHash && m.lastRowHash == s.objects[n - 1].evidence.rowHash
    && valid(s.manifest)
    && Serialize(Obj(ManifestFields(m))).Ok? && s.manifest.manifestHash == Hash(Sha256(Serialize(Obj(ManifestFields(m))).value))
  }

  ghost predicate SegmentStands(s: VerifierSegment, valid: SchemaCheck) {
    && ManifestStands(s, valid)
    && forall i | 0 <= i < |s.objects| :: ObjectStands(s.manifest.core, s.objects, i)
  }

  lemma SoundIsOutright(c: Cce)
    ensures Sound(c) <==>
      && Serialize(c.core).Ok? && c.evidence.eventHash == Hash(Sha256(Serialize(c.core).value))
      && RowBefore(c).Hash? && c.evidence.rowHash == Hash(Sha256([Token(RowBefore(c).d), Token(c.evidence.eventHash.d)]))
  {
    CanonicalReading.SerializableIffMeaningful(c.core);
  }

  lemma ObjectsStandIff(m: ManifestCore, objects: seq<Cce>, i: nat)
    requires i < |objects| == |m.objectList| == |m.objectHashList|
    ensures ObjectStands(m, objects, i) <==>
      Sound(objects[i]) && LinksBack(objects, i) && Describes(m.objectList, m.objectHashList, objects, i)
  {
    SoundIsOutright(objects[i]);
  }

  predicate ListsEvery(s: VerifierSegment) {
    s.objects != [] && |s.objects| == |s.manifest.core.objectList| == |s.manifest.core.objectHashList|
  }

  lemma ObjectsIff(s: VerifierSegment)
    requires ListsEvery(s)
    ensures ChainHolds(ChainOf(s)) <==> forall i | 0 <= i < |s.objects| :: ObjectStands(s.manifest.core, s.objects, i)
  {
    var c := ChainOf(s);
    forall i | 0 <= i < |s.objects|
      ensures ObjectStands(s.manifest.core, s.objects, i) <==>
        Sound(c.objects[i]) && LinksBack(c.objects, i) && Describes(c.refs, c.hashes, c.objects, i)
    {
      ObjectsStandIff(s.manifest.core, s.objects, i);
    }
  }

  lemma EndsIff(s: VerifierSegment)
    requires ListsEvery(s) && ChainHolds(ChainOf(s))
    ensures
      var m, n := s.manifest.core, |s.objects|;
      EndsMatch(m.firstEnvelopeId, m.lastEnvelopeId, m.firstRowHash, m.lastRowHash, m.objectList, m.objectHashList) <==>
        && m.firstEnvelopeId == m.objectList[0].objectId && m.lastEnvelopeId == m.objectList[n - 1].objectId
        && m.firstRowHash == s.objects[0].evidence.rowHash && m.lastRowHash == s.objects[n - 1].evidence.rowHash
  {
    var c, n := ChainOf(s), |s.objects|;
    assert Describes(c.refs, c.hashes, c.objects, 0) && Describes(c.refs, c.hashes, c.objects, n - 1);
  }

  lemma ManifestIff(s: VerifierSegment, valid: SchemaCheck)
    requires ListsEvery(s) && ChainHolds(ChainOf(s))
    ensures ManifestHolds(s, valid) <==> ManifestStands(s, valid)
  {
    EndsIff(s);
  }

  /** A segment passes checks 1 to 3 exactly when it stands. */
  lemma SegmentStandsIff(s: VerifierSegment, valid: SchemaCheck)
    ensures SegmentAccepted(s, valid) <==> SegmentStands(s, valid)
  {
    if ListsEvery(s) {
      ObjectsIff(s);
      if ChainHolds(ChainOf(s)) {
        ManifestIff(s, valid);
      }
    }
  }

  // ---------- the link between two ----------

  /** One database, the next number, the predecessor named by id, number and segment hash, and its last row hash continued. */
  ghost predicate ComesAfter(s: VerifierSegment, before: VerifierSegment) {
    var m, p := s.manifest.core, before.manifest;
    && m.dbId == p.core.dbId && m.segmentSequence == p.core.segmentSequence + 1
    && (exists head :: DeriveSegmentHead(p) == Ok(head)
          && m.previous == Some(PreviousRef(p.core.segmentId, p.core.segmentSequence, head.segmentHash)))
    && s.objects != [] && s.objects[0].evidence.prevRowHash == Some(p.core.lastRowHash)
  }

  lemma FollowsIff(sorted: seq<VerifierSegment>, i: nat, valid: SchemaCheck)
    requires 1 <= i < |sorted| && SegmentStands(sorted[i - 1], valid) && SegmentStands(sorted[i], valid)
    requires Sequence(sorted[i]) != 0
    ensures FollowsAt(sorted, i) <==> ComesAfter(sorted[i], sorted[i - 1])
  {
    var m, p := sorted[i].manifest.core, sorted[i - 1].manifest;
    var n := |sorted[i - 1].objects|;
    assert ObjectStands(p.core, sorted[i - 1].objects, n - 1);
    assert p.core.lastRowHash.Hash?;
    assert SegmentHashOf(p).Ok? <==> DeriveSegmentHead(p).Ok?;
    assert SegmentHashOf(p).Ok? ==> DeriveSegmentHead(p).value.segmentHash == SegmentHashOf(p).value;
  }

  ghost predicate StandAndCount(sorted: seq<VerifierSegment>, valid: SchemaCheck) {
    forall i | 0 <= i < |sorted| :: sorted[i].manifest.core.segmentSequence == i && SegmentStands(sorted[i], valid)
  }

  ghost predicate ComeInOrder(sorted: seq<VerifierSegment>) {
    forall i | 1 <= i < |sorted| :: ComesAfter(sorted[i], sorted[i - 1])
  }

  /**
   Checks 1 to 5 accept exactly the segments that, put in order, are numbered from 0 to the end of the
   scope, stand one by one and come one after the other, the first naming no predecessor.
   */
  lemma AcceptedIff(segments: seq<VerifierSegment>, last: int, valid: SchemaCheck)
    ensures Accepted(segments, last, valid) <==>
      var sorted := SortBySequence(segments);
      && sorted != [] && |segments| == last + 1 && StandAndCount(sorted, valid)
      && sorted[0].manifest.core.previous.None? && ComeInOrder(sorted)
  {
    AcceptedIsChain(segments, last, valid);
    ChainIff(SortBySequence(segments), valid);
  }

  lemma ChainIff(sorted: seq<VerifierSegment>, valid: SchemaCheck)
    ensures Chain(sorted, valid) <==>
      sorted != [] && StandAndCount(sorted, valid) && sorted[0].manifest.core.previous.None? && ComeInOrder(sorted)
  {
    CountedIff(sorted, valid);
    if StandAndCount(sorted, valid) {
      LinksIff(sorted, valid);
    }
  }

  lemma CountedIff(sorted: seq<VerifierSegment>, valid: SchemaCheck)
    ensures StandAndCount(sorted, valid) <==> Numbered(sorted, 0) && forall s | s in sorted :: SegmentAccepted(s, valid)
  {
    forall i | 0 <= i < |sorted| ensures SegmentAccepted(sorted[i], valid) <==> SegmentStands(sorted[i], valid) {
      SegmentStandsIff(sorted[i], valid);
    }
    assert (forall s | s in sorted :: SegmentAccepted(s, valid)) <==> forall i | 0 <= i < |sorted| :: SegmentAccepted(sorted[i], valid);
  }

  lemma LinksIff(sorted: seq<VerifierSegment>, valid: SchemaCheck)
    requires StandAndCount(sorted, valid)
    ensures ComeInOrder(sorted) <==> forall i {:trigger FollowsAt(sorted, i)} | 1 <= i < |sorted| :: FollowsAt(sorted, i)
  {
    forall i | 1 <= i < |sorted| ensures FollowsAt(sorted, i) <==> ComesAfter(sorted[i], sorted[i - 1]) {
      FollowsIff(sorted, i, valid);
    }
  }

  // ---------- check 6 ----------

  /** Summary and objects deny a gap, and the offset range is that of the objects. */
  ghost predicate DeniesGaps(s: VerifierSegment) {
    var m, n := s.manifest.core, |s.objects|;
    && n > 0 && !m.completeness.gapDetected && m.completeness.expectedContinuous
    && ConsumedOffsetKey(s.objects[0]) == Some(m.offsets.firstOffsetKey)
    && ConsumedOffsetKey(s.objects[n - 1]) == Some(m.offsets.lastOffsetKey)
    && forall j | 0 <= j < n :: GapDetected(s.objects[j]) == Some(false)
  }

  /** Check 6 passes exactly when every segment denies gaps and none starts at the offset the one before ended with. */
  lemma NoMissingEventIff(sorted: seq<VerifierSegment>)
    ensures NoMissingEvent(sorted) <==>
      && (forall i | 0 <= i < |sorted| :: DeniesGaps(sorted[i]))
      && forall i | 1 <= i < |sorted| ::
           sorted[i].manifest.core.offsets.firstOffsetKey != sorted[i - 1].manifest.core.offsets.lastOffsetKey
  {
    forall i | 0 <= i < |sorted| ensures Corroborated(sorted[i]) <==> DeniesGaps(sorted[i]) {
    }
    forall i | 1 <= i < |sorted|
      ensures ReusesOffset(sorted, i) <==>
        sorted[i].manifest.core.offsets.firstOffsetKey == sorted[i - 1].manifest.core.offsets.lastOffsetKey
    {
    }
  }
}

/**
 The sealer and the verifier agree: what is sealed, segment after segment, is what the verifier
 accepts, and the sixth check answers exactly what the accumulator recorded.
 */
module SealedChains {
  import opened Outcomes
  import opened Digests
  import opened CceModel
  import opened ManifestModel
  import opened ManifestBuilder
  import opened SegmentChain
  import opened CrossSegment
  import opened Sorting
  import opened Verifier
  import opened Continuity
  import opened TamperEvidence
  import opened SealPlans
  import opened Sealing
  import opened Accumulation

  // ---------- what the verifier reads back ----------

  /** `withBackRefs`: the copy that is written, changed outside the hashed core only. */
  function WithBackRefs(c: Cce, key: string, segmentId: string): Cce {
    c.(evidence := c.evidence.(wormObjectKey := Some(key), segmentId := Some(segmentId)))
  }

  function WrittenObjects(seg: SealReady): seq<Cce> {
    seq(|seg.objects|, i requires 0 <= i < |seg.objects| =>
      WithBackRefs(seg.objects[i], EvidenceObjectKey(OrEmpty(DbId(seg.objects[i])), seg.segmentId, i), seg.segmentId))
  }

  /** A sealed segment as the verifier finds it. */
  function ReadBack(plan: Plan): VerifierSegment {
    VerifierSegment(plan.manifest, WrittenObjects(plan.chained))
  }

  lemma BackRefsAreUnhashed(c: Cce, key: string, segmentId: string)
    ensures Sound(WithBackRefs(c, key, segmentId)) <==> Sound(c)
    ensures EnvelopeId(WithBackRefs(c, key, segmentId)) == EnvelopeId(c)
  {
  }

  lemma WrittenChainHolds(seg: SealReady)
    requires ChainHolds(ChainInputOf(seg))
    ensures ChainHolds(ChainInput(seg.objectList, seg.objectHashList, WrittenObjects(seg)))
  {
    var c, w := ChainInputOf(seg), ChainInput(seg.objectList, seg.objectHashList, WrittenObjects(seg));
    forall i | 0 <= i < |w.objects|
      ensures Sound(w.objects[i]) && LinksBack(w.objects, i) && Describes(w.refs, w.hashes, w.objects, i)
    {
      assert Sound(c.objects[i]) && LinksBack(c.objects, i) && Describes(c.refs, c.hashes, c.objects, i);
      BackRefsAreUnhashed(c.objects[i], EvidenceObjectKey(OrEmpty(DbId(c.objects[i])), seg.segmentId, i), seg.segmentId);
    }
  }

  lemma BuiltManifestHolds(m: Manifest, seg: SealReady, at: string, previous: Option<PreviousRef>, valid: SchemaCheck)
    requires BuiltFrom(m, seg, at, previous, valid)
    ensures ManifestHolds(VerifierSegment(m, WrittenObjects(seg)), valid)
  {
    var w := WrittenObjects(seg);
    forall i | 0 <= i < |seg.objectList| ensures Describes(seg.objectList, seg.objectHashList, w, i) {
      assert Describes(seg.objectList, seg.objectHashList, seg.objects, i);
    }
  }

  /** Checks 1 to 3 accept every segment that was sealed. */
  lemma SealedIsAccepted(m: Manifest, seg: SealReady, at: string, previous: Option<PreviousRef>, valid: SchemaCheck)
    requires ChainHolds(ChainInputOf(seg)) && BuiltFrom(m, seg, at, previous, valid)
    ensures SegmentAccepted(VerifierSegment(m, WrittenObjects(seg)), valid)
  {
    WrittenChainHolds(seg);
    BuiltManifestHolds(m, seg, at, previous, valid);
  }

  lemma ChainedFromBoundary(seg: SealReady, boundary: HashText)
    requires seg.objects != [] && ChainFrom(seg.objects, boundary).Ok?
    ensures var chained := ChainFrom(seg.objects, boundary).value;
      |chained| == |seg.objects| && chained[0].evidence.prevRowHash == Some(boundary)
  {
    ChainFromLinks(seg.objects, boundary);
    assert ChainedAt(seg.objects, ChainFrom(seg.objects, boundary).value, boundary, 0);
  }

  lemma ReadBackBoundary(plan: Plan, seg: SealReady, boundary: HashText)
    requires ChainFrom(seg.objects, boundary).Ok? && plan.chained == WithChain(seg, ChainFrom(seg.objects, boundary).value)
    requires plan.chained.objects != []
    ensures FirstPrevRowHash(ReadBack(plan)) == boundary
  {
    if seg.objects != [] {
      ChainedFromBoundary(seg, boundary);
    }
  }

  // ---------- a run of seals ----------

  ghost predicate SealedAt(log: seq<Sealed>, i: nat, valid: SchemaCheck)
    requires i < |log|
  {
    Passes(log[i].seg, Before(log, i), log[i].at, valid, log[i].plan)
  }

  /** Each segment was sealed against the one sealed just before it. */
  ghost predicate SealedRun(log: seq<Sealed>, valid: SchemaCheck) {
    forall i {:trigger SealedAt(log, i, valid)} | 0 <= i < |log| :: SealedAt(log, i, valid)
  }

  /** What passing says about one segment read back. */
  ghost predicate Fits(read: VerifierSegment, previous: Option<Manifest>, valid: SchemaCheck) {
    && SegmentAccepted(read, valid)
    && (previous.None? ==> Sequence(read) == 0 && read.manifest.core.previous.None?)
    && (previous.Some? ==> Sequence(read) == previous.value.core.segmentSequence + 1)
    && (previous.Some? ==> Linked(read.manifest.core, FirstPrevRowHash(read), previous))
  }

  lemma PassedSequence(x: Sealed, previous: Option<PreviousSealed>, valid: SchemaCheck)
    requires Passes(x.seg, previous, x.at, valid, x.plan)
    ensures x.plan.manifest.core.segmentSequence == x.seg.segmentSequence
    ensures previous.None? ==> x.seg.segmentSequence == 0 && x.plan.manifest.core.previous.None?
    ensures previous.Some? ==> x.seg.segmentSequence == previous.value.manifest.core.segmentSequence + 1
  {
  }

  lemma PassedBoundary(x: Sealed, previous: Option<PreviousSealed>, valid: SchemaCheck)
    requires Passes(x.seg, previous, x.at, valid, x.plan)
    ensures FirstPrevRowHash(ReadBack(x.plan)) == BoundaryOf(x.seg, previous)
    ensures Linked(x.plan.manifest.core, FirstPrevRowHash(ReadBack(x.plan)), ManifestOf(previous))
  {
    ReadBackBoundary(x.plan, x.seg, BoundaryOf(x.seg, previous));
  }

  lemma PassedFits(x: Sealed, previous: Option<PreviousSealed>, valid: SchemaCheck)
    requires Passes(x.seg, previous, x.at, valid, x.plan)
    ensures Fits(ReadBack(x.plan), ManifestOf(previous), valid)
  {
    SealedIsAccepted(x.plan.manifest, x.plan.chained, x.at, RefTo(x.seg, previous), valid);
    PassedSequence(x, previous, valid);
    PassedBoundary(x, previous, valid);
  }

  function ReadAll(log: seq<Sealed>): seq<VerifierSegment> {
    seq(|log|, i requires 0 <= i < |log| => ReadBack(log[i].plan))
  }

  function ManifestBefore(all: seq<VerifierSegment>, i: nat): Option<Manifest>
    requires i <= |all|
  {
    if i == 0 then None else Some(all[i - 1].manifest)
  }

  ghost predicate FitsAt(all: seq<VerifierSegment>, i: nat, valid: SchemaCheck)
    requires i < |all|
  {
    Fits(all[i], ManifestBefore(all, i), valid)
  }

  lemma SameBefore(log: seq<Sealed>, i: nat)
    requires i < |log|
    ensures ReadAll(log)[i] == ReadBack(log[i].plan) && ManifestBefore(ReadAll(log), i) == ManifestOf(Before(log, i))
  {
  }

  lemma RunFits(log: seq<Sealed>, valid: SchemaCheck, i: nat)
    requires SealedRun(log, valid) && i < |log|
    ensures FitsAt(ReadAll(log), i, valid)
  {
    SameBefore(log, i);
    assert SealedAt(log, i, valid);
    PassedFits(log[i], Before(log, i), valid);
  }

  predicate CountsUp(all: seq<VerifierSegment>, i: nat)
    requires i < |all|
  {
    Sequence(all[i]) == if i == 0 then 0 else Sequence(all[i - 1]) + 1
  }

  lemma {:induction false} FittingIsNumbered(all: seq<VerifierSegment>, i: nat)
    requires i < |all| && forall j {:trigger CountsUp(all, j)} | 0 <= j < |all| :: CountsUp(all, j)
    ensures Sequence(all[i]) == i
  {
    assert CountsUp(all, i);
    if i > 0 {
      FittingIsNumbered(all, i - 1);
    }
  }

  lemma FitsCountsUp(all: seq<VerifierSegment>, i: nat, valid: SchemaCheck)
    requires i < |all| && FitsAt(all, i, valid)
    ensures CountsUp(all, i) && SegmentAccepted(all[i], valid)
  {
  }

  lemma FittingIsChain(all: seq<VerifierSegment>, valid: SchemaCheck)
    requires all != [] && forall j {:trigger FitsAt(all, j, valid)} | 0 <= j < |all| :: FitsAt(all, j, valid)
    ensures Chain(all, valid)
  {
    forall i {:trigger CountsUp(all, i)} | 0 <= i < |all| ensures CountsUp(all, i) && SegmentAccepted(all[i], valid) {
      FitsCountsUp(all, i, valid);
    }
    forall i | 0 <= i < |all| ensures Sequence(all[i]) == i && SegmentAccepted(all[i], valid) {
      FittingIsNumbered(all, i);
      assert CountsUp(all, i);
    }
    assert FitsAt(all, 0, valid);
    forall i {:trigger FollowsAt(all, i)} | 1 <= i < |all| ensures FollowsAt(all, i) {
      assert FitsAt(all, i, valid);
    }
  }

  /** A run read back is a chain, numbered 0, 1, 2, ... in the order of sealing. */
  lemma RunIsChain(log: seq<Sealed>, valid: SchemaCheck)
    requires SealedRun(log, valid) && log != []
    ensures Chain(ReadAll(log), valid)
  {
    var all := ReadAll(log);
    forall i {:trigger FitsAt(all, i, valid)} | 0 <= i < |all| ensures FitsAt(all, i, valid) {
      RunFits(log, valid, i);
    }
    FittingIsChain(all, valid);
  }

  /**
   Whatever was sealed in one run, handed to the verifier in any order, passes checks 1 to 5 with
   the scope that starts at 0 and ends at the last segment.
   */
  lemma SealedRunIsAccepted(log: seq<Sealed>, segments: seq<VerifierSegment>, valid: SchemaCheck)
    requires SealedRun(log, valid) && log != [] && multiset(segments) == multiset(ReadAll(log))
    ensures Accepted(segments, |log| - 1, valid)
  {
    RunIsChain(log, valid);
    NumberedSorts(ReadAll(log), segments);
    assert |segments| == |multiset(segments)| == |ReadAll(log)|;
    AcceptedIsChain(segments, |log| - 1, valid);
  }

  lemma NumberedIsSorted(all: seq<VerifierSegment>)
    requires Numbered(all, 0)
    ensures Sorted(BySequence, all) && TellsApart(BySequence, all)
  {
    forall i, j | 0 <= i < |all| && 0 <= j < |all| ensures BySequence(all[i], all[j]) == i - j {
      assert Sequence(all[i]) == i && Sequence(all[j]) == j;
    }
  }

  lemma NumberedSorts(all: seq<VerifierSegment>, segments: seq<VerifierSegment>)
    requires Numbered(all, 0) && multiset(segments) == multiset(all)
    ensures SortBySequence(segments) == all
  {
    BySequenceIsConsistent();
    NumberedIsSorted(all);
    SortForgetsOrder(BySequence, all, segments);
    SortOfSorted(BySequence, all);
  }

  // ---------- check 6 ----------

  /** Segment i starts at the offset its predecessor ended with. */
  ghost predicate Reuses(log: seq<Sealed>, i: nat)
    requires 1 <= i < |log|
  {
    log[i].seg.offsets.firstOffsetKey == log[i - 1].seg.offsets.lastOffsetKey
  }

  lemma ChainCores(objects: seq<Cce>, boundary: HashText, chained: seq<Cce>)
    requires objects != [] && ChainFrom(objects, boundary) == Ok(chained)
    ensures |chained| == |objects| && forall i | 0 <= i < |objects| :: chained[i].core == objects[i].core
  {
    ChainFromLinks(objects, boundary);
    forall i | 0 <= i < |objects| ensures chained[i].core == objects[i].core {
      assert ChainedAt(objects, chained, boundary, i);
    }
  }

  lemma SameReads(seg: SealReady, plan: Plan, boundary: HashText)
    requires ChainFrom(seg.objects, boundary).Ok? && plan.chained == WithChain(seg, ChainFrom(seg.objects, boundary).value)
    requires seg.objects != []
    ensures |ReadBack(plan).objects| == |seg.objects|
    ensures forall i | 0 <= i < |seg.objects| :: ReadBack(plan).objects[i].core == seg.objects[i].core
  {
    ChainCores(seg.objects, boundary, ChainFrom(seg.objects, boundary).value);
  }

  ghost predicate AllClear(objects: seq<Cce>) {
    forall j | 0 <= j < |objects| :: GapDetected(objects[j]) == Some(false)
  }

  /** A summary and offset range taken from these objects are corroborated by objects with the same cores. */
  lemma CorroboratedMeans(read: VerifierSegment, objects: seq<Cce>, db: string)
    requires objects != [] && |read.objects| == |objects|
    requires forall i | 0 <= i < |objects| :: read.objects[i].core == objects[i].core && AdmittedFor(objects[i], db)
    requires read.manifest.core.completeness == CompletenessSummary(AnyGap(objects), !AnyGap(objects), [])
    requires read.manifest.core.offsets == OffsetsOf(objects)
    ensures Corroborated(read) <==> AllClear(objects)
  {
    var n := |objects|;
    assert AdmittedFor(objects[0], db) && AdmittedFor(objects[n - 1], db);
    assert read.objects[0].core == objects[0].core && read.objects[n - 1].core == objects[n - 1].core;
    forall j | 0 <= j < n ensures GapDetected(read.objects[j]) == GapDetected(objects[j]) {
      assert read.objects[j].core == objects[j].core;
    }
  }

  lemma PassedCorroborated(x: Sealed, previous: Option<PreviousSealed>, caps: Caps, valid: SchemaCheck)
    requires Passes(x.seg, previous, x.at, valid, x.plan) && WellClosed(caps, x.seg)
    ensures Corroborated(ReadBack(x.plan)) <==> AllClear(x.seg.objects)
    ensures ReadBack(x.plan).manifest.core.offsets == x.seg.offsets
  {
    SameReads(x.seg, x.plan, BoundaryOf(x.seg, previous));
    CorroboratedMeans(ReadBack(x.plan), x.seg.objects, x.seg.dbId);
  }

  lemma RunCorroborated(log: seq<Sealed>, caps: Caps, valid: SchemaCheck, i: nat)
    requires SealedRun(log, valid) && i < |log| && WellClosed(caps, log[i].seg)
    ensures Corroborated(ReadAll(log)[i]) <==> AllClear(log[i].seg.objects)
    ensures ReadAll(log)[i].manifest.core.offsets == log[i].seg.offsets
  {
    assert SealedAt(log, i, valid);
    PassedCorroborated(log[i], Before(log, i), caps, valid);
  }

  lemma RunSorts(log: seq<Sealed>, segments: seq<VerifierSegment>, valid: SchemaCheck)
    requires SealedRun(log, valid) && multiset(segments) == multiset(ReadAll(log))
    ensures SortBySequence(segments) == ReadAll(log)
  {
    if log != [] {
      RunIsChain(log, valid);
      NumberedSorts(ReadAll(log), segments);
    } else {
      assert |segments| == |multiset(segments)| == 0;
    }
  }

  /**
   Given a sealed run in any order, the verifier reports a missing event exactly when an object
   does not deny a gap or a segment starts at the offset its predecessor ended with.
   */
  lemma NoMissingEventIsExact(log: seq<Sealed>, segments: seq<VerifierSegment>, caps: Caps, valid: SchemaCheck)
    requires SealedRun(log, valid) && multiset(segments) == multiset(ReadAll(log))
    requires forall i | 0 <= i < |log| :: WellClosed(caps, log[i].seg)
    ensures NoMissingEvent(SortBySequence(segments)) <==>
      && (forall i | 0 <= i < |log| :: AllClear(log[i].seg.objects))
      && forall i {:trigger Reuses(log, i)} | 1 <= i < |log| :: !Reuses(log, i)
  {
    var all := ReadAll(log);
    RunSorts(log, segments, valid);
    forall i | 0 <= i < |log|
      ensures Corroborated(all[i]) <==> AllClear(log[i].seg.objects)
      ensures all[i].manifest.core.offsets == log[i].seg.offsets
    {
      RunCorroborated(log, caps, valid, i);
    }
    assert forall i {:trigger Reuses(log, i)} | 1 <= i < |log| :: ReusesOffset(all, i) <==> Reuses(log, i);
    assert forall i {:trigger ReusesOffset(all, i)} | 1 <= i < |log| :: ReusesOffset(all, i) <==> Reuses(log, i);
  }

  // ---------- what only the sealer establishes ----------

  /** A sealed genesis segment starts at the all-zero hash. */
  lemma SealedGenesisStartsAtZero(log: seq<Sealed>, valid: SchemaCheck)
    requires SealedRun(log, valid) && log != []
    ensures FirstPrevRowHash(ReadBack(log[0].plan)) == GENESIS_ROW_HASH
  {
    assert SealedAt(log, 0, valid);
    PassedBoundary(log[0], None, valid);
  }

  /** The verifier does not check that: a genesis segment chained from any other hash is accepted as well. */
  lemma AnyGenesisBoundaryIsAccepted(seg: SealReady, boundary: HashText, at: string, m: Manifest, valid: SchemaCheck)
    requires seg.segmentSequence == 0 && ChainFrom(seg.objects, boundary).Ok?
    requires var chained := WithChain(seg, ChainFrom(seg.objects, boundary).value);
      ChainHolds(ChainInputOf(chained)) && BuiltFrom(m, chained, at, None, valid)
    ensures var chained := WithChain(seg, ChainFrom(seg.objects, boundary).value);
      var read := VerifierSegment(m, WrittenObjects(chained));
      Accepted([read], 0, valid) && FirstPrevRowHash(read) == boundary
  {
    var chained := WithChain(seg, ChainFrom(seg.objects, boundary).value);
    var read := VerifierSegment(m, WrittenObjects(chained));
    SealedIsAccepted(m, chained, at, None, valid);
    ReadBackBoundary(Plan(chained, m, SegmentHead("", "", 0, boundary, boundary)), seg, boundary);
    OneIsAccepted(read, valid);
  }

  lemma OneIsAccepted(read: VerifierSegment, valid: SchemaCheck)
    requires SegmentAccepted(read, valid) && Sequence(read) == 0 && read.manifest.core.previous.None?
    ensures Accepted([read], 0, valid)
  {
    NumberedSorts([read], [read]);
    assert Chain([read], valid);
    AcceptedIsChain([read], 0, valid);
  }
}

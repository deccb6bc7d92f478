/** The service with the real checks and keys, seen by the independent verifier. */
module ServiceVerified {
  import opened Outcomes
  import opened CceModel
  import opened ManifestBuilder
  import opened SealPlans
  import opened Sealing
  import opened SealedChains
  import opened TamperEvidence
  import opened Verifier
  import opened Continuity
  import opened EvidenceWriting
  import opened Service
  import opened StoreKeys
  import Accumulation
  import SealCondition

  ghost function RealPasses(valid: SchemaCheck): Passing {
    (seg, previous, at, plan) => Passes(seg, previous, at, valid, plan)
  }

  lemma RealPassesAreLawful(valid: SchemaCheck)
    ensures Lawful(RealPasses(valid))
  {
    forall seg, previous, at, plan | RealPasses(valid)(seg, previous, at, plan)
      ensures plan.manifest.core.segmentSequence == seg.segmentSequence
      ensures previous.None? ==> seg.segmentSequence == 0
      ensures previous.Some? ==> seg.segmentSequence == previous.value.manifest.core.segmentSequence + 1
    {
      PassedSequence(Sealed(seg, at, plan), previous, valid);
    }
  }

  lemma PreparedKey(c: Cce, segmentId: string, n: nat, check: CceCheck)
    requires Prepare(c, segmentId, n, check).Ok?
    ensures Prepare(c, segmentId, n, check).value.key == Accumulation.EvidenceObjectKey(OrEmpty(DbId(c)), segmentId, n)
  {
  }

  /** Sealing changes neither the names in a segment nor the hashed part of its objects. */
  lemma PassingKeepsNames(seg: SealReady, previous: Option<PreviousSealed>, at: string, valid: SchemaCheck, plan: Plan)
    requires Passes(seg, previous, at, valid, plan) && seg.objects != []
    ensures plan.chained.objectList == seg.objectList && |plan.chained.objects| == |seg.objects|
    ensures plan.chained.dbId == seg.dbId && plan.chained.segmentId == seg.segmentId
    ensures forall i | 0 <= i < |seg.objects| :: plan.chained.objects[i].core == seg.objects[i].core
  {
    var boundary := BoundaryOf(seg, previous);
    ChainCores(seg.objects, boundary, ChainFrom(seg.objects, boundary).value);
  }

  lemma ListedKeys(caps: Accumulation.Caps, seg: SealReady, i: nat)
    requires Accumulation.WellClosed(caps, seg) && i < |seg.objects|
    ensures |seg.objectList| == |seg.objects| && seg.segmentSequence >= 0
    ensures seg.objectList[i].wormObjectKey == SlotKey(seg.dbId, ObjectSlot(seg.segmentSequence, i))
    ensures ManifestObjectKey(seg.dbId, seg.segmentId) == SlotKey(seg.dbId, ManifestSlot(seg.segmentSequence))
    ensures seg.segmentId == Accumulation.SegmentId(seg.segmentSequence)
  {
  }

  lemma ListedObject(caps: Accumulation.Caps, seg: SealReady, i: nat)
    requires Accumulation.WellClosed(caps, seg) && i < |seg.objects|
    ensures DbId(seg.objects[i]) == Some(seg.dbId)
  {
    assert Accumulation.AdmittedFor(seg.objects[i], seg.dbId);
  }

  /** The keys the sealer writes to are the places of the state machine, and those the manifest lists. */
  lemma SealerWritesToSlots(caps: Accumulation.Caps, seg: SealReady, previous: Option<PreviousSealed>, at: string,
                            valid: SchemaCheck, plan: Plan, check: CceCheck, i: nat)
    requires Accumulation.WellClosed(caps, seg) && Passes(seg, previous, at, valid, plan) && i < |seg.objects|
    ensures |plan.chained.objects| == |plan.chained.objectList| == |seg.objects| && seg.segmentSequence >= 0
    ensures plan.chained.objectList[i].wormObjectKey == SlotKey(seg.dbId, ObjectSlot(seg.segmentSequence, i))
    ensures var p := Prepare(plan.chained.objects[i], plan.chained.segmentId, i, check);
      p.Ok? ==> p.value.key == SlotKey(seg.dbId, ObjectSlot(seg.segmentSequence, i))
    ensures ManifestObjectKey(plan.chained.dbId, plan.chained.segmentId) == SlotKey(seg.dbId, ManifestSlot(seg.segmentSequence))
  {
    ListedKeys(caps, seg, i);
    ListedObject(caps, seg, i);
    PassingKeepsNames(seg, previous, at, valid, plan);
    SlotOfPrepared(seg.dbId, plan.chained.objects[i], seg.segmentSequence, i, check);
  }

  lemma SlotOfPrepared(db: string, c: Cce, n: nat, i: nat, check: CceCheck)
    requires DbId(c) == Some(db)
    ensures var p := Prepare(c, Accumulation.SegmentId(n), i, check); p.Ok? ==> p.value.key == SlotKey(db, ObjectSlot(n, i))
  {
    if Prepare(c, Accumulation.SegmentId(n), i, check).Ok? {
      PreparedKey(c, Accumulation.SegmentId(n), i, check);
    }
  }

  lemma SealedByIsSealedRun(cfg: Config, log: seq<Sealed>, valid: SchemaCheck)
    requires cfg.passes == RealPasses(valid) && SealedBy(cfg, log)
    ensures SealedRun(log, valid)
  {
    forall i {:trigger SealedAt(log, i, valid)} | 0 <= i < |log| ensures SealedAt(log, i, valid) {
      assert PassedAt(cfg, log, i);
    }
  }

  lemma SealedSegments(cfg: Config, actions: seq<Action>, valid: SchemaCheck)
    requires cfg.passes == RealPasses(valid) && cfg.caps.maxEvents >= 1 && Reach(cfg, actions).Some?
    ensures SealedRun(Reach(cfg, actions).value.log, valid)
    ensures forall i | 0 <= i < |Reach(cfg, actions).value.log| ::
      Accumulation.WellClosed(cfg.caps, Reach(cfg, actions).value.log[i].seg)
  {
    RealPassesAreLawful(valid);
    RunsAreFailClosed(cfg, actions);
    EveryRunHolds(cfg, actions);
    var s := Reach(cfg, actions).value;
    SealedByIsSealedRun(cfg, s.log, valid);
    forall i | 0 <= i < |s.log| ensures Accumulation.WellClosed(cfg.caps, s.log[i].seg) {
      assert s.history.emitted[i] in s.history.closed;
    }
  }

  lemma LogVerifies(log: seq<Sealed>, segments: seq<VerifierSegment>, caps: Accumulation.Caps, valid: SchemaCheck)
    requires SealedRun(log, valid) && forall i | 0 <= i < |log| :: Accumulation.WellClosed(caps, log[i].seg)
    requires multiset(segments) == multiset(ReadAll(log))
    ensures log != [] ==> Accepted(segments, |log| - 1, valid)
    ensures NoMissingEvent(SortBySequence(segments)) <==> NothingMissing(log)
  {
    NoMissingEventIsExact(log, segments, caps, valid);
    if log != [] {
      SealedRunIsAccepted(log, segments, valid);
    }
  }

  /** Every sealed object denies a gap and no segment starts at the offset its predecessor ended with. */
  ghost predicate NothingMissing(log: seq<Sealed>) {
    && (forall i | 0 <= i < |log| :: AllClear(log[i].seg.objects))
    && forall i {:trigger Reuses(log, i)} | 1 <= i < |log| :: !Reuses(log, i)
  }

  /**
   At every moment of every interleaved run, what has been sealed, handed over in any order, passes
   the verifier's checks 1 to 5 with the scope [0, k], and its sixth check answers exactly whether
   nothing is missing.
   */
  lemma EveryRunVerifies(cfg: Config, actions: seq<Action>, segments: seq<VerifierSegment>, valid: SchemaCheck)
    requires cfg.passes == RealPasses(valid) && cfg.caps.maxEvents >= 1 && Reach(cfg, actions).Some?
    requires multiset(segments) == multiset(ReadAll(Reach(cfg, actions).value.log))
    ensures var log := Reach(cfg, actions).value.log;
      && (log != [] ==> Accepted(segments, |log| - 1, valid))
      && (NoMissingEvent(SortBySequence(segments)) <==> NothingMissing(log))
  {
    SealedSegments(cfg, actions, valid);
    LogVerifies(Reach(cfg, actions).value.log, segments, cfg.caps, valid);
  }

  // ---------- which segment can be sealed next ----------

  /** Whatever was sealed can serve as the predecessor of the next seal. */
  lemma PredecessorWasSealed(log: seq<Sealed>, valid: SchemaCheck, i: nat)
    requires SealedRun(log, valid) && i <= |log|
    ensures SealCondition.WasSealed(Before(log, i))
  {
    if i > 0 {
      assert SealedAt(log, i - 1, valid);
      SealCondition.PassedWasSealed(log[i - 1].seg, Before(log, i - 1), log[i - 1].at, valid, log[i - 1].plan);
    }
  }

  lemma PreviousWasSealed(cfg: Config, actions: seq<Action>, valid: SchemaCheck)
    requires cfg.passes == RealPasses(valid) && cfg.caps.maxEvents >= 1 && Reach(cfg, actions).Some?
    ensures SealCondition.WasSealed(Reach(cfg, actions).value.previous)
  {
    SealedSegments(cfg, actions, valid);
    RealPassesAreLawful(valid);
    EveryRunHolds(cfg, actions);
    var s := Reach(cfg, actions).value;
    PredecessorWasSealed(s.log, valid, |s.log|);
    if |s.log| > 0 {
      PredecessorWasSealed(s.log, valid, |s.log| - 1);
    }
  }

  lemma EmittedIsWellClosed(cfg: Config, actions: seq<Action>, valid: SchemaCheck, n: nat)
    requires cfg.passes == RealPasses(valid) && cfg.caps.maxEvents >= 1 && Reach(cfg, actions).Some?
    requires n < |Reach(cfg, actions).value.history.emitted|
    ensures Accumulation.WellClosed(cfg.caps, Reach(cfg, actions).value.history.emitted[n])
  {
    RealPassesAreLawful(valid);
    EveryRunHolds(cfg, actions);
    var s := Reach(cfg, actions).value;
    assert s.history.emitted[n] in s.history.closed;
  }

  /**
   In every reachable state an emitted segment passes its checks if and only if it comes next after
   the recorded predecessor, every object carries the hash of its content, and its manifest builds.
   */
  lemma NextPassesIff(cfg: Config, actions: seq<Action>, valid: SchemaCheck, n: nat, at: string)
    requires cfg.passes == RealPasses(valid) && cfg.caps.maxEvents >= 1 && Reach(cfg, actions).Some?
    requires n < |Reach(cfg, actions).value.history.emitted|
    ensures var s := Reach(cfg, actions).value; var seg := s.history.emitted[n];
      && ChainFrom(seg.objects, BoundaryOf(seg, s.previous)).Ok?
      && ((exists plan :: cfg.passes(seg, s.previous, at, plan)) <==>
            SealCondition.ComesNext(seg, s.previous) && SealCondition.EventsSound(seg.objects)
            && SealCondition.ManifestBuilds(SealCondition.ChainedSegment(seg, s.previous), at, RefTo(seg, s.previous), valid))
  {
    PreviousWasSealed(cfg, actions, valid);
    EmittedIsWellClosed(cfg, actions, valid, n);
    var s := Reach(cfg, actions).value;
    SealCondition.SegmentPassesIff(cfg.caps, s.history.emitted[n], s.previous, at, valid);
    var seg := s.history.emitted[n];
    assert forall plan :: cfg.passes(seg, s.previous, at, plan) <==> Passes(seg, s.previous, at, valid, plan);
  }
}

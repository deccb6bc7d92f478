/**
 Tamper evidence: what the verifier accepts is fixed by the last segment hash.  A chain is
 accepted when it passes checks 1 to 5 over a scope that starts at sequence 0.
 */
module TamperEvidence {
  import opened Outcomes
  import opened Digests
  import opened Canonical
  import opened CceModel
  import opened ManifestModel
  import opened ManifestSerialization
  import opened ManifestBuilder
  import opened SegmentChain
  import opened CrossSegment
  import opened Sorting
  import opened Verifier
  import opened Continuity

  /** Checks 1 to 3 on one segment. */
  ghost predicate SegmentAccepted(s: VerifierSegment, valid: SchemaCheck) {
    ChainHolds(ChainOf(s)) && ManifestHolds(s, valid)
  }

  /** Checks 1 to 5 over the scope [0, last]. */
  ghost predicate Accepted(segments: seq<VerifierSegment>, last: int, valid: SchemaCheck) {
    && (forall s | s in segments :: SegmentAccepted(s, valid))
    && Contiguous(segments, 0, last)
    && forall i | 0 <= i < |SortBySequence(segments)| :: LinkedAt(SortBySequence(segments), i)
  }

  /** `aggregate` of checks 1 to 3 over all segments. */
  method RunSegmentChecks(segments: seq<VerifierSegment>, valid: SchemaCheck) returns (r: Result<bool>)
    ensures r.Ok? ==> (r.value <==> forall s | s in segments :: SegmentAccepted(s, valid))
    ensures r.Err? <==> exists s :: s in segments && !SafeNumbers(s.manifest.core)
  {
    var allPass := true;
    var i := 0;
    while i < |segments|
      invariant 0 <= i <= |segments|
      invariant allPass <==> forall s | s in segments[..i] :: SegmentAccepted(s, valid)
      invariant forall s | s in segments[..i] :: SafeNumbers(s.manifest.core)
    {
      assert segments[i] in segments;
      var one := RunOne(segments[i], valid);
      if one.Err? {
        return Err(one.error);
      }
      assert segments[..i + 1] == segments[..i] + [segments[i]];
      allPass := allPass && one.value;
      i := i + 1;
    }
    assert segments[..i] == segments;
    r := Ok(allPass);
  }

  method RunOne(s: VerifierSegment, valid: SchemaCheck) returns (r: Result<bool>)
    ensures r.Ok? ==> (r.value <==> SegmentAccepted(s, valid))
    ensures r.Err? <==> !SafeNumbers(s.manifest.core)
  {
    ManifestHashesIffSafe(s.manifest.core);
    var one := RecomputeSegment(s, valid);
    r := if one.Err? then Err(one.error)
         else Ok(one.value.perObjectHash.PASS? && one.value.objectChain.PASS? && one.value.segmentManifest.PASS?);
  }

  /** The sets of segments on which a check throws: an unsafe number, or a predecessor that cannot be hashed. */
  ghost predicate Crashes(segments: seq<VerifierSegment>) {
    || (exists s :: s in segments && !SafeNumbers(s.manifest.core))
    || exists i | 0 <= i < |segments| :: ThrowsAt(SortBySequence(segments), i)
  }

  /** Running the five checks answers exactly whether a set of segments is accepted, or throws. */
  method RunChecks(segments: seq<VerifierSegment>, last: int, valid: SchemaCheck) returns (r: Result<bool>)
    ensures r.Err? <==> Crashes(segments)
    ensures r.Ok? ==> (r.value <==> Accepted(segments, last, valid))
  {
    var each := RunSegmentChecks(segments, valid);
    if each.Err? {
      return each;
    }
    var cross := RecomputeCrossSegment(segments);
    if cross.Err? {
      return Err(cross.error);
    }
    var missing := RecomputeNoMissingSegment(segments, 0, last);
    r := Ok(each.value && cross.value.PASS? && missing.PASS?);
  }

  // ---------- an input on which the verifier throws ----------

  /** A manifest with this number and predecessor, otherwise empty. */
  function BareManifest(n: int, previous: Option<PreviousRef>): Manifest {
    Manifest(
      ManifestCore("seg", "db", "mysql", n, "", "", 0, "", "", Hash(Zero), Hash(Zero), [], [], OffsetRange("", "", None),
                   FidelitySummary(true, 0, 0, []), CompletenessSummary(false, true, []), previous),
      Hash(Zero))
  }

  /** Segment 2 names a predecessor, and segment 1 names none although it is not the first. */
  function CrashingInput(): seq<VerifierSegment> {
    [VerifierSegment(BareManifest(1, None), []),
     VerifierSegment(BareManifest(2, Some(PreviousRef("seg", 1, Hash(Zero)))), [])]
  }

  lemma TheVerifierCanThrow()
    ensures Crashes(CrashingInput())
  {
    var s := CrashingInput();
    assert s[1..] == [s[1]] && s[1..][1..] == [] && [s[0]] + [s[1]] == s;
    assert SortBySequence([s[1]]) == [s[1]];
    assert SortBySequence(s) == s;
    assert s[..1] == [s[0]];
    assert Find(s, 1) == Some(s[0]);
    assert ThrowsAt(s, 1);
  }

  // ---------- the accepted chain in order ----------

  /** Segments in order from genesis, each accepted on its own and linked to the one before. */
  ghost predicate Chain(sorted: seq<VerifierSegment>, valid: SchemaCheck) {
    && sorted != []
    && Numbered(sorted, 0)
    && (forall s | s in sorted :: SegmentAccepted(s, valid))
    && ChainLinks(sorted)
  }

  ghost predicate ChainLinks(sorted: seq<VerifierSegment>) {
    && (sorted != [] ==> sorted[0].manifest.core.previous.None?)
    && forall i {:trigger FollowsAt(sorted, i)} | 1 <= i < |sorted| :: FollowsAt(sorted, i)
  }

  ghost predicate FollowsAt(sorted: seq<VerifierSegment>, i: nat)
    requires 1 <= i < |sorted|
  {
    Linked(sorted[i].manifest.core, FirstPrevRowHash(sorted[i]), Some(sorted[i - 1].manifest))
  }

  lemma {:induction false} FindInNumbered(sorted: seq<VerifierSegment>, n: int)
    requires Numbered(sorted, 0)
    ensures Find(sorted, n) == if 0 <= n < |sorted| then Some(sorted[n]) else None
  {
    if sorted != [] {
      FindInNumbered(sorted[..|sorted| - 1], n);
    }
  }

  /** In a numbered list the map lookup finds the neighbour. */
  lemma LinkedAtMeans(sorted: seq<VerifierSegment>, i: nat)
    requires Numbered(sorted, 0) && i < |sorted|
    ensures LinkedAt(sorted, i) <==> if i == 0 then sorted[0].manifest.core.previous.None? else FollowsAt(sorted, i)
  {
    FindInNumbered(sorted, i - 1);
  }

  lemma LinkedIsChainLinks(sorted: seq<VerifierSegment>)
    requires Numbered(sorted, 0)
    ensures ChainLinks(sorted) <==> forall i | 0 <= i < |sorted| :: LinkedAt(sorted, i)
  {
    forall i | 0 <= i < |sorted|
      ensures LinkedAt(sorted, i) <==> if i == 0 then sorted[0].manifest.core.previous.None? else FollowsAt(sorted, i)
    {
      LinkedAtMeans(sorted, i);
    }
    if forall i | 0 <= i < |sorted| :: LinkedAt(sorted, i) {
      assert sorted != [] ==> LinkedAt(sorted, 0);
      assert forall i {:trigger FollowsAt(sorted, i)} | 1 <= i < |sorted| :: LinkedAt(sorted, i);
    }
  }

  lemma AllPermuted(a: seq<VerifierSegment>, b: seq<VerifierSegment>, holds: VerifierSegment -> bool)
    requires multiset(a) == multiset(b)
    ensures (forall s | s in a :: holds(s)) <==> (forall s | s in b :: holds(s))
  {
    forall s ensures s in a <==> s in b {
      InMultiset(a, b, s);
    }
  }

  lemma {:induction false} NumberedIsContiguous(segments: seq<VerifierSegment>)
    requires Numbered(SortBySequence(segments), 0) && segments != []
    ensures Contiguous(segments, 0, |segments| - 1)
  {
    var sorted := SortBySequence(segments);
    forall n | 0 <= n < |segments| ensures Occurs(segments, n) {
      assert Sequence(sorted[n]) == n;
      OccursSorted(segments, n);
    }
    forall i | 0 <= i < |segments| ensures 0 <= Sequence(segments[i]) < |segments| {
      InMultiset(segments, sorted, segments[i]);
    }
    NoDuplicatePermuted(sorted, segments);
  }

  /** Acceptance, seen in order: the scope is counted out from genesis and every link holds. */
  lemma AcceptedIsChain(segments: seq<VerifierSegment>, last: int, valid: SchemaCheck)
    ensures Accepted(segments, last, valid) <==> Chain(SortBySequence(segments), valid) && |segments| == last + 1
  {
    var sorted := SortBySequence(segments);
    AllPermuted(segments, sorted, s => SegmentAccepted(s, valid));
    if Contiguous(segments, 0, last) {
      SortedIsNumbered(segments, 0, last);
      LinkedIsChainLinks(sorted);
    }
    if Numbered(sorted, 0) && segments != [] {
      NumberedIsContiguous(segments);
      LinkedIsChainLinks(sorted);
    }
  }

  // ---------- equal heads, equal chains ----------

  /** The same object as far as anything is hashed. */
  ghost predicate SameObject(a: Cce, b: Cce) {
    && MeaningOf(a.core).Ok? && MeaningOf(a.core) == MeaningOf(b.core)
    && a.evidence.eventHash == b.evidence.eventHash
    && a.evidence.rowHash == b.evidence.rowHash
    && PrevOrGenesis(a.evidence) == PrevOrGenesis(b.evidence)
  }

  ghost predicate SameSegment(a: VerifierSegment, b: VerifierSegment) {
    && a.manifest == b.manifest
    && |a.objects| == |b.objects|
    && forall i | 0 <= i < |a.objects| :: SameObject(a.objects[i], b.objects[i])
  }

  /** An accepted manifest and its objects are fixed by the manifest hash. */
  lemma ManifestHashBindsSegment(a: VerifierSegment, b: VerifierSegment, valid: SchemaCheck)
    requires SegmentAccepted(a, valid) && SegmentAccepted(b, valid)
    requires a.manifest.manifestHash == b.manifest.manifestHash
    ensures SameSegment(a, b)
  {
    ManifestHashBindsManifest(a.manifest.core, b.manifest.core);
    forall i | 0 <= i < |a.objects| ensures SameObject(a.objects[i], b.objects[i]) {
      var m := a.manifest.core;
      assert Describes(m.objectList, m.objectHashList, a.objects, i);
      assert Describes(m.objectList, m.objectHashList, b.objects, i);
      assert Sound(ChainOf(a).objects[i]) && Sound(ChainOf(b).objects[i]);
      RowHashBindsLink(a.objects[i], b.objects[i]);
    }
  }

  /** The row hash an accepted manifest ends with is that of its last object. */
  lemma LastRowIsLastObject(s: VerifierSegment, valid: SchemaCheck)
    requires SegmentAccepted(s, valid)
    ensures s.objects != [] && IsHashToken(s.manifest.core.lastRowHash)
    ensures s.manifest.core.lastRowHash == s.objects[|s.objects| - 1].evidence.rowHash
  {
    var m, n := s.manifest.core, |s.objects|;
    assert Describes(m.objectList, m.objectHashList, s.objects, n - 1) && Sound(ChainOf(s).objects[n - 1]);
  }

  lemma TokenManifest(s: VerifierSegment, valid: SchemaCheck)
    requires SegmentAccepted(s, valid)
    ensures IsHashToken(s.manifest.manifestHash)
  {
  }

  lemma FollowingHash(sorted: seq<VerifierSegment>, i: nat)
    requires Numbered(sorted, 0) && 1 <= i < |sorted| && FollowsAt(sorted, i)
    ensures PreviousSegmentHashOf(sorted[i].manifest.core) == SegmentHashOf(sorted[i - 1].manifest)
    ensures SegmentHashOf(sorted[i - 1].manifest).Ok? && IsHashToken(SegmentHashOf(sorted[i - 1].manifest).value)
  {
    assert Sequence(sorted[i]) == i;
  }

  /** Every segment of a chain has a hash, and the next one links back to it. */
  lemma AcceptedHasHash(sorted: seq<VerifierSegment>, i: nat, valid: SchemaCheck)
    requires Chain(sorted, valid) && i < |sorted|
    ensures SegmentHashOf(sorted[i].manifest).Ok?
    ensures PreviousSegmentHashOf(sorted[i].manifest.core)
      == if i == 0 then Ok(GENESIS_PREVIOUS_SEGMENT_HASH) else SegmentHashOf(sorted[i - 1].manifest)
  {
    LastRowIsLastObject(sorted[i], valid);
    TokenManifest(sorted[i], valid);
    if i > 0 {
      FollowingHash(sorted, i);
    } else {
      assert Sequence(sorted[0]) == 0;
    }
  }

  lemma SameHeadStep(a: seq<VerifierSegment>, b: seq<VerifierSegment>, i: nat, valid: SchemaCheck)
    requires Chain(a, valid) && Chain(b, valid) && i < |a| && i < |b|
    requires SegmentHashOf(a[i].manifest) == SegmentHashOf(b[i].manifest)
    ensures SameSegment(a[i], b[i])
    ensures i > 0 ==> SegmentHashOf(a[i - 1].manifest) == SegmentHashOf(b[i - 1].manifest)
  {
    AcceptedHasHash(a, i, valid);
    AcceptedHasHash(b, i, valid);
    SegmentHashBinds(a[i].manifest, b[i].manifest);
    ManifestHashBindsSegment(a[i], b[i], valid);
  }

  lemma {:induction false} HeadBindsPrefix(a: seq<VerifierSegment>, b: seq<VerifierSegment>, i: nat, valid: SchemaCheck)
    requires Chain(a, valid) && Chain(b, valid) && i < |a| && i < |b|
    requires SegmentHashOf(a[i].manifest) == SegmentHashOf(b[i].manifest)
    ensures forall j | 0 <= j <= i :: SameSegment(a[j], b[j])
  {
    SameHeadStep(a, b, i, valid);
    if i > 0 {
      HeadBindsPrefix(a, b, i - 1, valid);
    }
  }

  function LastHash(sorted: seq<VerifierSegment>): Result<HashText>
    requires sorted != []
  {
    SegmentHashOf(sorted[|sorted| - 1].manifest)
  }

  lemma LastOfChain(sorted: seq<VerifierSegment>, valid: SchemaCheck)
    requires Chain(sorted, valid)
    ensures SegmentAccepted(sorted[|sorted| - 1], valid) && Sequence(sorted[|sorted| - 1]) == |sorted| - 1
    ensures LastHash(sorted).Ok?
  {
    AcceptedHasHash(sorted, |sorted| - 1, valid);
  }

  lemma SameHashSameNumber(x: VerifierSegment, y: VerifierSegment, valid: SchemaCheck)
    requires SegmentAccepted(x, valid) && SegmentAccepted(y, valid)
    requires SegmentHashOf(x.manifest).Ok? && SegmentHashOf(x.manifest) == SegmentHashOf(y.manifest)
    ensures Sequence(x) == Sequence(y)
  {
    SegmentHashBinds(x.manifest, y.manifest);
    ManifestHashBindsManifest(x.manifest.core, y.manifest.core);
  }

  lemma SameHeadSameLength(a: seq<VerifierSegment>, b: seq<VerifierSegment>, valid: SchemaCheck)
    requires Chain(a, valid) && Chain(b, valid) && LastHash(a) == LastHash(b)
    ensures |a| == |b|
  {
    LastOfChain(a, valid);
    LastOfChain(b, valid);
    SameHashSameNumber(a[|a| - 1], b[|b| - 1], valid);
  }

  /**
   Two accepted sets of segments whose last segments have the same segment hash hold the same
   number of segments, the same manifests and the same hashed content of every object.
   */
  lemma HeadBindsHistory(a: seq<VerifierSegment>, lastA: int, b: seq<VerifierSegment>, lastB: int, valid: SchemaCheck)
    requires Accepted(a, lastA, valid) && Accepted(b, lastB, valid) && a != [] && b != []
    requires LastHash(SortBySequence(a)) == LastHash(SortBySequence(b))
    ensures lastA == lastB && |a| == |b|
    ensures forall i | 0 <= i < |a| :: SameSegment(SortBySequence(a)[i], SortBySequence(b)[i])
  {
    AcceptedIsChain(a, lastA, valid);
    AcceptedIsChain(b, lastB, valid);
    SameHeadSameLength(SortBySequence(a), SortBySequence(b), valid);
    HeadBindsPrefix(SortBySequence(a), SortBySequence(b), |a| - 1, valid);
  }

  lemma BoundaryRow(s: VerifierSegment, before: VerifierSegment, valid: SchemaCheck)
    requires SegmentAccepted(s, valid) && SegmentAccepted(before, valid)
    requires FirstPrevRowHash(s) == before.manifest.core.lastRowHash
    ensures s.objects != [] && before.objects != []
    ensures s.objects[0].evidence.prevRowHash == Some(before.objects[|before.objects| - 1].evidence.rowHash)
  {
    LastRowIsLastObject(s, valid);
    LastRowIsLastObject(before, valid);
  }

  lemma FollowingRow(sorted: seq<VerifierSegment>, i: nat)
    requires Numbered(sorted, 0) && 1 <= i < |sorted| && FollowsAt(sorted, i)
    ensures FirstPrevRowHash(sorted[i]) == sorted[i - 1].manifest.core.lastRowHash
  {
    assert Sequence(sorted[i]) == i;
  }

  /** The row hashes of an accepted chain run through every segment boundary. */
  lemma RowsChainThroughBoundary(sorted: seq<VerifierSegment>, i: nat, valid: SchemaCheck)
    requires Chain(sorted, valid) && 1 <= i < |sorted|
    ensures sorted[i].objects != [] && sorted[i - 1].objects != []
    ensures sorted[i].objects[0].evidence.prevRowHash
      == Some(sorted[i - 1].objects[|sorted[i - 1].objects| - 1].evidence.rowHash)
  {
    FollowingRow(sorted, i);
    BoundaryRow(sorted[i], sorted[i - 1], valid);
  }
}

/**
 The independent verifier, checks 1 to 6: packages/verifier/src/verify-segments.ts and
 packages/verifier/src/verify-continuity.ts.
 */
module Verifier {
  import opened Outcomes
  import opened Digests
  import opened CceModel
  import opened ManifestModel
  import opened ManifestBuilder
  import opened SegmentChain

  datatype VerifierSegment = VerifierSegment(manifest: Manifest, objects: seq<Cce>)

  datatype CheckOutcome = PASS | FAIL(offending: seq<string>)

  function ChainOf(s: VerifierSegment): ChainInput {
    ChainInput(s.manifest.core.objectList, s.manifest.core.objectHashList, s.objects)
  }

  // ---------- check 3: the manifest ----------

  /** The manifest hash recomputes and the manifest describes exactly these objects. */
  ghost predicate ManifestHolds(s: VerifierSegment, valid: SchemaCheck) {
    var m := s.manifest.core;
    && valid(s.manifest)
    && ManifestHash(m).Ok? && s.manifest.manifestHash == Hash(ManifestHash(m).value)
    && m.eventCount == |m.objectList| == |m.objectHashList| == |s.objects|
    && (forall i | 0 <= i < |m.objectList| :: Describes(m.objectList, m.objectHashList, s.objects, i))
    && (m.objectList != [] ==>
         EndsMatch(m.firstEnvelopeId, m.lastEnvelopeId, m.firstRowHash, m.lastRowHash, m.objectList, m.objectHashList))
  }

  method RecomputeManifest(s: VerifierSegment, valid: SchemaCheck) returns (r: Result<CheckOutcome>)
    ensures r.Err? <==> ManifestHash(s.manifest.core).Err?
    ensures r.Ok? ==> r.value == if ManifestHolds(s, valid) then PASS else FAIL([s.manifest.core.segmentId])
  {
    var m := s.manifest.core;
    var problems := [];
    if !valid(s.manifest) { problems := problems + ["schema"]; }
    var hash := ManifestHash(m);
    if hash.Err? {
      return Err(hash.error);
    }
    if Hash(hash.value) != s.manifest.manifestHash { problems := problems + ["manifest_hash"]; }
    var lists := CheckLists(s);
    problems := problems + lists;
    r := Ok(if |problems| > 0 then FAIL([m.segmentId]) else PASS);
  }

  /** Counts, order, ends and objects agree. */
  ghost predicate ListsHold(s: VerifierSegment) {
    var m := s.manifest.core;
    && CountsMatch(s)
    && (forall i | 0 <= i < |m.objectList| :: Describes(m.objectList, m.objectHashList, s.objects, i))
    && (m.objectList != [] ==>
         EndsMatch(m.firstEnvelopeId, m.lastEnvelopeId, m.firstRowHash, m.lastRowHash, m.objectList, m.objectHashList))
  }

  method CheckLists(s: VerifierSegment) returns (problems: seq<string>)
    ensures problems == [] <==> ListsHold(s)
  {
    var m := s.manifest.core;
    problems := CheckCounts(s);
    var sequences := CheckAllSequences(m);
    problems := problems + sequences;
    if |m.objectList| >= 1 {
      var ends := CheckEnds(m);
      problems := problems + ends;
    }
    var bound := CheckAllBound(s);
    problems := problems + bound;
    EntriesDescribe(s);
  }

  method CheckAllSequences(m: ManifestCore) returns (problems: seq<string>)
    ensures problems == [] <==> forall j | 0 <= j < |m.objectList| :: SequencesMatch(m, j)
  {
    problems := [];
    var i := 0;
    while i < |m.objectList|
      invariant 0 <= i <= |m.objectList|
      invariant problems == [] <==> forall j | 0 <= j < i :: SequencesMatch(m, j)
    {
      var here := CheckSequences(m, i);
      problems := problems + here;
      i := i + 1;
    }
  }

  method CheckAllBound(s: VerifierSegment) returns (problems: seq<string>)
    ensures problems == [] <==>
      forall j | 0 <= j < |s.manifest.core.objectList| && j < |s.objects| :: Bound(s, j)
  {
    problems := [];
    var n := |s.manifest.core.objectList|;
    var shared := if n < |s.objects| then n else |s.objects|;
    var i := 0;
    while i < shared
      invariant 0 <= i <= shared
      invariant problems == [] <==> forall j | 0 <= j < i :: Bound(s, j)
    {
      var here := CheckBound(s, i);
      problems := problems + here;
      i := i + 1;
    }
  }

  predicate SequencesMatch(m: ManifestCore, i: nat)
    requires i < |m.objectList|
  {
    m.objectList[i].seqNo == i && i < |m.objectHashList| && m.objectHashList[i].seqNo == i
  }

  predicate Bound(s: VerifierSegment, i: nat)
    requires i < |s.manifest.core.objectList| && i < |s.objects|
  {
    var m := s.manifest.core;
    && Some(m.objectList[i].objectId) == EnvelopeId(s.objects[i])
    && i < |m.objectHashList|
    && m.objectHashList[i].eventHash == s.objects[i].evidence.eventHash
    && m.objectHashList[i].rowHash == s.objects[i].evidence.rowHash
  }

  predicate CountsMatch(s: VerifierSegment) {
    s.manifest.core.eventCount == |s.manifest.core.objectList| == |s.manifest.core.objectHashList| == |s.objects|
  }

  method CheckCounts(s: VerifierSegment) returns (problems: seq<string>)
    ensures problems == [] <==> CountsMatch(s)
  {
    var m := s.manifest.core;
    var n := |m.objectList|;
    problems := [];
    if m.eventCount != n { problems := problems + ["event_count"]; }
    if |m.objectHashList| != n { problems := problems + ["object_hash_list.length"]; }
    if |s.objects| != n { problems := problems + ["objects.length"]; }
    if |s.objects| != |m.objectHashList| { problems := problems + ["objects.length"]; }
  }

  method CheckEnds(m: ManifestCore) returns (problems: seq<string>)
    requires m.objectList != []
    ensures |m.objectHashList| == |m.objectList| ==> (problems == [] <==>
      EndsMatch(m.firstEnvelopeId, m.lastEnvelopeId, m.firstRowHash, m.lastRowHash, m.objectList, m.objectHashList))
  {
    var n := |m.objectList|;
    problems := [];
    if m.firstEnvelopeId != m.objectList[0].objectId { problems := problems + ["first_envelope_id"]; }
    if m.lastEnvelopeId != m.objectList[n - 1].objectId { problems := problems + ["last_envelope_id"]; }
    if |m.objectHashList| < 1 || m.firstRowHash != m.objectHashList[0].rowHash { problems := problems + ["first_row_hash"]; }
    if |m.objectHashList| < n || m.lastRowHash != m.objectHashList[n - 1].rowHash { problems := problems + ["last_row_hash"]; }
  }

  method CheckSequences(m: ManifestCore, i: nat) returns (problems: seq<string>)
    requires i < |m.objectList|
    ensures problems == [] <==> SequencesMatch(m, i)
  {
    problems := [];
    if m.objectList[i].seqNo != i { problems := problems + ["object_list.seq"]; }
    if i >= |m.objectHashList| || m.objectHashList[i].seqNo != i { problems := problems + ["object_hash_list.seq"]; }
  }

  method CheckBound(s: VerifierSegment, i: nat) returns (problems: seq<string>)
    requires i < |s.manifest.core.objectList| && i < |s.objects|
    ensures problems == [] <==> Bound(s, i)
  {
    var m, e := s.manifest.core, s.objects[i].evidence;
    problems := [];
    if Some(m.objectList[i].objectId) != EnvelopeId(s.objects[i]) { problems := problems + ["object_id"]; }
    if i >= |m.objectHashList| || m.objectHashList[i].eventHash != e.eventHash { problems := problems + ["event_hash"]; }
    if i >= |m.objectHashList| || m.objectHashList[i].rowHash != e.rowHash { problems := problems + ["row_hash"]; }
  }

  lemma EntriesDescribe(s: VerifierSegment)
    ensures CountsMatch(s) ==>
      ((forall j | 0 <= j < |s.objects| :: SequencesMatch(s.manifest.core, j) && Bound(s, j)) <==>
       (forall j | 0 <= j < |s.objects| :: Describes(s.manifest.core.objectList, s.manifest.core.objectHashList, s.objects, j)))
  {
    if CountsMatch(s) {
      forall j | 0 <= j < |s.objects|
        ensures SequencesMatch(s.manifest.core, j) && Bound(s, j) <==>
          Describes(s.manifest.core.objectList, s.manifest.core.objectHashList, s.objects, j)
      {
        var h := s.manifest.core.objectHashList[j];
        assert h == ObjectHash(h.seqNo, h.eventHash, h.rowHash);
      }
    }
  }

  // ---------- checks 1 to 3 for one segment ----------

  datatype SegmentRecompute = SegmentRecompute(perObjectHash: CheckOutcome, objectChain: CheckOutcome, segmentManifest: CheckOutcome)

  /** `checks.filter(...).map(c => c.object_id)` */
  function IdsWhere(checks: seq<ObjectCheck>, bad: ObjectCheck -> bool): (ids: seq<string>)
    ensures ids == [] <==> forall i | 0 <= i < |checks| :: !bad(checks[i])
    ensures forall i | 0 <= i < |checks| && bad(checks[i]) :: OrEmpty(checks[i].objectId) in ids
    ensures forall id | id in ids :: exists i | 0 <= i < |checks| :: bad(checks[i]) && OrEmpty(checks[i].objectId) == id
  {
    if checks == [] then []
    else
      var rest := IdsWhere(checks[1..], bad);
      if bad(checks[0]) then [OrEmpty(checks[0].objectId)] + rest else rest
  }

  predicate BadEvent(c: ObjectCheck) {
    !c.eventHashOk
  }

  predicate BadLink(c: ObjectCheck) {
    !(c.rowHashOk && c.prevLinkOk && c.hashListOk && c.orderOk)
  }

  function Outcome(ids: seq<string>): CheckOutcome {
    if |ids| > 0 then FAIL(ids) else PASS
  }

  function ChecksOf(c: ChainInput): seq<ObjectCheck> {
    seq(|c.objects|, i requires 0 <= i < |c.objects| => CheckOf(c, i))
  }

  method RecomputeSegment(s: VerifierSegment, valid: SchemaCheck) returns (r: Result<SegmentRecompute>)
    ensures r.Err? <==> ManifestHash(s.manifest.core).Err?
    ensures r.Ok? ==> r.value.segmentManifest == if ManifestHolds(s, valid) then PASS else FAIL([s.manifest.core.segmentId])
    ensures r.Ok? && s.objects == [] ==> r.value.perObjectHash == r.value.objectChain == FAIL([s.manifest.core.segmentId])
    ensures r.Ok? && s.objects != [] ==>
      && r.value.perObjectHash == Outcome(IdsWhere(ChecksOf(ChainOf(s)), BadEvent))
      && r.value.objectChain == Outcome(IdsWhere(ChecksOf(ChainOf(s)), BadLink))
    ensures r.Ok? ==> (r.value.perObjectHash.PASS? && r.value.objectChain.PASS? <==> ChainHolds(ChainOf(s)))
  {
    if |s.objects| == 0 {
      var empty := FAIL([s.manifest.core.segmentId]);
      var manifest := RecomputeManifest(s, valid);
      return if manifest.Err? then Err(manifest.error) else Ok(SegmentRecompute(empty, empty, manifest.value));
    }
    var chain := VerifySegmentChain(ChainOf(s));
    assert chain.checks == ChecksOf(ChainOf(s));
    var eventFails := IdsWhere(chain.checks, BadEvent);
    var chainFails := IdsWhere(chain.checks, BadLink);
    var manifest := RecomputeManifest(s, valid);
    if manifest.Err? {
      return Err(manifest.error);
    }
    OutcomesPass(ChainOf(s));
    r := Ok(SegmentRecompute(Outcome(eventFails), Outcome(chainFails), manifest.value));
  }

  lemma OutcomesPass(c: ChainInput)
    requires c.objects != []
    ensures ChainHolds(c) <==>
      Outcome(IdsWhere(ChecksOf(c), BadEvent)).PASS? && Outcome(IdsWhere(ChecksOf(c), BadLink)).PASS?
  {
    ChecksPass(c);
    NoneAreBad(ChecksOf(c));
    assert forall i | 0 <= i < |c.objects| :: ChecksOf(c)[i] == CheckOf(c, i);
  }

  lemma NoneAreBad(checks: seq<ObjectCheck>)
    ensures Outcome(IdsWhere(checks, BadEvent)).PASS? && Outcome(IdsWhere(checks, BadLink)).PASS? <==>
      forall i | 0 <= i < |checks| :: !BadEvent(checks[i]) && !BadLink(checks[i])
  {
    assert IdsWhere(checks, BadEvent) == [] <==> forall i | 0 <= i < |checks| :: !BadEvent(checks[i]);
    assert IdsWhere(checks, BadLink) == [] <==> forall i | 0 <= i < |checks| :: !BadLink(checks[i]);
  }

  lemma ChecksPass(c: ChainInput)
    requires c.objects != []
    ensures (forall i | 0 <= i < |c.objects| :: !BadEvent(CheckOf(c, i)) && !BadLink(CheckOf(c, i))) <==> ChainHolds(c)
  {
    forall i | 0 <= i < |c.objects|
      ensures !BadEvent(CheckOf(c, i)) && !BadLink(CheckOf(c, i)) <==>
        Sound(c.objects[i]) && LinksBack(c.objects, i) && Describes(c.refs, c.hashes, c.objects, i)
    {
      FailsNowhere(c, i);
      VerifyCceIsSoundness(c.objects[i]);
    }
  }
}

/** Segment hashes and links between segments (packages/evidence/src/cross-segment.ts). */
module CrossSegment {
  import opened Outcomes
  import opened Digests
  import opened ManifestModel

  const GENESIS_PREVIOUS_SEGMENT_HASH := Hash(Zero)

  datatype SegmentHead = SegmentHead(dbId: string, segmentId: string, segmentSequence: int, segmentHash: HashText, lastRowHash: HashText)

  function ComputeSegmentHash(manifestHash: HashText, lastRowHash: HashText, previous: HashText): Result<HashText> {
    if IsHashToken(manifestHash) && IsHashToken(lastRowHash) && IsHashToken(previous)
    then Ok(Hash(Sha256([Token(manifestHash.d), Token(lastRowHash.d), Token(previous.d)])))
    else Err("not a valid sha256 token")
  }

  /** Throws on a manifest that is not the first and names no predecessor. */
  function PreviousSegmentHashOf(m: ManifestCore): Result<HashText> {
    if m.segmentSequence == 0 then Ok(GENESIS_PREVIOUS_SEGMENT_HASH)
    else if m.previous.None? then Err("non-genesis manifest has no previous_segment")
    else Ok(m.previous.value.segmentHash)
  }

  function SegmentHashOf(m: Manifest): Result<HashText> {
    var previous :- PreviousSegmentHashOf(m.core);
    ComputeSegmentHash(m.manifestHash, m.core.lastRowHash, previous)
  }

  /** A manifest without a segment hash: no predecessor named where one is needed, or a hash field that is no hash. */
  predicate Unhashable(m: Manifest) {
    || (m.core.segmentSequence != 0 && (m.core.previous.None? || !IsHashToken(m.core.previous.value.segmentHash)))
    || !IsHashToken(m.manifestHash) || !IsHashToken(m.core.lastRowHash)
  }

  lemma SegmentHashThrowsIff(m: Manifest)
    ensures SegmentHashOf(m).Err? <==> Unhashable(m)
  {
  }

  function DeriveSegmentHead(m: Manifest): Result<SegmentHead> {
    var hash :- SegmentHashOf(m);
    Ok(SegmentHead(m.core.dbId, m.core.segmentId, m.core.segmentSequence, hash, m.core.lastRowHash))
  }

  /** The head of a manifest: the segment hash is over manifest hash, last row hash and predecessor, in this order. */
  lemma HeadIs(m: Manifest, head: SegmentHead)
    ensures DeriveSegmentHead(m) == Ok(head) <==>
      && m.manifestHash.Hash? && m.core.lastRowHash.Hash?
      && (m.core.segmentSequence != 0 ==> m.core.previous.Some? && m.core.previous.value.segmentHash.Hash?)
      && head.dbId == m.core.dbId && head.segmentId == m.core.segmentId && head.segmentSequence == m.core.segmentSequence
      && head.lastRowHash == m.core.lastRowHash
      && head.segmentHash == Hash(Sha256([
           Token(m.manifestHash.d), Token(m.core.lastRowHash.d),
           Token(if m.core.segmentSequence == 0 then Zero else m.core.previous.value.segmentHash.d)]))
  {
    if DeriveSegmentHead(m).Ok? {
      assert DeriveSegmentHead(m).value.dbId == m.core.dbId;
    }
  }

  datatype CrossRule = GENESIS | MISSING_PREVIOUS | DB_ID | SEQUENCE | PREVIOUS_SEGMENT | PREVIOUS_SEGMENT_HASH | ROW_BOUNDARY

  datatype CrossVerification = CrossVerification(ok: bool, genesis: bool, failures: seq<CrossRule>)

  /** The current manifest names the previous one and carries the previous one's hash. */
  ghost predicate Names(current: ManifestCore, previous: Manifest) {
    && current.previous.Some?
    && current.previous.value.segmentId == previous.core.segmentId
    && current.previous.value.segmentSequence == previous.core.segmentSequence
    && SegmentHashOf(previous) == Ok(current.previous.value.segmentHash)
  }

  /** The link promised across a segment boundary. */
  ghost predicate Linked(current: ManifestCore, firstPrevRowHash: HashText, previous: Option<Manifest>) {
    if current.segmentSequence == 0 then previous.None? && current.previous.None?
    else
      && previous.Some?
      && current.dbId == previous.value.core.dbId
      && current.segmentSequence == previous.value.core.segmentSequence + 1
      && Names(current, previous.value)
      && firstPrevRowHash == previous.value.core.lastRowHash
  }

  /** The inputs on which the source throws instead of answering. */
  ghost predicate Throws(current: ManifestCore, previous: Option<Manifest>) {
    current.segmentSequence != 0 && previous.Some? && current.previous.Some? && Unhashable(previous.value)
  }

  method VerifyCrossSegment(current: ManifestCore, firstPrevRowHash: HashText, previous: Option<Manifest>)
    returns (r: Result<CrossVerification>)
    ensures r.Err? <==> Throws(current, previous)
    ensures r.Ok? ==> (r.value.ok <==> Linked(current, firstPrevRowHash, previous))
    ensures r.Ok? ==> (r.value.ok <==> r.value.failures == []) && (r.value.genesis <==> current.segmentSequence == 0)
  {
    var failures: seq<CrossRule> := [];
    if current.segmentSequence == 0 {
      if previous.Some? { failures := failures + [GENESIS]; }
      if current.previous.Some? { failures := failures + [GENESIS]; }
      return Ok(CrossVerification(|failures| == 0, true, failures));
    }
    if previous.None? {
      return Ok(CrossVerification(false, false, [MISSING_PREVIOUS]));
    }
    var p := previous.value;
    if current.dbId != p.core.dbId { failures := failures + [DB_ID]; }
    if current.segmentSequence != p.core.segmentSequence + 1 { failures := failures + [SEQUENCE]; }
    if current.previous.None? {
      failures := failures + [PREVIOUS_SEGMENT];
    } else {
      var ps := current.previous.value;
      if ps.segmentId != p.core.segmentId { failures := failures + [PREVIOUS_SEGMENT]; }
      if ps.segmentSequence != p.core.segmentSequence { failures := failures + [PREVIOUS_SEGMENT]; }
      SegmentHashThrowsIff(p);
      var recomputed := SegmentHashOf(p);
      if recomputed.Err? {
        return Err(recomputed.error);
      }
      if ps.segmentHash != recomputed.value { failures := failures + [PREVIOUS_SEGMENT_HASH]; }
    }
    if firstPrevRowHash != p.core.lastRowHash { failures := failures + [ROW_BOUNDARY]; }
    r := Ok(CrossVerification(|failures| == 0, false, failures));
  }

  /** A segment hash fixes the manifest hash, the last row hash and the hash it links back to. */
  lemma SegmentHashBinds(a: Manifest, b: Manifest)
    requires SegmentHashOf(a).Ok? && SegmentHashOf(b).Ok?
    ensures SegmentHashOf(a) == SegmentHashOf(b) <==>
      a.manifestHash == b.manifestHash && a.core.lastRowHash == b.core.lastRowHash
      && PreviousSegmentHashOf(a.core) == PreviousSegmentHashOf(b.core)
  {
    var p, q := PreviousSegmentHashOf(a.core).value, PreviousSegmentHashOf(b.core).value;
    var x := [Token(a.manifestHash.d), Token(a.core.lastRowHash.d), Token(p.d)];
    var y := [Token(b.manifestHash.d), Token(b.core.lastRowHash.d), Token(q.d)];
    if x == y {
      assert x[0] == y[0] && x[1] == y[1] && x[2] == y[2];
    }
  }
}

/**
 The verifier's checks of an anchored head (packages/verifier/src/verify-anchor.ts): the signature
 over it and the external token for it.  A signature is a free constructor over the public key it
 verifies under and the signed message.
 */
module VerifyAnchor {
  import opened Outcomes
  import opened Instants
  import opened Digests
  import opened ManifestModel
  import opened ManifestBuilder
  import opened CrossSegment
  import opened Sorting
  import opened Verifier
  import Canonical
  import Continuity
  import LogProvider
  import TransparencyLog
  import opened AnchorPayloads
  import opened TamperEvidence
  import opened KeyRegistry

  datatype Signature = Signed(publicKey: string, message: Text) | Unreadable

  datatype HsmSignature = HsmSignature(algorithm: string, keyId: string, signature: Signature)

  /** The external proof; `OtherProof` stands for every kind or shape the verifier does not take. */
  datatype AnchorProof =
    | Rfc3161(token: string, certRef: string)
    | TransparencyLogProof(proof: LogProvider.InclusionProof)
    | OtherProof

  /** An anchor record: the anchored head with its database is the payload. */
  datatype AnchorRecord = AnchorRecord(payload: AnchorPayload, hsm: HsmSignature, anchorProof: AnchorProof)

  type Certificate = LogProvider.Certificate

  /** The offline check of a timestamp token against a certificate. */
  type TimestampCheck = (string, HashText, Certificate) -> bool

  // ---------- the signature ----------

  /** The anchored head is the recomputed head of this segment. */
  ghost predicate BoundTo(p: AnchorPayload, m: Manifest) {
    && SegmentHashOf(m) == Ok(p.segmentHash) && p.lastRowHash == m.core.lastRowHash
    && p.segmentId == m.core.segmentId && p.segmentSequence == m.core.segmentSequence
  }

  /** The signature was made under a trusted ed25519 key, inside its window, over exactly this payload. */
  ghost predicate TrustedSignature(record: AnchorRecord, keys: seq<TrustKey>) {
    var key := Lookup(keys, record.hsm.keyId);
    && key.Some? && record.hsm.algorithm == key.value.algorithm == "ed25519"
    && InWindow(key.value, record.payload.signedAt)
    && SigningMessage(record.payload).Ok?
    && record.hsm.signature == Signed(key.value.publicKey, SigningMessage(record.payload).value)
  }

  method VerifyHsmSignature(m: Manifest, record: AnchorRecord, keys: seq<TrustKey>) returns (r: Result<CheckOutcome>)
    ensures r.Err? <==> SegmentHashOf(m).Err?
    ensures r.Ok? ==> r.value == if BoundTo(record.payload, m) && TrustedSignature(record, keys) then PASS
                                 else FAIL([m.core.segmentId])
  {
    var failed := FAIL([m.core.segmentId]);
    var p, sig := record.payload, record.hsm;
    var recomputed := SegmentHashOf(m);
    if recomputed.Err? {
      return Err(recomputed.error);
    }
    if p.segmentHash != recomputed.value {
      return Ok(failed);
    }
    if p.lastRowHash != m.core.lastRowHash {
      return Ok(failed);
    }
    if p.segmentId != m.core.segmentId || p.segmentSequence != m.core.segmentSequence {
      return Ok(failed);
    }
    var key := Lookup(keys, sig.keyId);
    if key.None? || sig.algorithm != key.value.algorithm || sig.algorithm != "ed25519" {
      return Ok(failed);
    }
    var k := key.value;
    if k.revokedAt.Some? && k.revokedAt.value.Parses() && p.signedAt.Parses()
      && p.signedAt.millis.value >= k.revokedAt.value.millis.value
    {
      return Ok(failed);
    }
    if k.notBefore.Some? && k.notBefore.value.Parses() && p.signedAt.Parses()
      && p.signedAt.millis.value < k.notBefore.value.millis.value
    {
      return Ok(failed);
    }
    var message := SigningMessage(p);
    if message.Err? {
      return Ok(failed);
    }
    r := Ok(if sig.signature == Signed(k.publicKey, message.value) then PASS else failed);
  }

  /** Made under this ed25519 key over exactly this payload, not before the key's first instant and before its revocation. */
  ghost predicate SignedUnder(record: AnchorRecord, key: TrustKey) {
    && record.hsm.algorithm == "ed25519" && key.algorithm == "ed25519" && SigningMessage(record.payload).Ok?
    && record.hsm.signature == Signed(key.publicKey, SigningMessage(record.payload).value)
    && record.payload.signedAt.millis.Some?
    && (key.notBefore.Some? && key.notBefore.value.millis.Some? ==>
          key.notBefore.value.millis.value <= record.payload.signedAt.millis.value)
    && (key.revokedAt.Some? && key.revokedAt.value.millis.Some? ==>
          record.payload.signedAt.millis.value < key.revokedAt.value.millis.value)
  }

  /** A signature is trusted exactly when the first key with its id signed it inside its window. */
  lemma TrustedIff(record: AnchorRecord, keys: seq<TrustKey>)
    ensures TrustedSignature(record, keys) <==>
      exists i | 0 <= i < |keys| :: keys[i].id == record.hsm.keyId && SignedUnder(record, keys[i])
        && forall j | 0 <= j < i :: keys[j].id != record.hsm.keyId
  {
    SignableIff(record.payload);
    if i :| 0 <= i < |keys| && keys[i].id == record.hsm.keyId && forall j | 0 <= j < i :: keys[j].id != record.hsm.keyId {
      LookupTakesTheFirst(keys, i);
      FirstIsOne(keys, record.hsm.keyId, i);
    }
    if Lookup(keys, record.hsm.keyId).Some? {
      var i := FirstWith(keys, record.hsm.keyId);
    }
  }

  lemma FirstIsOne(keys: seq<TrustKey>, id: string, i: nat)
    requires i < |keys| && keys[i].id == id && forall j | 0 <= j < i :: keys[j].id != id
    ensures forall k | 0 <= k < |keys| && keys[k].id == id && (forall j | 0 <= j < k :: keys[j].id != id) :: k == i
  {
  }

  lemma {:induction false} FirstWith(keys: seq<TrustKey>, id: string) returns (i: nat)
    requires Lookup(keys, id).Some?
    ensures i < |keys| && keys[i].id == id && keys[i] == Lookup(keys, id).value && forall j | 0 <= j < i :: keys[j].id != id
  {
    if keys[0].id == id {
      i := 0;
    } else {
      var rest := FirstWith(keys[1..], id);
      i := rest + 1;
      assert forall j | 0 <= j < i :: j > 0 ==> keys[j] == keys[1..][j - 1];
    }
  }

  // ---------- the external token ----------

  /** The first certificate published under a reference. */
  function LookupCertificate(certs: seq<Certificate>, ref: string): Option<Certificate> {
    if certs == [] then None else if certs[0].logId == ref then Some(certs[0]) else LookupCertificate(certs[1..], ref)
  }

  lemma {:induction false} LookupIsTheFirst(certs: seq<Certificate>, ref: string, i: nat)
    requires i < |certs| && certs[i].logId == ref && forall j | 0 <= j < i :: certs[j].logId != ref
    ensures LookupCertificate(certs, ref) == Some(certs[i])
  {
    if i > 0 {
      LookupIsTheFirst(certs[1..], ref, i - 1);
    }
  }

  lemma {:induction false} LookupFailsIff(certs: seq<Certificate>, ref: string)
    ensures LookupCertificate(certs, ref).None? <==> forall i | 0 <= i < |certs| :: certs[i].logId != ref
  {
    if certs != [] {
      LookupFailsIff(certs[1..], ref);
      assert certs == [certs[0]] + certs[1..];
    }
  }

  predicate Published(certs: seq<Certificate>, ref: string) {
    LookupCertificate(certs, ref).Some? && LookupCertificate(certs, ref).value.algorithm == "ed25519"
  }

  /** The external authority vouches for this hash, by its published certificate. */
  ghost predicate TokenHolds(anchorProof: AnchorProof, payloadHash: HashText, certs: seq<Certificate>, timestamps: TimestampCheck) {
    match anchorProof
    case Rfc3161(token, ref) => Published(certs, ref) && timestamps(token, payloadHash, LookupCertificate(certs, ref).value)
    case TransparencyLogProof(proof) =>
      Published(certs, proof.logId) && LogProvider.TokenStands(proof, payloadHash, LookupCertificate(certs, proof.logId).value)
    case OtherProof => false
  }

  /** The trees on which the 32-bit loop of the inclusion check is exact. */
  predicate SizeFits(anchorProof: AnchorProof) {
    anchorProof.TransparencyLogProof? && anchorProof.proof.head.Envelope? ==>
      anchorProof.proof.head.sth.treeSize <= TransparencyLog.TWO_31
  }

  method VerifyAnchorToken(record: AnchorRecord, payloadHash: HashText, certs: seq<Certificate>, timestamps: TimestampCheck)
    returns (r: CheckOutcome)
    ensures SizeFits(record.anchorProof) ==>
      r == if TokenHolds(record.anchorProof, payloadHash, certs, timestamps) then PASS else FAIL([record.payload.segmentId])
  {
    var failed := FAIL([record.payload.segmentId]);
    match record.anchorProof
    case OtherProof => return failed;
    case Rfc3161(token, ref) =>
      var trusted := LookupCertificate(certs, ref);
      if trusted.None? || trusted.value.algorithm != "ed25519" {
        return failed;
      }
      return if timestamps(token, payloadHash, trusted.value) then PASS else failed;
    case TransparencyLogProof(proof) =>
      var trusted := LookupCertificate(certs, proof.logId);
      if trusted.None? || trusted.value.algorithm != "ed25519" {
        return failed;
      }
      var verdict := LogProvider.VerifyTransparencyLogToken(proof, payloadHash, trusted.value);
      return if verdict.Ok? then PASS else failed;
  }

  // ---------- both checks for one segment ----------

  datatype AnchorChecks = AnchorChecks(hsmSignature: CheckOutcome, anchorToken: CheckOutcome)

  /**
   Throws on a record that meets the schema when the segment has no hash or the payload cannot be
   hashed: the payload hash is taken outside the place where a bad payload is a failed check.
   */
  method VerifyAnchorForSegment(m: Manifest, record: Option<AnchorRecord>, keys: seq<TrustKey>, certs: seq<Certificate>,
                                timestamps: TimestampCheck, meetsSchema: AnchorRecord -> bool)
    returns (r: Result<AnchorChecks>)
    ensures r.Err? <==> record.Some? && meetsSchema(record.value) && (Unhashable(m) || !Signable(record.value.payload))
    ensures r.Ok? && (record.None? || !meetsSchema(record.value)) ==>
      r.value.hsmSignature == r.value.anchorToken == FAIL([m.core.segmentId])
    ensures r.Ok? && record.Some? && meetsSchema(record.value) ==>
      && PayloadHash(record.value.payload).Ok?
      && (r.value.hsmSignature.PASS? <==> BoundTo(record.value.payload, m) && TrustedSignature(record.value, keys))
      && (SizeFits(record.value.anchorProof) ==>
            (r.value.anchorToken.PASS? <==>
              TokenHolds(record.value.anchorProof, PayloadHash(record.value.payload).value, certs, timestamps)))
  {
    var failed := FAIL([m.core.segmentId]);
    if record.None? || !meetsSchema(record.value) {
      return Ok(AnchorChecks(failed, failed));
    }
    SegmentHashThrowsIff(m);
    SignableIff(record.value.payload);
    var signed := VerifyHsmSignature(m, record.value, keys);
    if signed.Err? {
      return Err(signed.error);
    }
    var payloadHash := PayloadHash(record.value.payload);
    if payloadHash.Err? {
      return Err(payloadHash.error);
    }
    var token := VerifyAnchorToken(record.value, payloadHash.value, certs, timestamps);
    return Ok(AnchorChecks(signed.value, token));
  }

  /** What the schema of an anchor record asks of the anchored head; `isDateTime` is its time format. */
  predicate HeadMeetsSchema(p: AnchorPayload, isDateTime: string -> bool) {
    && p.dbId != "" && p.segmentSequence >= 0 && IsHashToken(p.segmentHash) && IsHashToken(p.lastRowHash)
    && p.headCount >= 1 && isDateTime(p.signedAt.text)
  }

  /** The heads that get through the schema and make the check throw. */
  lemma SchemaLetsThroughIff(p: AnchorPayload, isDateTime: string -> bool)
    requires HeadMeetsSchema(p, isDateTime)
    ensures PayloadHash(p).Err? <==>
      p.segmentId == "" || p.segmentSequence > Canonical.MAX_SAFE || p.headCount > Canonical.MAX_SAFE || !p.signedAt.IsReal()
  {
    SignableIff(p);
  }

  /** One of them: a head with an empty segment id. */
  lemma NamelessHeadThrows(dbId: string, segmentHash: Digest, lastRowHash: Digest, signedAt: Instant, isDateTime: string -> bool)
    requires dbId != "" && signedAt.IsReal() && isDateTime(signedAt.text)
    ensures var p := AnchorPayload(dbId, "", 0, Hash(segmentHash), Hash(lastRowHash), 1, signedAt);
      HeadMeetsSchema(p, isDateTime) && PayloadHash(p).Err?
  {
    SchemaLetsThroughIff(AnchorPayload(dbId, "", 0, Hash(segmentHash), Hash(lastRowHash), 1, signedAt), isDateTime);
  }

  // ---------- keys over time ----------

  /** With a trust file projected from a registry, a passing signature was valid by the registry too. */
  lemma PassingMeansRegistryValid(record: AnchorRecord, reg: Registry, isCertificate: string -> bool, locale: Comparator<TrustKey>)
    requires WellFormed(reg) && ProjectKeys(reg, isCertificate, locale).Ok?
    requires TrustedSignature(record, ProjectKeys(reg, isCertificate, locale).value)
    ensures IsValidAt(reg, record.hsm.keyId, record.payload.signedAt, Some(record.hsm.algorithm))
    ensures Find(reg.history, record.hsm.keyId).Some? && SigningMessage(record.payload).Ok?
    ensures record.hsm.signature == Signed(Find(reg.history, record.hsm.keyId).value.publicKey, SigningMessage(record.payload).value)
  {
    SignableIff(record.payload);
    RegistryAgreesWithTrustFile(reg, isCertificate, locale, record.hsm.keyId, record.payload.signedAt, record.hsm.algorithm);
    TrustFileResolves(reg, isCertificate, locale, record.hsm.keyId);
  }

  /** A later rotation or revocation of the keys does not undo what passed, short of revoking the instant itself. */
  lemma PassingSurvivesRotation(record: AnchorRecord, reg: Registry, ops: seq<Op>, isCertificate: string -> bool,
                                locale: Comparator<TrustKey>)
    requires WellFormed(reg) && ProjectKeys(reg, isCertificate, locale).Ok?
    requires ProjectKeys(Run(reg, ops), isCertificate, locale).Ok?
    requires TrustedSignature(record, ProjectKeys(reg, isCertificate, locale).value)
    ensures Find(Run(reg, ops).history, record.hsm.keyId).Some?
    ensures TrustedSignature(record, ProjectKeys(Run(reg, ops), isCertificate, locale).value)
      <==> !RevokedBy(Find(Run(reg, ops).history, record.hsm.keyId).value, record.payload.signedAt)
  {
    var id, t, after := record.hsm.keyId, record.payload.signedAt, Run(reg, ops);
    SignableIff(record.payload);
    TrustFileResolves(reg, isCertificate, locale, id);
    HistoryIsMonotone(reg, ops);
    ExtendedKey(reg, after, id);
    TrustFileResolves(after, isCertificate, locale, id);
  }

  // ---------- from the sealed head to the verdict ----------

  /** `buildAnchorPayload` on the head of a segment that has a hash. */
  function PayloadOf(m: Manifest, headCount: int, signedAt: Instant): AnchorPayload
    requires SegmentHashOf(m).Ok?
  {
    AnchorPayload(m.core.dbId, m.core.segmentId, m.core.segmentSequence, SegmentHashOf(m).value, m.core.lastRowHash, headCount, signedAt)
  }

  /** The record of a payload signed under one key and logged behind the leaves already there. */
  function RecordFor(p: AnchorPayload, keyId: string, publicKey: string, leaves: seq<Digest>, cert: Certificate,
                     sthTime: Instant): AnchorRecord
    requires Signable(p)
  {
    SignableIff(p);
    AnchorRecord(p, HsmSignature("ed25519", keyId, Signed(publicKey, SigningMessage(p).value)),
                 TransparencyLogProof(LogProvider.TokenFor(leaves, PayloadHash(p).value.d, cert, sthTime).proof))
  }

  /**
   Completeness: the anchor made for a sealed head passes both checks, the signature exactly when
   its key was valid at that instant and the token exactly when the log's time is a real instant.
   */
  lemma AnchoredHeadVerifies(m: Manifest, headCount: int, signedAt: Instant, keyId: string, keys: seq<TrustKey>,
                             leaves: seq<Digest>, cert: Certificate, certs: seq<Certificate>, sthTime: Instant, timestamps: TimestampCheck)
    requires !Unhashable(m) && SegmentHashOf(m).Ok? && Signable(PayloadOf(m, headCount, signedAt))
    requires Lookup(keys, keyId).Some? && Lookup(keys, keyId).value.algorithm == "ed25519"
    requires cert.algorithm == "ed25519" && cert.logId != "" && LookupCertificate(certs, cert.logId) == Some(cert)
    requires TransparencyLog.AllLeafHashes(leaves) && |leaves| < Canonical.MAX_SAFE
    ensures var p := PayloadOf(m, headCount, signedAt); var key := Lookup(keys, keyId).value;
      var record := RecordFor(p, keyId, key.publicKey, leaves, cert, sthTime);
      && BoundTo(p, m) && PayloadHash(p).Ok? && p.dbId == m.core.dbId && p.headCount == headCount && p.signedAt == signedAt
      && (TrustedSignature(record, keys) <==> InWindow(key, signedAt))
      && (TokenHolds(record.anchorProof, PayloadHash(p).value, certs, timestamps) <==> sthTime.IsReal())
  {
    var p := PayloadOf(m, headCount, signedAt);
    SignableIff(p);
    LogProvider.IssuedTokenVerifies(leaves, PayloadHash(p).value.d, cert, sthTime);
    LogProvider.AcceptedIffStands(LogProvider.TokenFor(leaves, PayloadHash(p).value.d, cert, sthTime).proof, PayloadHash(p).value, cert);
  }

  // ---------- what an anchor pins down ----------

  lemma BoundHeadBindsHistory(a: seq<VerifierSegment>, b: seq<VerifierSegment>, lastA: int, lastB: int,
                              p: AnchorPayload, q: AnchorPayload, valid: SchemaCheck)
    requires Accepted(a, lastA, valid) && Accepted(b, lastB, valid) && a != [] && b != []
    requires BoundTo(p, Continuity.SortBySequence(a)[|a| - 1].manifest)
    requires BoundTo(q, Continuity.SortBySequence(b)[|b| - 1].manifest)
    requires p.segmentHash == q.segmentHash
    ensures lastA == lastB && |a| == |b|
    ensures forall i | 0 <= i < |a| :: SameSegment(Continuity.SortBySequence(a)[i], Continuity.SortBySequence(b)[i])
  {
    HeadBindsHistory(a, lastA, b, lastB, valid);
  }

  /**
   One signed message pins down the whole history: two accepted chains whose last segments carry
   anchors with the same message agree in every hashed particular.
   */
  lemma AnchoredHeadBindsHistory(a: seq<VerifierSegment>, b: seq<VerifierSegment>, lastA: int, lastB: int,
                                 x: AnchorRecord, y: AnchorRecord, keys: seq<TrustKey>, valid: SchemaCheck)
    requires Accepted(a, lastA, valid) && Accepted(b, lastB, valid) && a != [] && b != []
    requires BoundTo(x.payload, Continuity.SortBySequence(a)[|a| - 1].manifest) && TrustedSignature(x, keys)
    requires BoundTo(y.payload, Continuity.SortBySequence(b)[|b| - 1].manifest) && TrustedSignature(y, keys)
    requires x.hsm.signature == y.hsm.signature
    ensures lastA == lastB && |a| == |b|
    ensures forall i | 0 <= i < |a| :: SameSegment(Continuity.SortBySequence(a)[i], Continuity.SortBySequence(b)[i])
  {
    SignableIff(x.payload);
    SignableIff(y.payload);
    PayloadIsBound(x.payload, y.payload);
    BoundHeadBindsHistory(a, b, lastA, lastB, x.payload, y.payload, valid);
  }

  /** A payload whose token holds and shows no forged signature of the log it names. */
  ghost predicate Logged(p: AnchorPayload, proof: LogProvider.InclusionProof, heads: seq<LogProvider.SignedTreeHead>,
                         certs: seq<Certificate>, timestamps: TimestampCheck)
  {
    && PayloadHash(p).Ok? && TokenHolds(TransparencyLogProof(proof), PayloadHash(p).value, certs, timestamps)
    && LogProvider.Unforged(proof, LookupCertificate(certs, proof.logId).value.key, heads)
  }

  lemma HoldingTokenWasLogged(p: AnchorPayload, proof: LogProvider.InclusionProof, leaves: seq<Digest>,
                              heads: seq<LogProvider.SignedTreeHead>, certs: seq<Certificate>, timestamps: TimestampCheck)
    requires TransparencyLog.AllLeafHashes(leaves) && LogProvider.HeadsOfPrefixes(heads, leaves)
    requires Logged(p, proof, heads, certs, timestamps)
    ensures 0 <= proof.leafIndex < |leaves|
    ensures leaves[proof.leafIndex] == TransparencyLog.LeafHash(PayloadHash(p).value.d)
  {
    var cert, payload := LookupCertificate(certs, proof.logId).value, PayloadHash(p).value.d;
    LogProvider.AcceptedIffStands(proof, Hash(payload), cert);
    LogProvider.AcceptedTokenWasLogged(leaves, heads, proof, payload, cert);
    var i :| 0 <= i < |heads| && heads[i] == proof.head.sth;
    assert LogProvider.HeadOfPrefix(heads[i], leaves);
  }

  /**
   One leaf of the log pins down the whole history: when the log signs heads of prefixes of its
   leaves only, two accepted chains whose anchors hold and name the same leaf agree in every hashed
   particular.
   */
  lemma LoggedLeafBindsHistory(a: seq<VerifierSegment>, b: seq<VerifierSegment>, lastA: int, lastB: int,
                               p: AnchorPayload, q: AnchorPayload, x: LogProvider.InclusionProof, y: LogProvider.InclusionProof,
                               leaves: seq<Digest>, heads: seq<LogProvider.SignedTreeHead>,
                               certs: seq<Certificate>, timestamps: TimestampCheck, valid: SchemaCheck)
    requires Accepted(a, lastA, valid) && Accepted(b, lastB, valid) && a != [] && b != []
    requires BoundTo(p, Continuity.SortBySequence(a)[|a| - 1].manifest) && BoundTo(q, Continuity.SortBySequence(b)[|b| - 1].manifest)
    requires TransparencyLog.AllLeafHashes(leaves) && LogProvider.HeadsOfPrefixes(heads, leaves)
    requires Logged(p, x, heads, certs, timestamps) && Logged(q, y, heads, certs, timestamps)
    requires x.leafIndex == y.leafIndex
    ensures lastA == lastB && |a| == |b|
    ensures forall i | 0 <= i < |a| :: SameSegment(Continuity.SortBySequence(a)[i], Continuity.SortBySequence(b)[i])
  {
    HoldingTokenWasLogged(p, x, leaves, heads, certs, timestamps);
    HoldingTokenWasLogged(q, y, leaves, heads, certs, timestamps);
    SamePayloadHash(p, q);
    BoundHeadBindsHistory(a, b, lastA, lastB, p, q, valid);
  }

  lemma SamePayloadHash(p: AnchorPayload, q: AnchorPayload)
    requires PayloadHash(p).Ok? && PayloadHash(q).Ok?
    requires TransparencyLog.LeafHash(PayloadHash(p).value.d) == TransparencyLog.LeafHash(PayloadHash(q).value.d)
    ensures SamePayload(p, q)
  {
    SignableIff(p);
    SignableIff(q);
    LeafHashBinds(PayloadHash(p).value.d, PayloadHash(q).value.d);
    PayloadIsBound(p, q);
  }

  lemma LeafHashBinds(x: Digest, y: Digest)
    requires TransparencyLog.LeafHash(x) == TransparencyLog.LeafHash(y)
    ensures x == y
  {
    assert TransparencyLog.LeafHash(x).preimage[1] == Raw(x) && TransparencyLog.LeafHash(y).preimage[1] == Raw(y);
  }
}

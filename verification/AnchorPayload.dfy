/**
 What an anchor commits to: the payload of packages/evidence/src/anchor-payload.ts, its signed
 message and its hash.
 */
module AnchorPayloads {
  import opened Outcomes
  import opened Instants
  import opened Digests
  import opened Canonical
  import opened ManifestModel
  import opened ManifestSerialization
  import CanonicalReading
  import CceModel

  datatype AnchorPayload = AnchorPayload(
    dbId: string, segmentId: string, segmentSequence: int, segmentHash: HashText, lastRowHash: HashText,
    headCount: int, signedAt: Instant)

  /** `assertValidAnchorPayload` */
  predicate ValidPayload(p: AnchorPayload) {
    && p.dbId != "" && p.segmentId != "" && p.segmentSequence >= 0
    && IsHashToken(p.segmentHash) && IsHashToken(p.lastRowHash) && p.headCount >= 1
    && p.signedAt.IsReal()
  }

  function PayloadFields(p: AnchorPayload): seq<Member> {
    [Member("db_id", StrV(p.dbId)), Member("segment_id", StrV(p.segmentId)), Member("segment_sequence", IntV(p.segmentSequence)),
     Member("segment_hash", HashV(p.segmentHash)), Member("last_row_hash", HashV(p.lastRowHash)),
     Member("head_count", IntV(p.headCount)), Member("signed_at", StrV(p.signedAt.text))]
  }

  function SerializePayload(p: AnchorPayload): Result<Text> {
    if ValidPayload(p) then Serialize(Obj(PayloadFields(p))) else Err("invalid anchor payload")
  }

  /** `anchorSigningMessage`: the domain tag, then the canonical text. */
  function SigningMessage(p: AnchorPayload): Result<Text> {
    var text :- SerializePayload(p);
    Ok(Chars("edam-anchor-payload-v1:") + text)
  }

  /** `anchorPayloadHash` */
  function PayloadHash(p: AnchorPayload): Result<HashText> {
    var text :- SerializePayload(p);
    Ok(Hash(Sha256(text)))
  }

  /** The payloads that can be signed and hashed at all. */
  predicate Signable(p: AnchorPayload) {
    ValidPayload(p) && Safe(p.segmentSequence) && Safe(p.headCount)
  }

  lemma FieldsAreMeaningful(p: AnchorPayload)
    ensures CceModel.DistinctKeys(Obj(PayloadFields(p)))
    ensures AllMeaningful(PayloadFields(p)) <==> Safe(p.segmentSequence) && Safe(p.headCount)
  {
    var f := PayloadFields(p);
    assert Meaningful(f[0].value) && Meaningful(f[1].value) && Meaningful(f[3].value) && Meaningful(f[4].value);
    assert Meaningful(f[6].value);
    assert Meaningful(f[2].value) <==> Safe(p.segmentSequence);
    assert Meaningful(f[5].value) <==> Safe(p.headCount);
  }

  /** Signing and hashing throw on the same payloads, a valid one with a number beyond the safe integers among them. */
  lemma SignableIff(p: AnchorPayload)
    ensures SigningMessage(p).Ok? <==> Signable(p)
    ensures PayloadHash(p).Ok? <==> Signable(p)
    ensures Signable(p) <==>
      && p.dbId != "" && p.segmentId != "" && 0 <= p.segmentSequence <= 0x1F_FFFF_FFFF_FFFF
      && p.segmentHash.Hash? && p.lastRowHash.Hash? && 1 <= p.headCount <= 0x1F_FFFF_FFFF_FFFF && p.signedAt.IsReal()
  {
    FieldsAreMeaningful(p);
    ObjectIsMeaningful(PayloadFields(p));
    CanonicalReading.SerializableIffMeaningful(Obj(PayloadFields(p)));
  }

  /** The same in every field; of the instant only the text is written. */
  predicate SamePayload(a: AnchorPayload, b: AnchorPayload) {
    a.signedAt.text == b.signedAt.text && a.(signedAt := b.signedAt) == b
  }

  lemma SameFields(a: AnchorPayload, b: AnchorPayload)
    requires MembersMeaning(PayloadFields(a)).Ok?
    requires MembersMeaning(PayloadFields(a)) == MembersMeaning(PayloadFields(b))
    ensures SamePayload(a, b)
  {
    var x, y := PayloadFields(a), PayloadFields(b);
    SameField(x, y, 0);
    SameField(x, y, 1);
    SameField(x, y, 2);
    SameField(x, y, 3);
    SameField(x, y, 4);
    SameField(x, y, 5);
    SameField(x, y, 6);
    SameString(a.dbId, b.dbId);
    SameString(a.segmentId, b.segmentId);
    SameInt(a.segmentSequence, b.segmentSequence);
    SameHash(a.segmentHash, b.segmentHash);
    SameHash(a.lastRowHash, b.lastRowHash);
    SameInt(a.headCount, b.headCount);
    SameString(a.signedAt.text, b.signedAt.text);
  }

  lemma SameText(a: AnchorPayload, b: AnchorPayload)
    requires SerializePayload(a).Ok? && SerializePayload(b).Ok?
    ensures SerializePayload(a) == SerializePayload(b) <==> SamePayload(a, b)
  {
    CanonicalReading.SerializationIsUnambiguous(Obj(PayloadFields(a)), Obj(PayloadFields(b)));
    if SerializePayload(a) == SerializePayload(b) {
      SameFields(a, b);
    }
  }

  /** Neither the signed message nor the anchored hash fits two different payloads. */
  lemma PayloadIsBound(a: AnchorPayload, b: AnchorPayload)
    requires Signable(a) && Signable(b)
    ensures SigningMessage(a) == SigningMessage(b) <==> SamePayload(a, b)
    ensures PayloadHash(a) == PayloadHash(b) <==> SamePayload(a, b)
  {
    SignableIff(a);
    SignableIff(b);
    SameText(a, b);
    var tag, x, y := Chars("edam-anchor-payload-v1:"), SerializePayload(a).value, SerializePayload(b).value;
    assert (tag + x)[|tag|..] == x && (tag + y)[|tag|..] == y;
  }
}

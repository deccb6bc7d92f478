/**
 The token check of packages/anchor-proof/src/transparency-log.ts and the append-only log of
 services/anchoring/src/transparency-log.ts.  A signature is a free constructor over the
 signer's key and the signed record; base64 and JSON decoding have already happened.
 */
module LogProvider {
  import opened Outcomes
  import opened Instants
  import opened Digests
  import opened TransparencyLog
  import Canonical

  datatype SignedTreeHead = SignedTreeHead(logId: string, treeSize: int, rootHash: HashText, sthTime: Instant)

  datatype Signature = Signed(key: nat, head: SignedTreeHead) | Unsigned

  /** The decoded `signed_tree_head`: text that is no JSON is `Undecodable`, JSON of another shape `Misshapen`. */
  datatype Envelope = Envelope(sth: SignedTreeHead, signature: Signature) | Misshapen | Undecodable

  datatype Certificate = Certificate(logId: string, algorithm: string, key: nat)

  datatype InclusionProof = InclusionProof(logId: string, leafIndex: int, path: seq<HashText>, head: Envelope)

  datatype AnchorToken = AnchorToken(proof: InclusionProof, anchoredAt: Instant, payloadHash: HashText)

  predicate Verifies(key: nat, head: SignedTreeHead, signature: Signature) {
    signature == Signed(key, head)
  }

  predicate ValidSth(sth: SignedTreeHead) {
    sth.logId != "" && sth.treeSize >= 1 && IsHashToken(sth.rootHash) && sth.sthTime.IsReal()
  }

  predicate AllHashes(path: seq<HashText>) {
    forall i | 0 <= i < |path| :: IsHashToken(path[i])
  }

  function Hashes(path: seq<HashText>): seq<Digest>
    requires AllHashes(path)
  {
    seq(|path|, i requires 0 <= i < |path| => path[i].d)
  }

  function HashTexts(path: seq<Digest>): seq<HashText> {
    seq(|path|, i requires 0 <= i < |path| => Hash(path[i]))
  }

  /** The checks made before the audit path is climbed, in the source's order. */
  function EnvelopeVerdict(proof: InclusionProof, payloadHash: HashText, cert: Certificate): Result<SignedTreeHead> {
    if !IsHashToken(payloadHash) then Err("invalid_payload_hash")
    else if cert.algorithm != "ed25519" then Err("algorithm_mismatch")
    else if proof.logId != cert.logId then Err("log_mismatch")
    else if proof.head.Undecodable? then Err("malformed_token")
    else if proof.head.Misshapen? then Err("malformed_sth")
    else if !ValidSth(proof.head.sth) then Err("malformed_sth")
    else if proof.head.sth.logId != cert.logId then Err("log_mismatch")
    else if proof.head.sth.treeSize > Canonical.MAX_SAFE then Err("malformed_token")
    else if !Verifies(cert.key, proof.head.sth, proof.head.signature) then Err("sth_signature_invalid")
    else if !AllHashes(proof.path) then Err("malformed_proof")
    else Ok(proof.head.sth)
  }

  function TokenVerdict(proof: InclusionProof, payloadHash: HashText, cert: Certificate): Result<Instant> {
    var sth :- EnvelopeVerdict(proof, payloadHash, cert);
    if Root(proof.leafIndex, sth.treeSize, LeafHash(payloadHash.d), Hashes(proof.path)) == Some(sth.rootHash.d)
    then Ok(sth.sthTime)
    else Err("inclusion_invalid")
  }

  /**
   What makes a token good under a log's certificate, outright: one log is named throughout, the head
   is well formed and signed under the log's key, and the path climbs from the payload's leaf to its root.
   */
  ghost predicate TokenStands(proof: InclusionProof, payloadHash: HashText, cert: Certificate) {
    && payloadHash.Hash? && cert.algorithm == "ed25519" && cert.logId != ""
    && proof.logId == cert.logId && proof.head.Envelope? && proof.head.sth.logId == cert.logId
    && 1 <= proof.head.sth.treeSize <= 0x1F_FFFF_FFFF_FFFF
    && proof.head.sth.rootHash.Hash? && proof.head.sth.sthTime.IsReal()
    && proof.head.signature == Signed(cert.key, proof.head.sth)
    && (forall i | 0 <= i < |proof.path| :: proof.path[i].Hash?)
    && Root(proof.leafIndex, proof.head.sth.treeSize, LeafHash(payloadHash.d),
            seq(|proof.path|, i requires 0 <= i < |proof.path| => proof.path[i].d)) == Some(proof.head.sth.rootHash.d)
  }

  lemma AcceptedIffStands(proof: InclusionProof, payloadHash: HashText, cert: Certificate)
    ensures TokenVerdict(proof, payloadHash, cert).Ok? <==> TokenStands(proof, payloadHash, cert)
    ensures TokenVerdict(proof, payloadHash, cert).Ok? ==>
      TokenVerdict(proof, payloadHash, cert).value == proof.head.sth.sthTime
  {
    if AllHashes(proof.path) {
      assert Hashes(proof.path) == seq(|proof.path|, i requires 0 <= i < |proof.path| => proof.path[i].d);
    }
  }

  /** A token that is good but for its signature is refused for the signature. */
  lemma RejectionNamesTheFailure(proof: InclusionProof, payloadHash: HashText, cert: Certificate, signed: Signature)
    requires proof.head.Envelope?
    requires TokenStands(proof.(head := Envelope(proof.head.sth, signed)), payloadHash, cert)
    ensures TokenVerdict(proof, payloadHash, cert) ==
      if proof.head.signature == Signed(cert.key, proof.head.sth) then Ok(proof.head.sth.sthTime) else Err("sth_signature_invalid")
  {
    AcceptedIffStands(proof.(head := Envelope(proof.head.sth, signed)), payloadHash, cert);
  }

  method VerifyTransparencyLogToken(proof: InclusionProof, payloadHash: HashText, cert: Certificate) returns (r: Result<Instant>)
    ensures (proof.head.Envelope? ==> proof.head.sth.treeSize <= TWO_31) ==>
      && r == TokenVerdict(proof, payloadHash, cert)
      && (r.Ok? <==> TokenStands(proof, payloadHash, cert))
      && (r.Ok? ==> r.value == proof.head.sth.sthTime)
  {
    AcceptedIffStands(proof, payloadHash, cert);
    var sth :- EnvelopeVerdict(proof, payloadHash, cert);
    var root := RootFromInclusion(proof.leafIndex, sth.treeSize, LeafHash(payloadHash.d), Hashes(proof.path));
    if root == Some(sth.rootHash.d) {
      return Ok(sth.sthTime);
    }
    return Err("inclusion_invalid");
  }

  function TokenFor(leaves: seq<Digest>, payload: Digest, cert: Certificate, sthTime: Instant): AnchorToken {
    var index := |leaves|;
    var all := leaves + [LeafHash(payload)];
    var sth := SignedTreeHead(cert.logId, |all|, Hash(MerkleTreeHash(all)), sthTime);
    AnchorToken(
      InclusionProof(cert.logId, index, HashTexts(InclusionPath(index, all)), Envelope(sth, Signed(cert.key, sth))),
      sthTime, Hash(payload))
  }

  /**
   Completeness of the log: an issued token verifies exactly when its time is a real instant, as
   long as the number of leaves can still be signed.
   */
  lemma {:induction false} IssuedTokenVerifies(leaves: seq<Digest>, payload: Digest, cert: Certificate, sthTime: Instant)
    requires cert.algorithm == "ed25519" && cert.logId != "" && AllLeafHashes(leaves)
    ensures
      var token := TokenFor(leaves, payload, cert, sthTime);
      TokenVerdict(token.proof, Hash(payload), cert) ==
        if !sthTime.IsReal() then Err("malformed_sth")
        else if |leaves| >= Canonical.MAX_SAFE then Err("malformed_token")
        else Ok(sthTime)
  {
    var all := leaves + [LeafHash(payload)];
    var path := InclusionPath(|leaves|, all);
    InclusionIsExact(|leaves|, LeafHash(payload), path, all);
    assert Hashes(HashTexts(path)) == path;
  }

  /** The head of the first `sth.treeSize` leaves. */
  ghost predicate HeadOfPrefix(sth: SignedTreeHead, leaves: seq<Digest>) {
    0 < sth.treeSize <= |leaves| && sth.rootHash == Hash(MerkleTreeHash(leaves[..sth.treeSize]))
  }

  ghost predicate HeadsOfPrefixes(heads: seq<SignedTreeHead>, leaves: seq<Digest>) {
    forall i | 0 <= i < |heads| :: HeadOfPrefix(heads[i], leaves)
  }

  /** No signature is forged: whatever this token shows as signed under the key is one of the heads signed with it. */
  ghost predicate Unforged(proof: InclusionProof, key: nat, heads: seq<SignedTreeHead>) {
    proof.head.Envelope? && proof.head.signature.Signed? && proof.head.signature.key == key ==>
      proof.head.signature.head in heads
  }

  /** The token names a leaf of the log and carries its audit path in the tree of the head it shows. */
  ghost predicate ShowsLeaf(proof: InclusionProof, payload: Digest, leaves: seq<Digest>)
    requires proof.head.Envelope? && 0 < proof.head.sth.treeSize <= |leaves|
  {
    && 0 <= proof.leafIndex < proof.head.sth.treeSize
    && leaves[proof.leafIndex] == Sha256([Byte(0), Raw(payload)])
    && proof.path == HashTexts(InclusionPath(proof.leafIndex, leaves[..proof.head.sth.treeSize]))
  }

  /**
   What a user relies on: when the log signs heads of prefixes of its leaves only, and signatures
   cannot be forged, a token is accepted exactly when it shows a head the log signed, in good form,
   and the payload's own leaf under it.
   */
  lemma {:induction false} AcceptedTokenWasLogged(leaves: seq<Digest>, heads: seq<SignedTreeHead>,
                                                   proof: InclusionProof, payload: Digest, cert: Certificate)
    requires AllLeafHashes(leaves) && HeadsOfPrefixes(heads, leaves) && Unforged(proof, cert.key, heads)
    ensures TokenVerdict(proof, Hash(payload), cert).Ok? <==>
      && cert.algorithm == "ed25519" && cert.logId != "" && proof.logId == cert.logId
      && proof.head.Envelope? && proof.head.sth in heads && proof.head.sth.logId == cert.logId
      && proof.head.sth.treeSize <= 0x1F_FFFF_FFFF_FFFF && proof.head.sth.sthTime.IsReal()
      && proof.head.signature == Signed(cert.key, proof.head.sth)
      && ShowsLeaf(proof, payload, leaves)
  {
    AcceptedIffStands(proof, Hash(payload), cert);
    if proof.head.Envelope? && proof.head.sth in heads {
      var i :| 0 <= i < |heads| && heads[i] == proof.head.sth;
      assert HeadOfPrefix(heads[i], leaves);
      PathIsRead(proof, payload, leaves);
    }
  }

  lemma PathIsRead(proof: InclusionProof, payload: Digest, leaves: seq<Digest>)
    requires AllLeafHashes(leaves) && proof.head.Envelope? && HeadOfPrefix(proof.head.sth, leaves)
    ensures ShowsLeaf(proof, payload, leaves) <==>
      AllHashes(proof.path) &&
      Root(proof.leafIndex, proof.head.sth.treeSize, LeafHash(payload), Hashes(proof.path)) == Some(proof.head.sth.rootHash.d)
  {
    var first := leaves[..proof.head.sth.treeSize];
    if AllHashes(proof.path) {
      assert HashTexts(Hashes(proof.path)) == proof.path;
      InclusionIsExact(proof.leafIndex, LeafHash(payload), Hashes(proof.path), first);
    }
    if 0 <= proof.leafIndex < |first| {
      var path := InclusionPath(proof.leafIndex, first);
      assert Hashes(HashTexts(path)) == path;
    }
  }

  lemma HeadsStayOfPrefixes(heads: seq<SignedTreeHead>, leaves: seq<Digest>, more: seq<Digest>, sth: SignedTreeHead)
    requires HeadsOfPrefixes(heads, leaves) && |leaves| <= |more| && more[..|leaves|] == leaves && HeadOfPrefix(sth, more)
    ensures HeadsOfPrefixes(heads + [sth], more)
  {
    forall i | 0 <= i < |heads| ensures HeadOfPrefix((heads + [sth])[i], more) {
      assert HeadOfPrefix(heads[i], leaves);
      assert more[..heads[i].treeSize] == leaves[..heads[i].treeSize];
    }
  }

  /** The key-holding provider: its only changing state is the list of leaves. */
  class DevTransparencyLogProvider {
    const cert: Certificate
    const sthTime: Option<Instant>
    var leaves: seq<Digest>
    ghost var heads: seq<SignedTreeHead>

    /** Every head signed so far is of a prefix of the leaves. */
    ghost predicate Valid()
      reads this
    {
      cert.algorithm == "ed25519" && cert.logId != "" && AllLeafHashes(leaves) && HeadsOfPrefixes(heads, leaves)
    }

    constructor (key: nat, logId: string, sthTime: Option<Instant>)
      requires logId != ""
      ensures Valid() && leaves == [] && heads == [] && this.sthTime == sthTime && cert == Certificate(logId, "ed25519", key)
    {
      cert := Certificate(logId, "ed25519", key);
      this.sthTime := sthTime;
      leaves, heads := [], [];
    }

    /** The size bound is the one under which the split-point loop ends. */
    method Anchor(payloadHash: HashText, now: Instant) returns (token: Result<AnchorToken>)
      requires Valid() && |leaves| < 0x4000_0000
      modifies this
      ensures Valid()
      ensures token.Ok? <==> IsHashToken(payloadHash)
      ensures token.Err? ==> leaves == old(leaves) && heads == old(heads)
      ensures token.Ok? ==>
        var time := if sthTime.Some? then sthTime.value else now;
        token.value.proof.head.Envelope? && leaves == old(leaves) + [LeafHash(payloadHash.d)] &&
        heads == old(heads) + [token.value.proof.head.sth] &&
        token.value.proof.leafIndex == |old(leaves)| && token.value.proof.head.sth.treeSize == |leaves| &&
        token.value.proof.head.sth.rootHash == Hash(MerkleTreeHash(leaves)) &&
        token.value.anchoredAt == time &&
        TokenVerdict(token.value.proof, payloadHash, cert) == if time.IsReal() then Ok(time) else Err("malformed_sth")
    {
      if !IsHashToken(payloadHash) {
        return Err("invalid_request");
      }
      var time := if sthTime.Some? then sthTime.value else now;
      var index := |leaves|;
      IssuedTokenVerifies(leaves, payloadHash.d, cert, time);
      leaves := leaves + [LeafHash(payloadHash.d)];
      var path := InclusionPath(index, leaves);
      var sth := SignedTreeHead(cert.logId, |leaves|, Hash(MerkleTreeHash(leaves)), time);
      assert leaves[..|old(leaves)|] == old(leaves) && leaves[..sth.treeSize] == leaves;
      HeadsStayOfPrefixes(heads, old(leaves), leaves, sth);
      heads := heads + [sth];
      return Ok(AnchorToken(
        InclusionProof(cert.logId, index, HashTexts(path), Envelope(sth, Signed(cert.key, sth))), time, payloadHash));
    }

    /**
     The provider's own check; it reads no leaf, so later appends cannot change its answer.  Unless a
     signature was forged, what it accepts was logged here.
     */
    method VerifyToken(token: AnchorToken, payloadHash: HashText) returns (ok: bool)
      ensures (token.proof.head.Envelope? ==> token.proof.head.sth.treeSize <= TWO_31) ==>
        (ok <==> token.payloadHash == payloadHash && TokenStands(token.proof, payloadHash, cert) &&
                 token.anchoredAt == token.proof.head.sth.sthTime)
      ensures Valid() && (token.proof.head.Envelope? ==> token.proof.head.sth.treeSize <= TWO_31) && ok &&
              Unforged(token.proof, cert.key, heads) ==>
        0 <= token.proof.leafIndex < |leaves| && leaves[token.proof.leafIndex] == LeafHash(payloadHash.d)
    {
      if token.payloadHash != payloadHash || token.proof.logId != cert.logId {
        return false;
      }
      var verdict := VerifyTransparencyLogToken(token.proof, payloadHash, cert);
      if Valid() && payloadHash.Hash? && Unforged(token.proof, cert.key, heads) {
        AcceptedTokenWasLogged(leaves, heads, token.proof, payloadHash.d, cert);
      }
      return verdict == Ok(token.anchoredAt);
    }
  }
}

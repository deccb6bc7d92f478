/** Re-verification of one segment's object chain (packages/evidence/src/chain.ts). */
module SegmentChain {
  import opened Outcomes
  import opened Digests
  import opened CceModel
  import opened ManifestModel
  import opened ManifestBuilder

  datatype Rule = EMPTY | ORDER | HASH_LIST | EVENT_HASH | ROW_HASH | PREV_LINK

  datatype ChainFailure = ChainFailure(seqNo: int, rule: Rule)

  datatype ObjectCheck = ObjectCheck(
    seqNo: nat, objectId: Option<string>,
    eventHashOk: bool, rowHashOk: bool, prevLinkOk: bool, hashListOk: bool, orderOk: bool)

  datatype ChainVerification = ChainVerification(ok: bool, eventCount: nat, checks: seq<ObjectCheck>, failures: seq<ChainFailure>)

  /** The three index-aligned parts of a segment. */
  datatype ChainInput = ChainInput(refs: seq<ObjectRef>, hashes: seq<ObjectHash>, objects: seq<Cce>)

  // ---------- what each check means at object i ----------

  predicate InOrder(c: ChainInput, i: nat)
    requires i < |c.objects|
  {
    && i < |c.refs| && c.refs[i].seqNo == i && Some(c.refs[i].objectId) == EnvelopeId(c.objects[i])
    && i < |c.hashes| && c.hashes[i].seqNo == i
  }

  predicate EventHashHolds(o: Cce) {
    VerifyCce(o).Ok? && VerifyCce(o).value.eventHashOk
  }

  predicate RowHashHolds(o: Cce) {
    VerifyCce(o).Ok? && VerifyCce(o).value.rowHashOk
  }

  predicate Listed(c: ChainInput, i: nat)
    requires i < |c.objects|
  {
    && i < |c.hashes|
    && c.hashes[i].eventHash == c.objects[i].evidence.eventHash && c.hashes[i].rowHash == c.objects[i].evidence.rowHash
  }

  predicate LinksBack(objects: seq<Cce>, i: nat)
    requires i < |objects|
  {
    i > 0 ==> objects[i].evidence.prevRowHash == Some(objects[i - 1].evidence.rowHash)
  }

  function CheckOf(c: ChainInput, i: nat): ObjectCheck
    requires i < |c.objects|
  {
    ObjectCheck(i, EnvelopeId(c.objects[i]), EventHashHolds(c.objects[i]), RowHashHolds(c.objects[i]),
                LinksBack(c.objects, i), Listed(c, i), InOrder(c, i))
  }

  /** When a failure with this rule is located at object i. */
  ghost predicate FailsAt(c: ChainInput, i: int, rule: Rule) {
    if rule == EMPTY then c.objects == [] && i == -1
    else
      && 0 <= i < |c.objects|
      && match rule
         case ORDER => !InOrder(c, i)
         case HASH_LIST => i < |c.hashes| && !Listed(c, i)
         case EVENT_HASH => !EventHashHolds(c.objects[i])
         case ROW_HASH => !RowHashHolds(c.objects[i])
         case PREV_LINK => !LinksBack(c.objects, i)
  }

  /** The failures are exactly those located below i. */
  ghost predicate Located(failures: seq<ChainFailure>, c: ChainInput, i: int) {
    forall f :: f in failures <==> f.seqNo < i && FailsAt(c, f.seqNo, f.rule)
  }

  /** Only this failure, if any. */
  ghost predicate Only(failures: seq<ChainFailure>, f: ChainFailure, failed: bool) {
    forall g :: g in failures <==> failed && g == f
  }

  method CheckOrder(c: ChainInput, i: nat) returns (ok: bool, failures: seq<ChainFailure>)
    requires i < |c.objects|
    ensures ok == InOrder(c, i) && Only(failures, ChainFailure(i, ORDER), !ok)
  {
    ok, failures := true, [];
    if i >= |c.refs| || c.refs[i].seqNo != i || Some(c.refs[i].objectId) != EnvelopeId(c.objects[i]) {
      ok, failures := false, failures + [ChainFailure(i, ORDER)];
    }
    if i >= |c.hashes| || c.hashes[i].seqNo != i {
      ok, failures := false, failures + [ChainFailure(i, ORDER)];
    }
  }

  method CheckHashes(c: ChainInput, i: nat) returns (eventOk: bool, rowOk: bool, failures: seq<ChainFailure>)
    requires i < |c.objects|
    ensures eventOk == EventHashHolds(c.objects[i]) && rowOk == RowHashHolds(c.objects[i])
    ensures forall f :: f in failures <==>
      (!eventOk && f == ChainFailure(i, EVENT_HASH)) || (!rowOk && f == ChainFailure(i, ROW_HASH))
  {
    eventOk, rowOk, failures := false, false, [];
    var v := VerifyCce(c.objects[i]);
    if v.Ok? {
      eventOk, rowOk := v.value.eventHashOk, v.value.rowHashOk;
    } else {
      failures := failures + [ChainFailure(i, EVENT_HASH)];
    }
    if !eventOk { failures := failures + [ChainFailure(i, EVENT_HASH)]; }
    if !rowOk { failures := failures + [ChainFailure(i, ROW_HASH)]; }
  }

  method CheckListed(c: ChainInput, i: nat) returns (ok: bool, failures: seq<ChainFailure>)
    requires i < |c.objects|
    ensures ok == Listed(c, i) && Only(failures, ChainFailure(i, HASH_LIST), !ok && i < |c.hashes|)
  {
    ok, failures := true, [];
    if i >= |c.hashes| {
      ok := false;
    } else {
      if c.hashes[i].eventHash != c.objects[i].evidence.eventHash {
        ok, failures := false, failures + [ChainFailure(i, HASH_LIST)];
      }
      if c.hashes[i].rowHash != c.objects[i].evidence.rowHash {
        ok, failures := false, failures + [ChainFailure(i, HASH_LIST)];
      }
    }
  }

  /** One turn of the loop; `prevRowHash` is the row hash carried over from the turn before. */
  method CheckObject(c: ChainInput, i: nat, prevRowHash: Option<HashText>)
    returns (check: ObjectCheck, failures: seq<ChainFailure>)
    requires i < |c.objects|
    requires prevRowHash == if i == 0 then None else Some(c.objects[i - 1].evidence.rowHash)
    ensures check == CheckOf(c, i)
    ensures forall f :: f in failures <==> f.seqNo == i && FailsAt(c, i, f.rule)
  {
    var orderOk, orderFailures := CheckOrder(c, i);
    var eventHashOk, rowHashOk, hashFailures := CheckHashes(c, i);
    var hashListOk, listFailures := CheckListed(c, i);
    var prevLinkOk, linkFailures := true, [];
    if i > 0 && c.objects[i].evidence.prevRowHash != prevRowHash {
      prevLinkOk, linkFailures := false, [ChainFailure(i, PREV_LINK)];
    }
    failures := orderFailures + hashFailures + listFailures + linkFailures;
    check := ObjectCheck(i, EnvelopeId(c.objects[i]), eventHashOk, rowHashOk, prevLinkOk, hashListOk, orderOk);
  }

  method VerifySegmentChain(c: ChainInput) returns (v: ChainVerification)
    ensures v.ok <==> ChainHolds(c)
    ensures v.eventCount == |c.objects| == |v.checks|
    ensures forall i | 0 <= i < |c.objects| :: v.checks[i] == CheckOf(c, i)
    ensures Located(v.failures, c, |c.objects|)
  {
    var failures, checks := [], [];
    var n := |c.objects|;
    if n == 0 {
      return ChainVerification(false, 0, [], [ChainFailure(-1, EMPTY)]);
    }
    var prevRowHash := None;
    var i := 0;
    while i < n
      invariant 0 <= i <= n && |checks| == i
      invariant prevRowHash == if i == 0 then None else Some(c.objects[i - 1].evidence.rowHash)
      invariant forall j | 0 <= j < i :: checks[j] == CheckOf(c, j)
      invariant Located(failures, c, i)
    {
      var check, here := CheckObject(c, i, prevRowHash);
      failures := failures + here;
      checks := checks + [check];
      prevRowHash := Some(c.objects[i].evidence.rowHash);
      i := i + 1;
    }
    NoFailureMeansHolds(failures, c);
    v := ChainVerification(failures == [], n, checks, failures);
  }

  // ---------- what an accepted chain is ----------

  /** Sound objects, each linked to the one before, each described by its list entries. */
  ghost predicate ChainHolds(c: ChainInput) {
    && c.objects != []
    && forall i | 0 <= i < |c.objects| ::
         Sound(c.objects[i]) && LinksBack(c.objects, i) && Describes(c.refs, c.hashes, c.objects, i)
  }

  lemma FailsNowhere(c: ChainInput, i: nat)
    requires i < |c.objects|
    ensures (forall rule :: !FailsAt(c, i, rule)) <==>
      Sound(c.objects[i]) && LinksBack(c.objects, i) && Describes(c.refs, c.hashes, c.objects, i)
  {
    VerifyCceIsSoundness(c.objects[i]);
    if forall rule :: !FailsAt(c, i, rule) {
      assert !FailsAt(c, i, ORDER) && !FailsAt(c, i, HASH_LIST) && !FailsAt(c, i, PREV_LINK);
      assert !FailsAt(c, i, EVENT_HASH) && !FailsAt(c, i, ROW_HASH);
      assert c.hashes[i] == ObjectHash(i, c.hashes[i].eventHash, c.hashes[i].rowHash);
    }
  }

  lemma NoFailureMeansHolds(failures: seq<ChainFailure>, c: ChainInput)
    requires c.objects != [] && Located(failures, c, |c.objects|)
    ensures failures == [] <==> ChainHolds(c)
  {
    forall i | 0 <= i < |c.objects| ensures (forall rule :: !FailsAt(c, i, rule)) <==>
      Sound(c.objects[i]) && LinksBack(c.objects, i) && Describes(c.refs, c.hashes, c.objects, i)
    {
      FailsNowhere(c, i);
    }
    if failures != [] {
      assert failures[0] in failures;
    } else {
      forall i, rule | 0 <= i < |c.objects| ensures !FailsAt(c, i, rule) {
        assert ChainFailure(i, rule) !in failures;
      }
    }
  }
}

/**
 Segment manifests (packages/evidence/src/manifest.ts, types in packages/evidence/src/types.ts).
 The hashed core is written out as the JavaScript object the serializer sees.
 */
module ManifestModel {
  import opened Outcomes
  import opened Digests
  import opened Canonical
  import opened CceModel
  import CanonicalReading

  datatype ObjectRef = ObjectRef(seqNo: int, objectId: string, wormObjectKey: string)

  datatype ObjectHash = ObjectHash(seqNo: int, eventHash: HashText, rowHash: HashText)

  datatype OffsetRange = OffsetRange(firstOffsetKey: string, lastOffsetKey: string, consumedGtidSet: Option<string>)

  datatype FidelitySummary = FidelitySummary(allHealthy: bool, degraded: int, compromised: int, reasons: seq<string>)

  datatype CompletenessSummary = CompletenessSummary(gapDetected: bool, expectedContinuous: bool, notes: seq<string>)

  datatype PreviousRef = PreviousRef(segmentId: string, segmentSequence: int, segmentHash: HashText)

  /** All manifest fields except `manifest_hash`. */
  datatype ManifestCore = ManifestCore(
    segmentId: string,
    dbId: string,
    engine: string,
    segmentSequence: int,
    openedAt: string,
    sealedAt: string,
    eventCount: int,
    firstEnvelopeId: string,
    lastEnvelopeId: string,
    firstRowHash: HashText,
    lastRowHash: HashText,
    objectList: seq<ObjectRef>,
    objectHashList: seq<ObjectHash>,
    offsets: OffsetRange,
    fidelity: FidelitySummary,
    completeness: CompletenessSummary,
    previous: Option<PreviousRef>)

  datatype Manifest = Manifest(core: ManifestCore, manifestHash: HashText)

  // ---------- the object that is hashed ----------

  function HashTextOf(h: HashText): Text {
    if h.Hash? then [Token(h.d)] else Chars(h.text)
  }

  function StrV(s: string): Value {
    Str(Chars(s))
  }

  function HashV(h: HashText): Value {
    Str(HashTextOf(h))
  }

  function IntV(n: int): Value {
    Number(Integral(n))
  }

  function StringsV(ss: seq<string>): Value {
    Arr(seq(|ss|, i requires 0 <= i < |ss| => StrV(ss[i])))
  }

  function RefFields(r: ObjectRef): seq<Member> {
    [Member("seq", IntV(r.seqNo)), Member("object_id", StrV(r.objectId)),
     Member("worm_object_key", StrV(r.wormObjectKey)), Member("object_type", StrV("cce"))]
  }

  function HashFields(h: ObjectHash): seq<Member> {
    [Member("seq", IntV(h.seqNo)), Member("event_hash", HashV(h.eventHash)), Member("row_hash", HashV(h.rowHash))]
  }

  function RefsV(rs: seq<ObjectRef>): Value {
    Arr(seq(|rs|, i requires 0 <= i < |rs| => Obj(RefFields(rs[i]))))
  }

  function HashesV(hs: seq<ObjectHash>): Value {
    Arr(seq(|hs|, i requires 0 <= i < |hs| => Obj(HashFields(hs[i]))))
  }

  function OffsetFields(o: OffsetRange): seq<Member> {
    [Member("first_offset_key", StrV(o.firstOffsetKey)), Member("last_offset_key", StrV(o.lastOffsetKey)),
     Member("consumed_gtid_set", if o.consumedGtidSet.Some? then StrV(o.consumedGtidSet.value) else Undefined)]
  }

  function FidelityFields(f: FidelitySummary): seq<Member> {
    [Member("all_healthy", Bool(f.allHealthy)), Member("degraded_count", IntV(f.degraded)),
     Member("compromised_count", IntV(f.compromised)), Member("reasons", StringsV(f.reasons))]
  }

  function CompletenessFields(c: CompletenessSummary): seq<Member> {
    [Member("gap_detected", Bool(c.gapDetected)), Member("expected_continuous", Bool(c.expectedContinuous)),
     Member("notes", StringsV(c.notes))]
  }

  function PreviousFields(p: PreviousRef): seq<Member> {
    [Member("segment_id", StrV(p.segmentId)), Member("segment_sequence", IntV(p.segmentSequence)),
     Member("segment_hash", HashV(p.segmentHash))]
  }

  function PreviousV(p: Option<PreviousRef>): Value {
    if p.None? then Null else Obj(PreviousFields(p.value))
  }

  function ManifestFields(m: ManifestCore): seq<Member> {
    [Member("manifest_version", StrV("evidence-segment-manifest-1.0")),
     Member("segment_id", StrV(m.segmentId)),
     Member("db_id", StrV(m.dbId)),
     Member("engine", StrV(m.engine)),
     Member("segment_sequence", IntV(m.segmentSequence)),
     Member("opened_at", StrV(m.openedAt)),
     Member("sealed_at", StrV(m.sealedAt)),
     Member("event_count", IntV(m.eventCount)),
     Member("first_envelope_id", StrV(m.firstEnvelopeId)),
     Member("last_envelope_id", StrV(m.lastEnvelopeId)),
     Member("first_row_hash", HashV(m.firstRowHash)),
     Member("last_row_hash", HashV(m.lastRowHash)),
     Member("object_list", RefsV(m.objectList)),
     Member("object_hash_list", HashesV(m.objectHashList)),
     Member("source_offset_range", Obj(OffsetFields(m.offsets))),
     Member("fidelity_summary", Obj(FidelityFields(m.fidelity))),
     Member("completeness_summary", Obj(CompletenessFields(m.completeness))),
     Member("previous_segment", PreviousV(m.previous))]
  }

  /** `computeManifestHash` */
  function ManifestHash(m: ManifestCore): Result<Digest> {
    CoreHash(Obj(ManifestFields(m)))
  }

  // ---------- the hash fixes every field ----------

  lemma {:induction false} FieldMeaning(ms: seq<Member>, i: nat)
    requires MembersMeaning(ms).Ok? && i < |ms| && !ms[i].value.Undefined?
    ensures MeaningOf(ms[i].value).Ok? && ms[i].key in MembersMeaning(ms).value
    ensures MembersMeaning(ms).value[ms[i].key] == MeaningOf(ms[i].value).value
  {
    if i > 0 {
      FieldMeaning(ms[1..], i - 1);
    }
  }

  /** Objects of equal meaning agree on the members at one place, when those have the same name. */
  lemma SameField(a: seq<Member>, b: seq<Member>, i: nat)
    requires MembersMeaning(a).Ok? && MembersMeaning(a) == MembersMeaning(b)
    requires i < |a| && i < |b| && a[i].key == b[i].key && !a[i].value.Undefined? && !b[i].value.Undefined?
    ensures MeaningOf(a[i].value).Ok? && MeaningOf(a[i].value) == MeaningOf(b[i].value)
  {
    FieldMeaning(a, i);
    FieldMeaning(b, i);
  }

  lemma {:induction false} SameItems(a: seq<Value>, b: seq<Value>)
    requires MeaningsOf(a).Ok? && MeaningsOf(a) == MeaningsOf(b)
    ensures |a| == |b| && forall i | 0 <= i < |a| :: MeaningOf(a[i]).Ok? && MeaningOf(a[i]) == MeaningOf(b[i])
  {
    if a != [] && b != [] {
      var x, y := MeaningsOf(a[1..]).value, MeaningsOf(b[1..]).value;
      assert MeaningsOf(a).value[1..] == x && MeaningsOf(b).value[1..] == y;
      assert MeaningsOf(a).value[0] == MeaningOf(a[0]).value && MeaningsOf(b).value[0] == MeaningOf(b[0]).value;
      SameItems(a[1..], b[1..]);
    }
  }

  lemma SameString(a: string, b: string)
    requires MeaningOf(StrV(a)) == MeaningOf(StrV(b))
    ensures a == b
  {
    CanonicalReading.CharsInjective(a, b);
  }

  lemma SameHash(a: HashText, b: HashText)
    requires MeaningOf(HashV(a)) == MeaningOf(HashV(b))
    ensures a == b
  {
    assert a.Hash? ==> HashTextOf(a)[0] == Token(a.d);
    assert b.Hash? ==> HashTextOf(b)[0] == Token(b.d);
    if a.Malformed? && b.Malformed? {
      CanonicalReading.CharsInjective(a.text, b.text);
    }
  }

  lemma SameInt(a: int, b: int)
    requires MeaningOf(IntV(a)).Ok? && MeaningOf(IntV(a)) == MeaningOf(IntV(b))
    ensures a == b
  {
  }

  lemma SameStrings(a: seq<string>, b: seq<string>)
    requires MeaningOf(StringsV(a)).Ok? && MeaningOf(StringsV(a)) == MeaningOf(StringsV(b))
    ensures a == b
  {
    SameItems(StringsV(a).items, StringsV(b).items);
    forall i | 0 <= i < |a| ensures a[i] == b[i] {
      assert MeaningOf(StringsV(a).items[i]) == MeaningOf(StringsV(b).items[i]);
      SameString(a[i], b[i]);
    }
  }

  lemma SameRef(a: ObjectRef, b: ObjectRef)
    requires MeaningOf(Obj(RefFields(a))).Ok? && MeaningOf(Obj(RefFields(a))) == MeaningOf(Obj(RefFields(b)))
    ensures a == b
  {
    SameField(RefFields(a), RefFields(b), 0);
    SameField(RefFields(a), RefFields(b), 1);
    SameField(RefFields(a), RefFields(b), 2);
    SameString(a.objectId, b.objectId);
    SameString(a.wormObjectKey, b.wormObjectKey);
  }

  lemma SameObjectHash(a: ObjectHash, b: ObjectHash)
    requires MeaningOf(Obj(HashFields(a))).Ok? && MeaningOf(Obj(HashFields(a))) == MeaningOf(Obj(HashFields(b)))
    ensures a == b
  {
    SameField(HashFields(a), HashFields(b), 0);
    SameField(HashFields(a), HashFields(b), 1);
    SameField(HashFields(a), HashFields(b), 2);
    SameHash(a.eventHash, b.eventHash);
    SameHash(a.rowHash, b.rowHash);
  }

  lemma SameRefs(a: seq<ObjectRef>, b: seq<ObjectRef>)
    requires MeaningOf(RefsV(a)).Ok? && MeaningOf(RefsV(a)) == MeaningOf(RefsV(b))
    ensures a == b
  {
    SameItems(RefsV(a).items, RefsV(b).items);
    forall i | 0 <= i < |a| ensures a[i] == b[i] {
      assert MeaningOf(RefsV(a).items[i]) == MeaningOf(RefsV(b).items[i]);
      SameRef(a[i], b[i]);
    }
  }

  lemma SameHashes(a: seq<ObjectHash>, b: seq<ObjectHash>)
    requires MeaningOf(HashesV(a)).Ok? && MeaningOf(HashesV(a)) == MeaningOf(HashesV(b))
    ensures a == b
  {
    SameItems(HashesV(a).items, HashesV(b).items);
    forall i | 0 <= i < |a| ensures a[i] == b[i] {
      assert MeaningOf(HashesV(a).items[i]) == MeaningOf(HashesV(b).items[i]);
      SameObjectHash(a[i], b[i]);
    }
  }

  lemma {:induction false} SizeCountsMembers(ms: seq<Member>)
    requires MembersMeaning(ms).Ok?
    ensures |MembersMeaning(ms).value| == Defined(ms)
  {
    if ms != [] {
      SizeCountsMembers(ms[1..]);
      var rest := MembersMeaning(ms[1..]).value;
      if !ms[0].value.Undefined? {
        assert MembersMeaning(ms).value.Keys == rest.Keys + {ms[0].key};
        assert |MembersMeaning(ms).value| == |MembersMeaning(ms).value.Keys| && |rest| == |rest.Keys|;
      }
    }
  }

  function Defined(ms: seq<Member>): nat {
    if ms == [] then 0 else (if ms[0].value.Undefined? then 0 else 1) + Defined(ms[1..])
  }

  lemma OffsetsDefined(o: OffsetRange)
    ensures Defined(OffsetFields(o)) == if o.consumedGtidSet.Some? then 3 else 2
  {
    var f := OffsetFields(o);
    assert Defined(f[3..]) == 0;
    assert f[2..][1..] == f[3..] && f[1..][1..] == f[2..];
    assert Defined(f[2..]) == if o.consumedGtidSet.Some? then 1 else 0;
    assert Defined(f[1..]) == 1 + Defined(f[2..]);
  }

  lemma SameOffsets(a: OffsetRange, b: OffsetRange)
    requires MeaningOf(Obj(OffsetFields(a))).Ok? && MeaningOf(Obj(OffsetFields(a))) == MeaningOf(Obj(OffsetFields(b)))
    ensures a == b
  {
    SameField(OffsetFields(a), OffsetFields(b), 0);
    SameField(OffsetFields(a), OffsetFields(b), 1);
    SameString(a.firstOffsetKey, b.firstOffsetKey);
    SameString(a.lastOffsetKey, b.lastOffsetKey);
    SizeCountsMembers(OffsetFields(a));
    SizeCountsMembers(OffsetFields(b));
    OffsetsDefined(a);
    OffsetsDefined(b);
    if a.consumedGtidSet.Some? {
      SameField(OffsetFields(a), OffsetFields(b), 2);
      SameString(a.consumedGtidSet.value, b.consumedGtidSet.value);
    }
  }

  lemma SameFidelity(a: FidelitySummary, b: FidelitySummary)
    requires MeaningOf(Obj(FidelityFields(a))).Ok?
    requires MeaningOf(Obj(FidelityFields(a))) == MeaningOf(Obj(FidelityFields(b)))
    ensures a == b
  {
    SameField(FidelityFields(a), FidelityFields(b), 0);
    SameField(FidelityFields(a), FidelityFields(b), 1);
    SameField(FidelityFields(a), FidelityFields(b), 2);
    SameField(FidelityFields(a), FidelityFields(b), 3);
    SameStrings(a.reasons, b.reasons);
  }

  lemma SameCompleteness(a: CompletenessSummary, b: CompletenessSummary)
    requires MeaningOf(Obj(CompletenessFields(a))).Ok?
    requires MeaningOf(Obj(CompletenessFields(a))) == MeaningOf(Obj(CompletenessFields(b)))
    ensures a == b
  {
    SameField(CompletenessFields(a), CompletenessFields(b), 0);
    SameField(CompletenessFields(a), CompletenessFields(b), 1);
    SameField(CompletenessFields(a), CompletenessFields(b), 2);
    SameStrings(a.notes, b.notes);
  }

  lemma SamePrevious(a: Option<PreviousRef>, b: Option<PreviousRef>)
    requires MeaningOf(PreviousV(a)).Ok? && MeaningOf(PreviousV(a)) == MeaningOf(PreviousV(b))
    ensures a == b
  {
    if a.Some? && b.Some? {
      var x, y := PreviousFields(a.value), PreviousFields(b.value);
      SameField(x, y, 0);
      SameField(x, y, 1);
      SameField(x, y, 2);
      SameString(a.value.segmentId, b.value.segmentId);
      SameHash(a.value.segmentHash, b.value.segmentHash);
    }
  }

  ghost predicate Agree(a: ManifestCore, b: ManifestCore) {
    && MembersMeaning(ManifestFields(a)).Ok?
    && MembersMeaning(ManifestFields(a)) == MembersMeaning(ManifestFields(b))
  }

  lemma FieldNames(a: ManifestCore, b: ManifestCore, i: nat)
    requires i < 18
    ensures ManifestFields(a)[i].key == ManifestFields(b)[i].key
    ensures !ManifestFields(a)[i].value.Undefined? && !ManifestFields(b)[i].value.Undefined?
  {
    if i < 6 {
    } else if i < 12 {
    } else {
    }
  }

  lemma AgreeAt(a: ManifestCore, b: ManifestCore, i: nat)
    requires Agree(a, b) && i < 18
    ensures MeaningOf(ManifestFields(a)[i].value).Ok?
    ensures MeaningOf(ManifestFields(a)[i].value) == MeaningOf(ManifestFields(b)[i].value)
  {
    FieldNames(a, b, i);
    SameField(ManifestFields(a), ManifestFields(b), i);
  }

  lemma SameSegmentId(a: ManifestCore, b: ManifestCore)
    requires Agree(a, b)
    ensures a.segmentId == b.segmentId
  {
    AgreeAt(a, b, 1);
    SameString(a.segmentId, b.segmentId);
  }

  lemma SameOrigin(a: ManifestCore, b: ManifestCore)
    requires Agree(a, b)
    ensures a.dbId == b.dbId && a.engine == b.engine
  {
    AgreeAt(a, b, 2);
    SameString(a.dbId, b.dbId);
    AgreeAt(a, b, 3);
    SameString(a.engine, b.engine);
  }

  lemma SameTimes(a: ManifestCore, b: ManifestCore)
    requires Agree(a, b)
    ensures a.openedAt == b.openedAt && a.sealedAt == b.sealedAt
  {
    AgreeAt(a, b, 5);
    SameString(a.openedAt, b.openedAt);
    AgreeAt(a, b, 6);
    SameString(a.sealedAt, b.sealedAt);
  }

  lemma SameSequence(a: ManifestCore, b: ManifestCore)
    requires Agree(a, b)
    ensures a.segmentSequence == b.segmentSequence
  {
    AgreeAt(a, b, 4);
    SameInt(a.segmentSequence, b.segmentSequence);
  }

  lemma SameEventCount(a: ManifestCore, b: ManifestCore)
    requires Agree(a, b)
    ensures a.eventCount == b.eventCount
  {
    AgreeAt(a, b, 7);
    SameInt(a.eventCount, b.eventCount);
  }

  lemma SameEnds(a: ManifestCore, b: ManifestCore)
    requires Agree(a, b)
    ensures a.firstEnvelopeId == b.firstEnvelopeId && a.lastEnvelopeId == b.lastEnvelopeId
    ensures a.firstRowHash == b.firstRowHash && a.lastRowHash == b.lastRowHash
  {
    AgreeAt(a, b, 8);
    SameString(a.firstEnvelopeId, b.firstEnvelopeId);
    AgreeAt(a, b, 9);
    SameString(a.lastEnvelopeId, b.lastEnvelopeId);
    AgreeAt(a, b, 10);
    SameHash(a.firstRowHash, b.firstRowHash);
    AgreeAt(a, b, 11);
    SameHash(a.lastRowHash, b.lastRowHash);
  }

  lemma SameObjectList(a: ManifestCore, b: ManifestCore)
    requires Agree(a, b)
    ensures a.objectList == b.objectList
  {
    AgreeAt(a, b, 12);
    SameRefs(a.objectList, b.objectList);
  }

  lemma SameHashList(a: ManifestCore, b: ManifestCore)
    requires Agree(a, b)
    ensures a.objectHashList == b.objectHashList && a.offsets == b.offsets
  {
    AgreeAt(a, b, 13);
    SameHashes(a.objectHashList, b.objectHashList);
    AgreeAt(a, b, 14);
    SameOffsets(a.offsets, b.offsets);
  }

  lemma SameSummaries(a: ManifestCore, b: ManifestCore)
    requires Agree(a, b)
    ensures a.fidelity == b.fidelity && a.completeness == b.completeness && a.previous == b.previous
  {
    AgreeAt(a, b, 15);
    SameFidelity(a.fidelity, b.fidelity);
    AgreeAt(a, b, 16);
    SameCompleteness(a.completeness, b.completeness);
    AgreeAt(a, b, 17);
    SamePrevious(a.previous, b.previous);
  }

  /** Equal manifest hashes mean equal manifests, field by field. */
  lemma ManifestHashBindsManifest(a: ManifestCore, b: ManifestCore)
    requires ManifestHash(a).Ok? && ManifestHash(b).Ok?
    ensures ManifestHash(a) == ManifestHash(b) <==> a == b
  {
    if ManifestHash(a) == ManifestHash(b) {
      CanonicalReading.SerializationIsUnambiguous(Obj(ManifestFields(a)), Obj(ManifestFields(b)));
      assert MeaningOf(Obj(ManifestFields(a))) == MeaningOf(Obj(ManifestFields(b)));
      SameSegmentId(a, b);
      SameOrigin(a, b);
      SameTimes(a, b);
      SameSequence(a, b);
      SameEventCount(a, b);
      SameEnds(a, b);
      SameObjectList(a, b);
      SameHashList(a, b);
      SameSummaries(a, b);
    }
  }
}

/** Which manifests can be hashed at all: exactly those whose numbers are safe integers. */
module ManifestSerialization {
  import opened Outcomes
  import opened Canonical
  import opened CceModel
  import opened ManifestModel
  import CanonicalReading

  predicate Safe(n: int) {
    -MAX_SAFE <= n <= MAX_SAFE
  }

  predicate SafeNumbers(m: ManifestCore) {
    && Safe(m.segmentSequence) && Safe(m.eventCount) && Safe(m.fidelity.degraded) && Safe(m.fidelity.compromised)
    && (forall i | 0 <= i < |m.objectList| :: Safe(m.objectList[i].seqNo))
    && (forall i | 0 <= i < |m.objectHashList| :: Safe(m.objectHashList[i].seqNo))
    && (m.previous.Some? ==> Safe(m.previous.value.segmentSequence))
  }

  predicate Meaningful(v: Value) {
    v.Undefined? || MeaningOf(v).Ok?
  }

  ghost predicate AllMeaningful(ms: seq<Member>) {
    forall i | 0 <= i < |ms| :: Meaningful(ms[i].value)
  }

  /** An object with distinct names has a meaning exactly when all its members do. */
  lemma {:induction false} ObjectIsMeaningful(ms: seq<Member>)
    requires DistinctKeys(Obj(ms))
    ensures MembersMeaning(ms).Ok? <==> AllMeaningful(ms)
  {
    if ms != [] {
      var rest := ms[1..];
      assert forall i | 0 <= i < |rest| :: rest[i] == ms[i + 1];
      ObjectIsMeaningful(rest);
      assert AllMeaningful(ms) <==> Meaningful(ms[0].value) && AllMeaningful(rest) by {
        assert forall i | 1 <= i < |ms| :: ms[i] == rest[i - 1];
      }
      if MembersMeaning(rest).Ok? {
        KeysAreMembers(rest, ms[0].key);
      }
    }
  }

  lemma {:induction false} ArrayIsMeaningful(items: seq<Value>)
    ensures MeaningsOf(items).Ok? <==> forall i | 0 <= i < |items| :: MeaningOf(items[i]).Ok?
  {
    if items != [] {
      ArrayIsMeaningful(items[1..]);
      assert forall i | 1 <= i < |items| :: items[i] == items[1..][i - 1];
      assert forall i | 0 <= i < |items[1..]| :: items[1..][i] == items[i + 1];
    }
  }

  lemma StringsAreMeaningful(ss: seq<string>)
    ensures MeaningOf(StringsV(ss)).Ok?
  {
    ArrayIsMeaningful(StringsV(ss).items);
  }

  lemma RefsAreMeaningful(rs: seq<ObjectRef>)
    ensures MeaningOf(RefsV(rs)).Ok? <==> forall i | 0 <= i < |rs| :: Safe(rs[i].seqNo)
  {
    ArrayIsMeaningful(RefsV(rs).items);
    forall i | 0 <= i < |rs| ensures MeaningOf(RefsV(rs).items[i]).Ok? <==> Safe(rs[i].seqNo) {
      RefIsMeaningful(rs[i]);
    }
  }

  lemma RefIsMeaningful(r: ObjectRef)
    ensures MeaningOf(Obj(RefFields(r))).Ok? <==> Safe(r.seqNo)
  {
    var f := RefFields(r);
    ObjectIsMeaningful(f);
    assert Meaningful(f[0].value) <==> Safe(r.seqNo);
    assert Meaningful(f[1].value) && Meaningful(f[2].value) && Meaningful(f[3].value);
  }

  lemma HashesAreMeaningful(hs: seq<ObjectHash>)
    ensures MeaningOf(HashesV(hs)).Ok? <==> forall i | 0 <= i < |hs| :: Safe(hs[i].seqNo)
  {
    ArrayIsMeaningful(HashesV(hs).items);
    forall i | 0 <= i < |hs| ensures MeaningOf(HashesV(hs).items[i]).Ok? <==> Safe(hs[i].seqNo) {
      HashIsMeaningful(hs[i]);
    }
  }

  lemma HashIsMeaningful(h: ObjectHash)
    ensures MeaningOf(Obj(HashFields(h))).Ok? <==> Safe(h.seqNo)
  {
    var f := HashFields(h);
    ObjectIsMeaningful(f);
    assert Meaningful(f[0].value) <==> Safe(h.seqNo);
    assert Meaningful(f[1].value) && Meaningful(f[2].value);
  }

  lemma OffsetsAreMeaningful(o: OffsetRange)
    ensures MeaningOf(Obj(OffsetFields(o))).Ok?
  {
    var f := OffsetFields(o);
    ObjectIsMeaningful(f);
    assert Meaningful(f[0].value) && Meaningful(f[1].value) && Meaningful(f[2].value);
  }

  lemma FidelityIsMeaningful(x: FidelitySummary)
    ensures MeaningOf(Obj(FidelityFields(x))).Ok? <==> Safe(x.degraded) && Safe(x.compromised)
  {
    var f := FidelityFields(x);
    ObjectIsMeaningful(f);
    StringsAreMeaningful(x.reasons);
    assert Meaningful(f[1].value) <==> Safe(x.degraded);
    assert Meaningful(f[2].value) <==> Safe(x.compromised);
    assert Meaningful(f[0].value) && Meaningful(f[3].value);
  }

  lemma CompletenessIsMeaningful(x: CompletenessSummary)
    ensures MeaningOf(Obj(CompletenessFields(x))).Ok?
  {
    var f := CompletenessFields(x);
    ObjectIsMeaningful(f);
    StringsAreMeaningful(x.notes);
    assert Meaningful(f[0].value) && Meaningful(f[1].value) && Meaningful(f[2].value);
  }

  lemma PreviousIsMeaningful(p: Option<PreviousRef>)
    ensures MeaningOf(PreviousV(p)).Ok? <==> p.None? || Safe(p.value.segmentSequence)
  {
    if p.Some? {
      var f := PreviousFields(p.value);
      ObjectIsMeaningful(f);
      assert Meaningful(f[1].value) <==> Safe(p.value.segmentSequence);
      assert Meaningful(f[0].value) && Meaningful(f[2].value);
    }
  }

  /** The place of a field name, told from its length and first letter. */
  function Place(key: string): int {
    if |key| == 16 then
      if key[0] == 'm' then 0 else if key[0] == 's' then 4 else if key[0] == 'l' then 9
      else if key[0] == 'o' then 13 else if key[0] == 'f' then 15 else 17
    else if |key| == 9 then (if key[0] == 'o' then 5 else 6)
    else if |key| == 11 then (if key[0] == 'e' then 7 else 12)
    else if |key| == 10 then 1
    else if |key| == 5 then 2
    else if |key| == 6 then 3
    else if |key| == 17 then 8
    else if |key| == 14 then 10
    else if |key| == 13 then 11
    else if |key| == 19 then 14
    else 16
  }

  lemma PlaceOfField(m: ManifestCore, i: nat)
    requires i < 18
    ensures Place(ManifestFields(m)[i].key) == i
  {
    if i < 6 {
    } else if i < 12 {
    } else {
    }
  }

  lemma FieldNamesAreDistinct(m: ManifestCore)
    ensures DistinctKeys(Obj(ManifestFields(m)))
  {
    forall i, j | 0 <= i < j < 18 ensures ManifestFields(m)[i].key != ManifestFields(m)[j].key {
      PlaceOfField(m, i);
      PlaceOfField(m, j);
    }
  }

  /** The fields that hold text only always have a meaning. */
  lemma TextFields(m: ManifestCore, i: nat)
    requires i < 18 && i != 4 && i != 7 && (i < 12)
    ensures Meaningful(ManifestFields(m)[i].value)
  {
    if i < 6 {
    } else {
    }
  }

  lemma StructuredFields(m: ManifestCore)
    ensures Meaningful(ManifestFields(m)[12].value) <==> forall i | 0 <= i < |m.objectList| :: Safe(m.objectList[i].seqNo)
    ensures Meaningful(ManifestFields(m)[13].value) <==> forall i | 0 <= i < |m.objectHashList| :: Safe(m.objectHashList[i].seqNo)
    ensures Meaningful(ManifestFields(m)[14].value) && Meaningful(ManifestFields(m)[16].value)
  {
    RefsAreMeaningful(m.objectList);
    HashesAreMeaningful(m.objectHashList);
    OffsetsAreMeaningful(m.offsets);
    CompletenessIsMeaningful(m.completeness);
  }

  lemma NumberFields(m: ManifestCore)
    ensures Meaningful(ManifestFields(m)[4].value) <==> Safe(m.segmentSequence)
    ensures Meaningful(ManifestFields(m)[7].value) <==> Safe(m.eventCount)
    ensures Meaningful(ManifestFields(m)[15].value) <==> Safe(m.fidelity.degraded) && Safe(m.fidelity.compromised)
    ensures Meaningful(ManifestFields(m)[17].value) <==> m.previous.None? || Safe(m.previous.value.segmentSequence)
  {
    FidelityIsMeaningful(m.fidelity);
    PreviousIsMeaningful(m.previous);
  }

  lemma SafeMeansMeaningful(m: ManifestCore)
    requires SafeNumbers(m)
    ensures AllMeaningful(ManifestFields(m))
  {
    StructuredFields(m);
    NumberFields(m);
    forall i | 0 <= i < 18 ensures Meaningful(ManifestFields(m)[i].value) {
      if i < 12 && i != 4 && i != 7 {
        TextFields(m, i);
      }
    }
  }

  /** Hashing a manifest throws exactly when one of its numbers is not a safe integer. */
  lemma ManifestHashesIffSafe(m: ManifestCore)
    ensures ManifestHash(m).Ok? <==> SafeNumbers(m)
  {
    var f := ManifestFields(m);
    FieldNamesAreDistinct(m);
    ObjectIsMeaningful(f);
    CanonicalReading.SerializableIffMeaningful(Obj(f));
    if SafeNumbers(m) {
      SafeMeansMeaningful(m);
    } else {
      StructuredFields(m);
      NumberFields(m);
    }
  }
}

/** Building a manifest: the cross-checks and `buildSegmentManifest`. */
module ManifestBuilder {
  import opened Outcomes
  import opened Digests
  import opened CceModel
  import opened ManifestModel

  datatype SealTrigger = EventCountCap | TimeCap | Flush

  /** A closed segment ready for sealing; `objects` travel with it and are never hashed. */
  datatype SealReady = SealReady(
    dbId: string,
    engine: string,
    segmentId: string,
    segmentSequence: int,
    openedAt: string,
    closedAt: string,
    trigger: SealTrigger,
    eventCount: int,
    firstEnvelopeId: string,
    lastEnvelopeId: string,
    firstRowHash: HashText,
    lastRowHash: HashText,
    objectList: seq<ObjectRef>,
    objectHashList: seq<ObjectHash>,
    offsets: OffsetRange,
    fidelity: FidelitySummary,
    completeness: CompletenessSummary,
    objects: seq<Cce>)

  type SchemaCheck = Manifest -> bool

  /** Entry i of both lists describes object i. */
  predicate Describes(refs: seq<ObjectRef>, hashes: seq<ObjectHash>, objects: seq<Cce>, i: nat) {
    && i < |refs| && i < |hashes| && i < |objects|
    && refs[i].seqNo == i && EnvelopeId(objects[i]) == Some(refs[i].objectId)
    && hashes[i] == ObjectHash(i, objects[i].evidence.eventHash, objects[i].evidence.rowHash)
  }

  /** The ends recorded for a segment are those of its lists. */
  predicate EndsMatch(firstId: string, lastId: string, firstRow: HashText, lastRow: HashText,
                      refs: seq<ObjectRef>, hashes: seq<ObjectHash>)
  {
    && refs != [] && |hashes| >= |refs|
    && firstId == refs[0].objectId && lastId == refs[|refs| - 1].objectId
    && firstRow == hashes[0].rowHash && lastRow == hashes[|refs| - 1].rowHash
  }

  predicate Coherent(seg: SealReady) {
    && seg.eventCount == |seg.objectList| == |seg.objectHashList| == |seg.objects|
    && (forall i | 0 <= i < |seg.objectList| :: Describes(seg.objectList, seg.objectHashList, seg.objects, i))
    && EndsMatch(seg.firstEnvelopeId, seg.lastEnvelopeId, seg.firstRowHash, seg.lastRowHash, seg.objectList, seg.objectHashList)
  }

  method CrossCheck(seg: SealReady) returns (problems: seq<string>)
    ensures problems == [] <==> Coherent(seg)
  {
    problems := [];
    var n := |seg.objectList|;
    if n < 1 { problems := problems + ["empty segment"]; }
    if seg.eventCount != n { problems := problems + ["event_count"]; }
    if |seg.objectHashList| != n { problems := problems + ["object_hash_list.length"]; }
    if |seg.objects| != n { problems := problems + ["objects.length"]; }
    ghost var counts := problems == [];
    var i := 0;
    while i < n
      invariant 0 <= i <= n
      invariant problems == [] <==>
        counts && forall j | 0 <= j < i :: Describes(seg.objectList, seg.objectHashList, seg.objects, j)
    {
      var here := CheckEntry(seg, i);
      problems := problems + here;
      i := i + 1;
    }
    if n >= 1 {
      if seg.firstEnvelopeId != seg.objectList[0].objectId { problems := problems + ["first_envelope_id"]; }
      if seg.lastEnvelopeId != seg.objectList[n - 1].objectId { problems := problems + ["last_envelope_id"]; }
      if |seg.objectHashList| == 0 { problems := problems + ["object_hash_list[0] missing"]; }
      else if seg.firstRowHash != seg.objectHashList[0].rowHash { problems := problems + ["first_row_hash"]; }
      if |seg.objectHashList| < n { problems := problems + ["object_hash_list[last] missing"]; }
      else if seg.lastRowHash != seg.objectHashList[n - 1].rowHash { problems := problems + ["last_row_hash"]; }
    }
  }

  /** One turn of the loop in `crossCheck`. */
  method CheckEntry(seg: SealReady, i: nat) returns (problems: seq<string>)
    requires i < |seg.objectList|
    ensures problems == [] <==> Describes(seg.objectList, seg.objectHashList, seg.objects, i)
  {
    problems := [];
    var r := seg.objectList[i];
    var listed := i < |seg.objectHashList|;
    if r.seqNo != i { problems := problems + ["object_list.seq"]; }
    if !listed { problems := problems + ["object_hash_list entry missing"]; }
    else if seg.objectHashList[i].seqNo != i { problems := problems + ["object_hash_list.seq"]; }
    if i >= |seg.objects| { problems := problems + ["object missing"]; }
    else {
      var e := seg.objects[i].evidence;
      if Some(r.objectId) != EnvelopeId(seg.objects[i]) { problems := problems + ["object_id"]; }
      if listed && seg.objectHashList[i].eventHash != e.eventHash { problems := problems + ["event_hash"]; }
      if listed && seg.objectHashList[i].rowHash != e.rowHash { problems := problems + ["row_hash"]; }
    }
  }

  function ResolvePrevious(sequence: int, previous: Option<PreviousRef>): Result<Option<PreviousRef>> {
    if sequence == 0 && previous.Some? then Err("genesis segment must not have a previous_segment")
    else if sequence != 0 && previous.None? then Err("non-genesis segment requires a previous_segment")
    else Ok(previous)
  }

  function CoreOf(seg: SealReady, sealedAt: string, previous: Option<PreviousRef>): ManifestCore {
    ManifestCore(seg.segmentId, seg.dbId, seg.engine, seg.segmentSequence, seg.openedAt, sealedAt, seg.eventCount,
                 seg.firstEnvelopeId, seg.lastEnvelopeId, seg.firstRowHash, seg.lastRowHash,
                 seg.objectList, seg.objectHashList, seg.offsets, seg.fidelity, seg.completeness, previous)
  }

  /** `assembleManifestCore`, hashing and validation, once the cross-checks have passed. */
  function Assemble(seg: SealReady, sealedAt: string, previous: Option<PreviousRef>, valid: SchemaCheck): Result<Manifest> {
    var link :- ResolvePrevious(seg.segmentSequence, previous);
    var core := CoreOf(seg, sealedAt, link);
    var hash :- ManifestHash(core);
    var manifest := Manifest(core, Hash(hash));
    if valid(manifest) then Ok(manifest) else Err("built segment manifest failed validation")
  }

  /** What a built manifest promises about the segment it was built from. */
  ghost predicate BuiltFrom(m: Manifest, seg: SealReady, sealedAt: string, previous: Option<PreviousRef>, valid: SchemaCheck) {
    && Coherent(seg) && (seg.segmentSequence == 0 <==> previous.None?)
    && m.core == CoreOf(seg, sealedAt, previous)
    && ManifestHash(m.core).Ok? && m.manifestHash == Hash(ManifestHash(m.core).value)
    && valid(m)
  }

  lemma AssembledIsBuilt(seg: SealReady, sealedAt: string, previous: Option<PreviousRef>, valid: SchemaCheck)
    requires Coherent(seg)
    ensures var r := Assemble(seg, sealedAt, previous, valid);
      if r.Ok? then BuiltFrom(r.value, seg, sealedAt, previous, valid)
      else forall m :: !BuiltFrom(m, seg, sealedAt, previous, valid)
  {
  }

  method BuildSegmentManifest(seg: SealReady, sealedAt: string, previous: Option<PreviousRef>, valid: SchemaCheck)
    returns (r: Result<Manifest>)
    ensures r.Ok? ==> BuiltFrom(r.value, seg, sealedAt, previous, valid)
    ensures r.Err? ==> forall m :: !BuiltFrom(m, seg, sealedAt, previous, valid)
  {
    var problems := CrossCheck(seg);
    if problems != [] {
      return Err("inconsistent SealReadySegment");
    }
    AssembledIsBuilt(seg, sealedAt, previous, valid);
    r := Assemble(seg, sealedAt, previous, valid);
  }
}

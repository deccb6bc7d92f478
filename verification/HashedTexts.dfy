/**
 What the hashed and stored texts say, read back by the JSON reader: the fields of a manifest, of an
 anchor payload, of a row identity and of a stored envelope, each under its name.
 */
module HashedTexts {
  import opened Outcomes
  import opened Digests
  import opened Canonical
  import opened CceModel
  import opened ManifestModel
  import opened JsonReading
  import CanonicalReading
  import AnchorPayloads
  import EvidenceWriting
  import Sealer

  // ---------- reading what was written ----------

  /** The text is one JSON text with ascending keys, and this is what it means. */
  ghost predicate ReadsAs(t: Text, x: Meaning) {
    ReadText(t).Ok? && StandsFor(ReadText(t).value, x) && KeysAscend(ReadText(t).value)
  }

  ghost predicate Has(x: Meaning, key: string) {
    x.MObj? && key in x.members
  }

  ghost function Named(x: Meaning, key: string): Meaning
    requires Has(x, key)
  {
    x.members[key]
  }

  ghost predicate Says(x: Meaning, key: string, v: Meaning) {
    Has(x, key) && Named(x, key) == v
  }

  function Words(s: string): Meaning {
    MStr(seq(|s|, i requires 0 <= i < |s| => Char(s[i])))
  }

  /** A hash is written as its token, anything else as it stands. */
  function Spelt(h: HashText): Meaning {
    if h.Hash? then MStr([Token(h.d)]) else Words(h.text)
  }

  lemma TextReads(v: Value)
    requires Serialize(v).Ok?
    ensures MeaningOf(v).Ok? && ReadsAs(Serialize(v).value, MeaningOf(v).value)
  {
    SerializedReadsBack(v);
  }

  lemma FieldSays(ms: seq<Member>, i: nat)
    requires MembersMeaning(ms).Ok? && i < |ms| && !ms[i].value.Undefined?
    ensures MeaningOf(ms[i].value).Ok?
    ensures Says(MObj(MembersMeaning(ms).value), ms[i].key, MeaningOf(ms[i].value).value)
  {
    FieldMeaning(ms, i);
  }

  /** An object holds its defined members and no others. */
  lemma {:induction false} KeysAreOfMembers(ms: seq<Member>, key: string)
    requires MembersMeaning(ms).Ok?
    ensures key in MembersMeaning(ms).value <==> exists i | 0 <= i < |ms| :: ms[i].key == key && !ms[i].value.Undefined?
  {
    if ms != [] {
      KeysAreOfMembers(ms[1..], key);
      if key in MembersMeaning(ms).value && (ms[0].key != key || ms[0].value.Undefined?) {
        var i :| 0 <= i < |ms[1..]| && ms[1..][i].key == key && !ms[1..][i].value.Undefined?;
        assert ms[i + 1].key == key;
      }
      if i :| 0 <= i < |ms| && ms[i].key == key && !ms[i].value.Undefined? {
        if i > 0 {
          assert ms[1..][i - 1] == ms[i];
        }
      }
    }
  }

  lemma {:induction false} ItemsMean(items: seq<Value>)
    requires MeaningsOf(items).Ok?
    ensures |MeaningsOf(items).value| == |items|
    ensures forall i | 0 <= i < |items| :: MeaningOf(items[i]).Ok? && MeaningsOf(items).value[i] == MeaningOf(items[i]).value
  {
    if items != [] {
      ItemsMean(items[1..]);
    }
  }

  // ---------- the parts of a manifest ----------

  ghost predicate RecordsRef(x: Meaning, r: ObjectRef) {
    && Says(x, "seq", MInt(r.seqNo)) && Says(x, "object_id", Words(r.objectId))
    && Says(x, "worm_object_key", Words(r.wormObjectKey)) && Says(x, "object_type", Words("cce"))
  }

  ghost predicate RecordsHashes(x: Meaning, h: ObjectHash) {
    && Says(x, "seq", MInt(h.seqNo)) && Says(x, "event_hash", Spelt(h.eventHash)) && Says(x, "row_hash", Spelt(h.rowHash))
  }

  ghost predicate ListsRefs(x: Meaning, rs: seq<ObjectRef>) {
    x.MArr? && |x.items| == |rs| && forall i | 0 <= i < |rs| :: RecordsRef(x.items[i], rs[i])
  }

  ghost predicate ListsHashes(x: Meaning, hs: seq<ObjectHash>) {
    x.MArr? && |x.items| == |hs| && forall i | 0 <= i < |hs| :: RecordsHashes(x.items[i], hs[i])
  }

  ghost predicate ListsWords(x: Meaning, ss: seq<string>) {
    x.MArr? && |x.items| == |ss| && forall i | 0 <= i < |ss| :: x.items[i] == Words(ss[i])
  }

  /** Optional: written when it is there, left out when it is not. */
  ghost predicate SaysIfAny(x: Meaning, key: string, s: Option<string>) {
    if s.Some? then Says(x, key, Words(s.value)) else !Has(x, key)
  }

  ghost predicate RecordsOffsets(x: Meaning, o: OffsetRange) {
    && Says(x, "first_offset_key", Words(o.firstOffsetKey)) && Says(x, "last_offset_key", Words(o.lastOffsetKey))
    && SaysIfAny(x, "consumed_gtid_set", o.consumedGtidSet)
  }

  ghost predicate RecordsFidelity(x: Meaning, f: FidelitySummary) {
    && Says(x, "all_healthy", MBool(f.allHealthy)) && Says(x, "degraded_count", MInt(f.degraded))
    && Says(x, "compromised_count", MInt(f.compromised)) && Has(x, "reasons") && ListsWords(Named(x, "reasons"), f.reasons)
  }

  ghost predicate RecordsCompleteness(x: Meaning, c: CompletenessSummary) {
    && Says(x, "gap_detected", MBool(c.gapDetected)) && Says(x, "expected_continuous", MBool(c.expectedContinuous))
    && Has(x, "notes") && ListsWords(Named(x, "notes"), c.notes)
  }

  ghost predicate RecordsPrevious(x: Meaning, p: Option<PreviousRef>) {
    if p.None? then x.MNull?
    else
      && Says(x, "segment_id", Words(p.value.segmentId)) && Says(x, "segment_sequence", MInt(p.value.segmentSequence))
      && Says(x, "segment_hash", Spelt(p.value.segmentHash))
  }

  lemma WordsMean(s: string)
    ensures MeaningOf(StrV(s)) == Ok(Words(s))
  {
    assert Chars(s) == Words(s).s;
  }

  lemma HashMeans(h: HashText)
    ensures MeaningOf(HashV(h)) == Ok(Spelt(h))
  {
    if h.Malformed? {
      assert Chars(h.text) == Words(h.text).s;
    }
  }

  lemma RefMeans(r: ObjectRef)
    requires MeaningOf(Obj(RefFields(r))).Ok?
    ensures RecordsRef(MeaningOf(Obj(RefFields(r))).value, r)
  {
    var ms := RefFields(r);
    FieldSays(ms, 0);
    FieldSays(ms, 1);
    FieldSays(ms, 2);
    FieldSays(ms, 3);
    WordsMean(r.objectId);
    WordsMean(r.wormObjectKey);
    WordsMean("cce");
  }

  lemma HashesMean(h: ObjectHash)
    requires MeaningOf(Obj(HashFields(h))).Ok?
    ensures RecordsHashes(MeaningOf(Obj(HashFields(h))).value, h)
  {
    var ms := HashFields(h);
    FieldSays(ms, 0);
    FieldSays(ms, 1);
    FieldSays(ms, 2);
    HashMeans(h.eventHash);
    HashMeans(h.rowHash);
  }

  lemma RefsMean(rs: seq<ObjectRef>)
    requires MeaningOf(RefsV(rs)).Ok?
    ensures ListsRefs(MeaningOf(RefsV(rs)).value, rs)
  {
    ItemsMean(RefsV(rs).items);
    forall i | 0 <= i < |rs| ensures RecordsRef(MeaningOf(RefsV(rs)).value.items[i], rs[i]) {
      assert RefsV(rs).items[i] == Obj(RefFields(rs[i]));
      RefMeans(rs[i]);
    }
  }

  lemma HashListMeans(hs: seq<ObjectHash>)
    requires MeaningOf(HashesV(hs)).Ok?
    ensures ListsHashes(MeaningOf(HashesV(hs)).value, hs)
  {
    ItemsMean(HashesV(hs).items);
    forall i | 0 <= i < |hs| ensures RecordsHashes(MeaningOf(HashesV(hs)).value.items[i], hs[i]) {
      assert HashesV(hs).items[i] == Obj(HashFields(hs[i]));
      HashesMean(hs[i]);
    }
  }

  lemma StringsMean(ss: seq<string>)
    requires MeaningOf(StringsV(ss)).Ok?
    ensures ListsWords(MeaningOf(StringsV(ss)).value, ss)
  {
    ItemsMean(StringsV(ss).items);
    forall i | 0 <= i < |ss| ensures MeaningOf(StringsV(ss)).value.items[i] == Words(ss[i]) {
      WordsMean(ss[i]);
    }
  }

  lemma OffsetsMean(o: OffsetRange)
    requires MeaningOf(Obj(OffsetFields(o))).Ok?
    ensures RecordsOffsets(MeaningOf(Obj(OffsetFields(o))).value, o)
  {
    var ms := OffsetFields(o);
    FieldSays(ms, 0);
    FieldSays(ms, 1);
    WordsMean(o.firstOffsetKey);
    WordsMean(o.lastOffsetKey);
    if o.consumedGtidSet.Some? {
      FieldSays(ms, 2);
      WordsMean(o.consumedGtidSet.value);
    } else {
      KeysAreOfMembers(ms, "consumed_gtid_set");
    }
  }

  lemma FidelityMeans(f: FidelitySummary)
    requires MeaningOf(Obj(FidelityFields(f))).Ok?
    ensures RecordsFidelity(MeaningOf(Obj(FidelityFields(f))).value, f)
  {
    var ms := FidelityFields(f);
    FieldSays(ms, 0);
    FieldSays(ms, 1);
    FieldSays(ms, 2);
    FieldSays(ms, 3);
    StringsMean(f.reasons);
  }

  lemma CompletenessMeans(c: CompletenessSummary)
    requires MeaningOf(Obj(CompletenessFields(c))).Ok?
    ensures RecordsCompleteness(MeaningOf(Obj(CompletenessFields(c))).value, c)
  {
    var ms := CompletenessFields(c);
    FieldSays(ms, 0);
    FieldSays(ms, 1);
    FieldSays(ms, 2);
    StringsMean(c.notes);
  }

  lemma PreviousMeans(p: Option<PreviousRef>)
    requires MeaningOf(PreviousV(p)).Ok?
    ensures RecordsPrevious(MeaningOf(PreviousV(p)).value, p)
  {
    if p.Some? {
      var ms := PreviousFields(p.value);
      FieldSays(ms, 0);
      FieldSays(ms, 1);
      FieldSays(ms, 2);
      WordsMean(p.value.segmentId);
      HashMeans(p.value.segmentHash);
    }
  }

  // ---------- a manifest ----------

  ghost predicate RecordsNames(x: Meaning, m: ManifestCore) {
    && Says(x, "manifest_version", Words("evidence-segment-manifest-1.0"))
    && Says(x, "segment_id", Words(m.segmentId)) && Says(x, "db_id", Words(m.dbId)) && Says(x, "engine", Words(m.engine))
  }

  ghost predicate RecordsTimes(x: Meaning, m: ManifestCore) {
    && Says(x, "segment_sequence", MInt(m.segmentSequence))
    && Says(x, "opened_at", Words(m.openedAt)) && Says(x, "sealed_at", Words(m.sealedAt))
    && Says(x, "event_count", MInt(m.eventCount))
  }

  ghost predicate RecordsEnds(x: Meaning, m: ManifestCore) {
    && Says(x, "first_envelope_id", Words(m.firstEnvelopeId)) && Says(x, "last_envelope_id", Words(m.lastEnvelopeId))
    && Says(x, "first_row_hash", Spelt(m.firstRowHash)) && Says(x, "last_row_hash", Spelt(m.lastRowHash))
  }

  ghost predicate RecordsParts(x: Meaning, m: ManifestCore) {
    && Has(x, "object_list") && ListsRefs(Named(x, "object_list"), m.objectList)
    && Has(x, "object_hash_list") && ListsHashes(Named(x, "object_hash_list"), m.objectHashList)
    && Has(x, "source_offset_range") && RecordsOffsets(Named(x, "source_offset_range"), m.offsets)
    && Has(x, "fidelity_summary") && RecordsFidelity(Named(x, "fidelity_summary"), m.fidelity)
    && Has(x, "completeness_summary") && RecordsCompleteness(Named(x, "completeness_summary"), m.completeness)
    && Has(x, "previous_segment") && RecordsPrevious(Named(x, "previous_segment"), m.previous)
  }

  /** Every field of the manifest under its name, and as many further members. */
  ghost predicate RecordsManifest(x: Meaning, m: ManifestCore, further: nat) {
    x.MObj? && |x.members| == 18 + further && RecordsNames(x, m) && RecordsTimes(x, m)
    && RecordsEnds(x, m) && RecordsParts(x, m)
  }

  /** A list of members that starts with those of a manifest. */
  ghost predicate StartsAsManifest(ms: seq<Member>, m: ManifestCore) {
    MembersMeaning(ms).Ok? && |ms| >= 18 && ms[..18] == ManifestFields(m)
  }

  ghost predicate NamesAt(ms: seq<Member>, m: ManifestCore)
    requires |ms| >= 18
  {
    && ms[0] == Member("manifest_version", StrV("evidence-segment-manifest-1.0")) && ms[1] == Member("segment_id", StrV(m.segmentId))
    && ms[2] == Member("db_id", StrV(m.dbId)) && ms[3] == Member("engine", StrV(m.engine))
  }

  ghost predicate TimesAt(ms: seq<Member>, m: ManifestCore)
    requires |ms| >= 18
  {
    && ms[4] == Member("segment_sequence", IntV(m.segmentSequence)) && ms[5] == Member("opened_at", StrV(m.openedAt))
    && ms[6] == Member("sealed_at", StrV(m.sealedAt)) && ms[7] == Member("event_count", IntV(m.eventCount))
  }

  ghost predicate EndsAt(ms: seq<Member>, m: ManifestCore)
    requires |ms| >= 18
  {
    && ms[8] == Member("first_envelope_id", StrV(m.firstEnvelopeId)) && ms[9] == Member("last_envelope_id", StrV(m.lastEnvelopeId))
    && ms[10] == Member("first_row_hash", HashV(m.firstRowHash)) && ms[11] == Member("last_row_hash", HashV(m.lastRowHash))
  }

  ghost predicate PartsAt(ms: seq<Member>, m: ManifestCore)
    requires |ms| >= 18
  {
    && ms[12] == Member("object_list", RefsV(m.objectList)) && ms[13] == Member("object_hash_list", HashesV(m.objectHashList))
    && ms[14] == Member("source_offset_range", Obj(OffsetFields(m.offsets)))
    && ms[15] == Member("fidelity_summary", Obj(FidelityFields(m.fidelity)))
    && ms[16] == Member("completeness_summary", Obj(CompletenessFields(m.completeness)))
    && ms[17] == Member("previous_segment", PreviousV(m.previous))
  }

  lemma NamesInPlace(m: ManifestCore)
    ensures |ManifestFields(m)| == 18 && NamesAt(ManifestFields(m), m)
  {
  }

  lemma TimesInPlace(m: ManifestCore)
    ensures |ManifestFields(m)| == 18 && TimesAt(ManifestFields(m), m)
  {
  }

  lemma EndsInPlace(m: ManifestCore)
    ensures |ManifestFields(m)| == 18 && EndsAt(ManifestFields(m), m)
  {
  }

  lemma PartsInPlace(m: ManifestCore)
    ensures |ManifestFields(m)| == 18 && PartsAt(ManifestFields(m), m)
  {
  }

  lemma FieldsAtTheirPlaces(m: ManifestCore)
    ensures var f := ManifestFields(m);
      |f| == 18 && NamesAt(f, m) && TimesAt(f, m) && EndsAt(f, m) && PartsAt(f, m)
  {
    NamesInPlace(m);
    TimesInPlace(m);
    EndsInPlace(m);
    PartsInPlace(m);
  }

  lemma PlacesKept(ms: seq<Member>, f: seq<Member>, m: ManifestCore)
    requires |ms| >= 18 && ms[..18] == f && |f| == 18 && NamesAt(f, m) && TimesAt(f, m) && EndsAt(f, m) && PartsAt(f, m)
    ensures NamesAt(ms, m) && TimesAt(ms, m) && EndsAt(ms, m) && PartsAt(ms, m)
  {
    assert forall i | 0 <= i < 18 :: ms[i] == f[i];
  }

  lemma NamesAreRecorded(ms: seq<Member>, m: ManifestCore)
    requires |ms| >= 18 && NamesAt(ms, m) && MembersMeaning(ms).Ok?
    ensures RecordsNames(MObj(MembersMeaning(ms).value), m)
  {
    FieldSays(ms, 0);
    FieldSays(ms, 1);
    FieldSays(ms, 2);
    FieldSays(ms, 3);
    WordsMean("evidence-segment-manifest-1.0");
    WordsMean(m.segmentId);
    WordsMean(m.dbId);
    WordsMean(m.engine);
  }

  lemma TimesAreRecorded(ms: seq<Member>, m: ManifestCore)
    requires |ms| >= 18 && TimesAt(ms, m) && MembersMeaning(ms).Ok?
    ensures RecordsTimes(MObj(MembersMeaning(ms).value), m)
  {
    FieldSays(ms, 4);
    FieldSays(ms, 5);
    FieldSays(ms, 6);
    FieldSays(ms, 7);
    WordsMean(m.openedAt);
    WordsMean(m.sealedAt);
  }

  lemma EndsAreRecorded(ms: seq<Member>, m: ManifestCore)
    requires |ms| >= 18 && EndsAt(ms, m) && MembersMeaning(ms).Ok?
    ensures RecordsEnds(MObj(MembersMeaning(ms).value), m)
  {
    FieldSays(ms, 8);
    FieldSays(ms, 9);
    FieldSays(ms, 10);
    FieldSays(ms, 11);
    WordsMean(m.firstEnvelopeId);
    WordsMean(m.lastEnvelopeId);
    HashMeans(m.firstRowHash);
    HashMeans(m.lastRowHash);
  }

  lemma PartsAreRecorded(ms: seq<Member>, m: ManifestCore)
    requires |ms| >= 18 && PartsAt(ms, m) && MembersMeaning(ms).Ok?
    ensures RecordsParts(MObj(MembersMeaning(ms).value), m)
  {
    FieldSays(ms, 12);
    FieldSays(ms, 13);
    FieldSays(ms, 14);
    FieldSays(ms, 15);
    FieldSays(ms, 16);
    FieldSays(ms, 17);
    RefsMean(m.objectList);
    HashListMeans(m.objectHashList);
    OffsetsMean(m.offsets);
    FidelityMeans(m.fidelity);
    CompletenessMeans(m.completeness);
    PreviousMeans(m.previous);
  }

  /** As many members as were given, when none of them is undefined. */
  lemma {:induction false} MembersAreCounted(ms: seq<Member>)
    requires MembersMeaning(ms).Ok? && forall i | 0 <= i < |ms| :: !ms[i].value.Undefined?
    ensures |MembersMeaning(ms).value| == |ms|
  {
    if ms != [] {
      MembersAreCounted(ms[1..]);
    }
  }

  lemma NoneIsUndefined(ms: seq<Member>, m: ManifestCore)
    requires |ms| >= 18 && NamesAt(ms, m) && TimesAt(ms, m) && EndsAt(ms, m) && PartsAt(ms, m)
    requires forall i | 18 <= i < |ms| :: !ms[i].value.Undefined?
    ensures forall i | 0 <= i < |ms| :: !ms[i].value.Undefined?
  {
  }

  lemma ManifestIsRecorded(ms: seq<Member>, m: ManifestCore)
    requires StartsAsManifest(ms, m) && forall i | 18 <= i < |ms| :: !ms[i].value.Undefined?
    ensures RecordsManifest(MObj(MembersMeaning(ms).value), m, |ms| - 18)
  {
    FieldsAtTheirPlaces(m);
    PlacesKept(ms, ManifestFields(m), m);
    NamesAreRecorded(ms, m);
    TimesAreRecorded(ms, m);
    EndsAreRecorded(ms, m);
    PartsAreRecorded(ms, m);
    NoneIsUndefined(ms, m);
    MembersAreCounted(ms);
  }

  /** The manifest hash is over a text that says every field of the manifest under its name, and nothing else. */
  lemma ManifestTextSays(m: ManifestCore) returns (t: Text, x: Meaning)
    requires ManifestHash(m).Ok?
    ensures ManifestHash(m).value == Sha256(t) && ReadsAs(t, x) && RecordsManifest(x, m, 0)
  {
    var ms := ManifestFields(m);
    t := Serialize(Obj(ms)).value;
    TextReads(Obj(ms));
    x := MeaningOf(Obj(ms)).value;
    AloneIsRecorded(m, ms);
  }

  lemma AloneIsRecorded(m: ManifestCore, ms: seq<Member>)
    requires ms == ManifestFields(m) && MembersMeaning(ms).Ok?
    ensures RecordsManifest(MObj(MembersMeaning(ms).value), m, 0)
  {
    NamesInPlace(m);
    assert ms[..18] == ms;
    ManifestIsRecorded(ms, m);
  }

  /** The stored bytes of a manifest say the same and its hash. */
  lemma ManifestBytesSay(m: Manifest) returns (x: Meaning)
    requires Sealer.ManifestBytes(m).Ok?
    ensures ReadsAs(Sealer.ManifestBytes(m).value, x)
    ensures RecordsManifest(x, m.core, 1) && Says(x, "manifest_hash", Spelt(m.manifestHash))
  {
    var last := Member("manifest_hash", HashV(m.manifestHash));
    var ms := ManifestFields(m.core) + [last];
    TextReads(Obj(ms));
    x := MeaningOf(Obj(ms)).value;
    FieldsAtTheirPlaces(m.core);
    assert ms[..18] == ManifestFields(m.core) && ms[18] == last;
    ManifestIsRecorded(ms, m.core);
    FieldSays(ms, 18);
    HashMeans(m.manifestHash);
  }

  // ---------- an anchor payload ----------

  ghost predicate RecordsPayload(x: Meaning, p: AnchorPayloads.AnchorPayload) {
    && Says(x, "db_id", Words(p.dbId)) && Says(x, "segment_id", Words(p.segmentId))
    && Says(x, "segment_sequence", MInt(p.segmentSequence)) && Says(x, "segment_hash", Spelt(p.segmentHash))
    && Says(x, "last_row_hash", Spelt(p.lastRowHash)) && Says(x, "head_count", MInt(p.headCount))
    && Says(x, "signed_at", Words(p.signedAt.text))
  }

  /** What is signed is the domain tag and the payload's text, and what is anchored is the hash of that text. */
  lemma PayloadTextSays(p: AnchorPayloads.AnchorPayload) returns (t: Text, x: Meaning)
    requires AnchorPayloads.Signable(p)
    ensures AnchorPayloads.SigningMessage(p) == Ok(Words("edam-anchor-payload-v1:").s + t)
    ensures AnchorPayloads.PayloadHash(p) == Ok(Hash(Sha256(t)))
    ensures ReadsAs(t, x) && RecordsPayload(x, p)
  {
    AnchorPayloads.SignableIff(p);
    var ms := AnchorPayloads.PayloadFields(p);
    t := Serialize(Obj(ms)).value;
    TextReads(Obj(ms));
    x := MeaningOf(Obj(ms)).value;
    PayloadMeans(p, ms);
    assert Chars("edam-anchor-payload-v1:") == Words("edam-anchor-payload-v1:").s;
  }

  lemma PayloadMeans(p: AnchorPayloads.AnchorPayload, ms: seq<Member>)
    requires ms == AnchorPayloads.PayloadFields(p) && MembersMeaning(ms).Ok?
    ensures RecordsPayload(MObj(MembersMeaning(ms).value), p)
  {
    FieldSays(ms, 0);
    FieldSays(ms, 1);
    FieldSays(ms, 2);
    FieldSays(ms, 3);
    FieldSays(ms, 4);
    FieldSays(ms, 5);
    FieldSays(ms, 6);
    WordsMean(p.dbId);
    WordsMean(p.segmentId);
    HashMeans(p.segmentHash);
    HashMeans(p.lastRowHash);
    WordsMean(p.signedAt.text);
  }

  // ---------- a row identity ----------

  ghost predicate SaysField(x: Meaning, o: Value, key: string) {
    if Field(o, key).Undefined? then !Has(x, key)
    else MeaningOf(Field(o, key)).Ok? && Says(x, key, MeaningOf(Field(o, key)).value)
  }

  /** A row key hash is over schema, name and primary key of the row, an absent key being the empty object. */
  lemma RowTextSays(o: Value) returns (t: Text, x: Meaning)
    requires RowKeyHash(o).Ok?
    ensures RowKeyHash(o).value == Sha256(t) && ReadsAs(t, x)
    ensures SaysField(x, o, "schema") && SaysField(x, o, "name")
    ensures if Field(o, "primary_key").Undefined? || Field(o, "primary_key").Null? then Says(x, "primary_key", MObj(map[]))
            else SaysField(x, o, "primary_key")
  {
    var row := RowIdentity(o);
    t := Serialize(row).value;
    TextReads(row);
    x := MeaningOf(row).value;
    RowMeans(o, row.members);
  }

  lemma RowMeans(o: Value, ms: seq<Member>)
    requires ms == RowIdentity(o).members && MembersMeaning(ms).Ok?
    ensures var x := MObj(MembersMeaning(ms).value);
      && SaysField(x, o, "schema") && SaysField(x, o, "name")
      && if Field(o, "primary_key").Undefined? || Field(o, "primary_key").Null? then Says(x, "primary_key", MObj(map[]))
         else SaysField(x, o, "primary_key")
  {
    RowFieldSays(ms, o, 0, "schema");
    RowFieldSays(ms, o, 1, "name");
    FieldSays(ms, 2);
  }

  lemma RowFieldSays(ms: seq<Member>, o: Value, i: nat, key: string)
    requires MembersMeaning(ms).Ok? && i < |ms| && ms[i] == Member(key, Field(o, key))
    requires forall j | 0 <= j < |ms| && j != i :: ms[j].key != key
    ensures SaysField(MObj(MembersMeaning(ms).value), o, key)
  {
    if ms[i].value.Undefined? {
      KeysAreOfMembers(ms, key);
    } else {
      FieldSays(ms, i);
    }
  }

  // ---------- a stored envelope ----------

  ghost predicate RecordsEvidence(x: Meaning, e: Evidence) {
    && Says(x, "event_hash", Spelt(e.eventHash)) && Says(x, "row_hash", Spelt(e.rowHash))
    && Says(x, "prev_row_hash", if e.prevRowHash.Some? then Spelt(e.prevRowHash.value) else MNull)
    && SaysIfAny(x, "worm_object_key", e.wormObjectKey) && SaysIfAny(x, "segment_id", e.segmentId)
  }

  lemma {:induction false} LastMemberMeans(ms: seq<Member>, last: Member)
    requires MembersMeaning(ms + [last]).Ok? && !last.value.Undefined?
    ensures MembersMeaning(ms).Ok? && MeaningOf(last.value).Ok? && last.key !in MembersMeaning(ms).value
    ensures MembersMeaning(ms + [last]).value == MembersMeaning(ms).value[last.key := MeaningOf(last.value).value]
  {
    if ms == [] {
      assert ms + [last] == [last];
      assert MembersMeaning([last][1..]) == Ok(map[]);
    } else {
      assert (ms + [last])[1..] == ms[1..] + [last];
      LastMemberMeans(ms[1..], last);
    }
  }

  lemma EvidenceMeans(e: Evidence)
    requires MeaningOf(EvidenceWriting.EvidenceV(e)).Ok?
    ensures RecordsEvidence(MeaningOf(EvidenceWriting.EvidenceV(e)).value, e)
  {
    var ms := EvidenceWriting.EvidenceV(e).members;
    FieldSays(ms, 0);
    FieldSays(ms, 1);
    FieldSays(ms, 2);
    HashMeans(e.eventHash);
    HashMeans(e.rowHash);
    if e.prevRowHash.Some? {
      HashMeans(e.prevRowHash.value);
    }
    BackRefsMean(ms, e);
  }

  lemma BackRefsMean(ms: seq<Member>, e: Evidence)
    requires ms == EvidenceWriting.EvidenceV(e).members && MembersMeaning(ms).Ok?
    ensures SaysIfAny(MObj(MembersMeaning(ms).value), "worm_object_key", e.wormObjectKey)
    ensures SaysIfAny(MObj(MembersMeaning(ms).value), "segment_id", e.segmentId)
  {
    KeysAreOfMembers(ms, "worm_object_key");
    KeysAreOfMembers(ms, "segment_id");
    if e.wormObjectKey.Some? {
      assert ms[3] == Member("worm_object_key", StrV(e.wormObjectKey.value));
      FieldSays(ms, 3);
      WordsMean(e.wormObjectKey.value);
    }
    if e.segmentId.Some? {
      var n := |ms| - 1;
      assert ms[n] == Member("segment_id", StrV(e.segmentId.value));
      FieldSays(ms, n);
      WordsMean(e.segmentId.value);
    }
  }

  /** The stored bytes of an envelope say its core, member by member, and its evidence, and nothing else. */
  lemma EnvelopeBytesSay(c: Cce) returns (x: Meaning)
    requires c.core.Obj? && Serialize(EvidenceWriting.CceV(c)).Ok?
    ensures ReadsAs(Serialize(EvidenceWriting.CceV(c)).value, x) && MeaningOf(c.core).Ok?
    ensures Has(x, "evidence") && RecordsEvidence(Named(x, "evidence"), c.evidence)
    ensures forall k | k != "evidence" ::
      (Has(x, k) <==> Has(MeaningOf(c.core).value, k)) && (Has(x, k) ==> Named(x, k) == Named(MeaningOf(c.core).value, k))
  {
    var v := EvidenceWriting.CceV(c);
    TextReads(v);
    x := MeaningOf(v).value;
    LastMemberMeans(c.core.members, Member("evidence", EvidenceWriting.EvidenceV(c.evidence)));
    EvidenceMeans(c.evidence);
  }
}

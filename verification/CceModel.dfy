/**
 The CCE envelope and its two hashes: packages/cce-model/src/verify.ts, packages/canonical/src/hash.ts
 and packages/canonical/src/chain.ts.  An envelope is its parsed JSON without `evidence`, the
 part that is hashed, beside the `evidence` object, which is not.
 */
module CceModel {
  import opened Outcomes
  import opened Digests
  import opened Canonical
  import CanonicalReading

  datatype Evidence = Evidence(
    eventHash: HashText,
    prevRowHash: Option<HashText>,
    rowHash: HashText,
    wormObjectKey: Option<string>,
    segmentId: Option<string>)

  datatype Cce = Cce(core: Value, evidence: Evidence)

  const GENESIS_ROW_HASH := Hash(Zero)

  // ---------- property reads ----------

  /** `v[key]`: undefined when there is no such own property. */
  function Field(v: Value, key: string): Value {
    if v.Obj? then Lookup(v.members, key) else Undefined
  }

  function Lookup(members: seq<Member>, key: string): Value {
    if members == [] then Undefined
    else if members[0].key == key then members[0].value
    else Lookup(members[1..], key)
  }

  lemma LookupStep(m: Member, rest: seq<Member>, key: string)
    ensures Lookup([m] + rest, key) == if m.key == key then m.value else Lookup(rest, key)
  {
    assert ([m] + rest)[1..] == rest;
  }

  /** The fields of an object with two members. */
  lemma FieldOfTwo(a: Member, b: Member, key: string)
    ensures Field(Obj([a, b]), key) == if a.key == key then a.value else if b.key == key then b.value else Undefined
  {
    assert [a, b] == [a] + ([b] + []);
    LookupStep(a, [b] + [], key);
    LookupStep(b, [], key);
  }

  /** A string read by the code; such strings hold no hash tokens. */
  function StringOf(v: Value): Option<string> {
    if v.Str? && (forall i | 0 <= i < |v.s| :: v.s[i].Char?)
    then Some(seq(|v.s|, i requires 0 <= i < |v.s| => v.s[i].c))
    else None
  }

  function BoolOf(v: Value): Option<bool> {
    if v.Bool? then Some(v.b) else None
  }

  function OrEmpty(o: Option<string>): string {
    if o.Some? then o.value else ""
  }

  function EnvelopeId(c: Cce): Option<string> {
    StringOf(Field(c.core, "envelope_id"))
  }

  function DbId(c: Cce): Option<string> {
    StringOf(Field(Field(c.core, "source"), "db_id"))
  }

  function Engine(c: Cce): Option<string> {
    StringOf(Field(Field(c.core, "source"), "engine"))
  }

  function FidelityState(c: Cce): Option<string> {
    StringOf(Field(Field(c.core, "fidelity"), "state"))
  }

  function DegradedReason(c: Cce): Option<string> {
    StringOf(Field(Field(c.core, "fidelity"), "degraded_reason"))
  }

  function ConsumedOffsetKey(c: Cce): Option<string> {
    StringOf(Field(Field(c.core, "completeness"), "consumed_offset_key"))
  }

  function ConsumedGtidSet(c: Cce): Option<string> {
    StringOf(Field(Field(c.core, "completeness"), "consumed_gtid_set"))
  }

  function GapDetected(c: Cce): Option<bool> {
    BoolOf(Field(Field(c.core, "completeness"), "gap_detected"))
  }

  // ---------- hashes ----------

  function CoreHash(core: Value): Result<Digest> {
    var text :- Serialize(core);
    Ok(Sha256(text))
  }

  /** `rowHash`: throws on anything that is not a hash token. */
  function RowHash(prev: HashText, event: HashText): Result<Digest> {
    if IsHashToken(prev) && IsHashToken(event) then Ok(Sha256([Token(prev.d), Token(event.d)]))
    else Err("not a valid sha256 token")
  }

  function PrevOrGenesis(e: Evidence): HashText {
    if e.prevRowHash.Some? then e.prevRowHash.value else GENESIS_ROW_HASH
  }

  datatype HashVerification = HashVerification(eventHashOk: bool, rowHashOk: bool)

  function VerifyCce(c: Cce): Result<HashVerification> {
    var event :- CoreHash(c.core);
    var row :- RowHash(PrevOrGenesis(c.evidence), c.evidence.eventHash);
    Ok(HashVerification(Hash(event) == c.evidence.eventHash, Hash(row) == c.evidence.rowHash))
  }

  /** The envelope with its hashes in order. */
  ghost predicate Sound(c: Cce) {
    && MeaningOf(c.core).Ok?
    && CoreHash(c.core).Ok? && c.evidence.eventHash == Hash(CoreHash(c.core).value)
    && PrevOrGenesis(c.evidence).Hash?
    && c.evidence.rowHash == Hash(Sha256([Token(PrevOrGenesis(c.evidence).d), Token(c.evidence.eventHash.d)]))
  }

  lemma VerifyCceIsSoundness(c: Cce)
    ensures VerifyCce(c) == Ok(HashVerification(true, true)) <==> Sound(c)
  {
    CanonicalReading.SerializableIffMeaningful(c.core);
  }

  /** Two envelopes with the same event hash say the same thing in everything that is hashed. */
  lemma EventHashBindsCore(a: Cce, b: Cce)
    requires Sound(a) && Sound(b)
    ensures a.evidence.eventHash == b.evidence.eventHash <==> MeaningOf(a.core) == MeaningOf(b.core)
  {
    CanonicalReading.SerializationIsUnambiguous(a.core, b.core);
  }

  /** A row hash fixes the event hash, the link before it and so the whole hashed core. */
  lemma RowHashBindsLink(a: Cce, b: Cce)
    requires Sound(a) && Sound(b)
    ensures a.evidence.rowHash == b.evidence.rowHash
      <==> MeaningOf(a.core) == MeaningOf(b.core) && PrevOrGenesis(a.evidence) == PrevOrGenesis(b.evidence)
  {
    EventHashBindsCore(a, b);
    var p, q := PrevOrGenesis(a.evidence).d, PrevOrGenesis(b.evidence).d;
    var x, y := [Token(p), Token(a.evidence.eventHash.d)], [Token(q), Token(b.evidence.eventHash.d)];
    if x == y {
      assert x[0] == y[0] && x[1] == y[1];
    }
  }

  // ---------- the identity of a row ----------

  /** The canonical tuple of packages/canonical/src/snapshot.ts; a missing or null key counts as empty. */
  function RowIdentity(o: Value): Value {
    var key := Field(o, "primary_key");
    Obj([Member("schema", Field(o, "schema")), Member("name", Field(o, "name")),
         Member("primary_key", if key.Undefined? || key.Null? then Obj([]) else key)])
  }

  /** `rowKeyHash`: throws when the identity cannot be serialized. */
  function RowKeyHash(o: Value): Result<Digest> {
    CoreHash(RowIdentity(o))
  }

  /** Schema and name are text or absent, and the primary key, if there is one, has a meaning. */
  predicate HasRowKey(o: Value) {
    var schema, name, key := Field(o, "schema"), Field(o, "name"), Field(o, "primary_key");
    && (schema.Undefined? || MeaningOf(schema).Ok?)
    && (name.Undefined? || MeaningOf(name).Ok?)
    && (key.Undefined? || key.Null? || MeaningOf(key).Ok?)
  }

  predicate MeansSomething(m: Member) {
    m.value.Undefined? || MeaningOf(m.value).Ok?
  }

  lemma MeaningStep(m: Member, rest: seq<Member>)
    requires forall i | 0 <= i < |rest| :: rest[i].key != m.key
    ensures MembersMeaning([m] + rest).Ok? <==> MembersMeaning(rest).Ok? && MeansSomething(m)
  {
    assert ([m] + rest)[1..] == rest;
    if MembersMeaning(rest).Ok? {
      KeysAreMembers(rest, m.key);
    }
  }

  /** A row has an identity hash exactly when what identifies it can be serialized. */
  lemma RowKeyHashIff(o: Value)
    ensures RowKeyHash(o).Ok? <==> HasRowKey(o)
  {
    CanonicalReading.SerializableIffMeaningful(RowIdentity(o));
    var ms := RowIdentity(o).members;
    assert ms == [ms[0]] + ([ms[1]] + ([ms[2]] + []));
    MeaningStep(ms[2], []);
    MeaningStep(ms[1], [ms[2]] + []);
    MeaningStep(ms[0], [ms[1]] + ([ms[2]] + []));
  }

  // ---------- reads depend on the meaning alone ----------

  /** No two own properties share a name, as in any JavaScript object. */
  ghost predicate DistinctKeys(v: Value) {
    v.Obj? ==> forall i, j | 0 <= i < j < |v.members| :: v.members[i].key != v.members[j].key
  }

  ghost predicate SameMeaning(a: Value, b: Value) {
    (a.Undefined? && b.Undefined?) || (MeaningOf(a).Ok? && MeaningOf(a) == MeaningOf(b))
  }

  lemma {:induction false} LookupReadsMeaning(members: seq<Member>, key: string)
    requires MembersMeaning(members).Ok? && DistinctKeys(Obj(members))
    ensures var m := MembersMeaning(members).value; var v := Lookup(members, key);
      if key in m then MeaningOf(v) == Ok(m[key]) else v.Undefined?
  {
    if members != [] {
      if members[0].key == key {
        KeysAreMembers(members[1..], key);
      } else {
        LookupReadsMeaning(members[1..], key);
      }
    }
  }

  lemma {:induction false} KeysAreMembers(members: seq<Member>, key: string)
    requires MembersMeaning(members).Ok? && forall i | 0 <= i < |members| :: members[i].key != key
    ensures key !in MembersMeaning(members).value
  {
    if members != [] {
      KeysAreMembers(members[1..], key);
    }
  }

  /** Every property the code reads from an envelope is fixed by the envelope's meaning. */
  lemma FieldReadsMeaning(a: Value, b: Value, key: string)
    requires SameMeaning(a, b) && DistinctKeys(a) && DistinctKeys(b)
    ensures SameMeaning(Field(a, key), Field(b, key))
  {
    if a.Obj? && b.Obj? {
      LookupReadsMeaning(a.members, key);
      LookupReadsMeaning(b.members, key);
    }
  }
}

/**
 The key registry with rotation and revocation (packages/signing/src/key-registry.ts) and its
 projection into the verifier's trust file (packages/signing/src/trust-file.ts).
 */
module KeyRegistry {
  import opened Outcomes
  import opened Instants
  import opened Sorting

  datatype KeyRecord = KeyRecord(id: string, algorithm: string, publicKey: string, createdAt: Instant, revokedAt: Option<Instant>)

  /** `history` lists the keys in the order they were registered; the source indexes them by id. */
  datatype Registry = Registry(history: seq<KeyRecord>, activeId: string)

  datatype Approval = Approval(requestedBy: string, approvedBy: string)

  datatype Status = UNKNOWN | NOT_YET_VALID | ACTIVE | REVOKED

  // ---------- records and construction ----------

  predicate IsRealInstant(t: Instant) {
    t.text != "" && t.Parses()
  }

  predicate KnownAlgorithm(a: string) {
    a == "ecdsa-p384" || a == "ed25519" || a == "rsa-pss-3072" || a == "ecdsa-p256"
  }

  predicate ValidRecord(r: KeyRecord) {
    && r.id != "" && KnownAlgorithm(r.algorithm) && r.publicKey != "" && IsRealInstant(r.createdAt)
    && (r.revokedAt.Some? ==> IsRealInstant(r.revokedAt.value) && r.revokedAt.value.millis.value >= r.createdAt.millis.value)
  }

  predicate DistinctIds(records: seq<KeyRecord>) {
    forall i, j | 0 <= i < j < |records| :: records[i].id != records[j].id
  }

  function Find(records: seq<KeyRecord>, id: string): Option<KeyRecord> {
    if records == [] then None
    else if records[0].id == id then Some(records[0])
    else Find(records[1..], id)
  }

  /** Every registry ever built: valid records, no id twice, an active key that is there and not revoked. */
  predicate WellFormed(reg: Registry) {
    && reg.history != [] && DistinctIds(reg.history)
    && (forall i | 0 <= i < |reg.history| :: ValidRecord(reg.history[i]))
    && Find(reg.history, reg.activeId).Some? && Find(reg.history, reg.activeId).value.revokedAt.None?
  }

  /** The constructor: records are checked and indexed one by one, then the active key. */
  method Construct(records: seq<KeyRecord>, activeId: string) returns (r: Result<Registry>)
    ensures r.Ok? <==> WellFormed(Registry(records, activeId))
    ensures r.Ok? ==> r.value == Registry(records, activeId)
  {
    if |records| == 0 {
      return Err("registry requires at least one key record");
    }
    var index: map<string, KeyRecord> := map[];
    var i := 0;
    while i < |records|
      invariant 0 <= i <= |records|
      invariant DistinctIds(records[..i]) && forall j | 0 <= j < i :: ValidRecord(records[j])
      invariant forall id :: id in index <==> exists j | 0 <= j < i :: records[j].id == id
      invariant forall id :: (id in index <==> Find(records[..i], id).Some?) && (id in index ==> Find(records[..i], id) == Some(index[id]))
    {
      if !ValidRecord(records[i]) {
        return Err("invalid key record");
      }
      if records[i].id in index {
        return Err("signing_key_id already exists");
      }
      FindExtended(records[..i], records[i]);
      assert records[..i + 1] == records[..i] + [records[i]];
      index := index[records[i].id := records[i]];
      i := i + 1;
    }
    assert records[..i] == records;
    if activeId !in index {
      return Err("unknown signing_key_id");
    }
    if index[activeId].revokedAt.Some? {
      return Err("active key must not be revoked");
    }
    r := Ok(Registry(records, activeId));
  }

  lemma {:induction false} FindExtended(records: seq<KeyRecord>, r: KeyRecord)
    ensures forall id :: Find(records, id).Some? ==> Find(records + [r], id) == Find(records, id)
    ensures forall id :: Find(records, id).None? ==> Find(records + [r], id) == if r.id == id then Some(r) else None
  {
    if records != [] {
      FindExtended(records[1..], r);
      assert (records + [r])[1..] == records[1..] + [r];
    }
  }

  /** The source builds each successor through the constructor, which refuses what is not well formed. */
  function Checked(reg: Registry): Result<Registry> {
    if WellFormed(reg) then Ok(reg) else Err("invalid key record")
  }

  // ---------- queries ----------

  function StatusAt(reg: Registry, id: string, t: Instant): Status {
    var r := Find(reg.history, id);
    if r.None? || !t.Parses() then UNKNOWN
    else if !r.value.createdAt.Parses() then (if RevokedBy(r.value, t) then REVOKED else ACTIVE)
    else if t.millis.value < r.value.createdAt.millis.value then NOT_YET_VALID
    else if RevokedBy(r.value, t) then REVOKED
    else ACTIVE
  }

  predicate RevokedBy(r: KeyRecord, t: Instant) {
    r.revokedAt.Some? && r.revokedAt.value.Parses() && t.Parses() && t.millis.value >= r.revokedAt.value.millis.value
  }

  /** `isValidAt`, with the expected algorithm if one is given. */
  predicate IsValidAt(reg: Registry, id: string, signedAt: Instant, algorithm: Option<string>) {
    var r := Find(reg.history, id);
    && r.Some? && (algorithm.Some? ==> r.value.algorithm == algorithm.value)
    && StatusAt(reg, id, signedAt) == ACTIVE
  }

  // ---------- rotation and revocation ----------

  predicate DualControl(a: Approval) {
    a.requestedBy != "" && a.approvedBy != "" && a.requestedBy != a.approvedBy
  }

  function Rotate(reg: Registry, key: KeyRecord, approval: Approval): Result<Registry> {
    if !DualControl(approval) then Err("dual-control violation")
    else if !ValidRecord(key) then Err("invalid key record")
    else if Find(reg.history, key.id).Some? then Err("signing_key_id already exists")
    else if key.revokedAt.Some? then Err("a newly rotated-in active key must not be revoked")
    else Checked(Registry(reg.history + [key], key.id))
  }

  function Revised(records: seq<KeyRecord>, id: string, at: Instant): (r: seq<KeyRecord>)
    ensures |r| == |records|
  {
    seq(|records|, i requires 0 <= i < |records| =>
      if records[i].id == id then records[i].(revokedAt := Some(at)) else records[i])
  }

  function Revoke(reg: Registry, id: string, approval: Approval, at: Instant): Result<Registry> {
    var r := Find(reg.history, id);
    if !DualControl(approval) then Err("dual-control violation")
    else if r.None? then Err("unknown signing_key_id")
    else if id == reg.activeId then Err("cannot revoke the active key")
    else if r.value.revokedAt.Some? then Err("already revoked")
    else if !IsRealInstant(at) then Err("revokedAt must be a real RFC3339 instant")
    else if r.value.createdAt.Parses() && at.millis.value < r.value.createdAt.millis.value then
      Err("revokedAt must not precede the key created_at")
    else Checked(Registry(Revised(reg.history, id, at), reg.activeId))
  }

  datatype Op = RotateTo(key: KeyRecord, approval: Approval) | RevokeKey(id: string, approval: Approval, at: Instant)

  /** A refused request leaves the registry as it was. */
  function Apply(reg: Registry, op: Op): Registry {
    var r := match op
      case RotateTo(key, approval) => Rotate(reg, key, approval)
      case RevokeKey(id, approval, at) => Revoke(reg, id, approval, at);
    if r.Ok? then r.value else reg
  }

  function Run(reg: Registry, ops: seq<Op>): Registry {
    if ops == [] then reg else Apply(Run(reg, ops[..|ops| - 1]), ops[|ops| - 1])
  }

  // ---------- what a run does to a key ----------

  /** The same key, possibly revoked in the meantime; a revocation once recorded stays. */
  ghost predicate SameKey(before: KeyRecord, after: KeyRecord) {
    && after == before.(revokedAt := after.revokedAt)
    && (before.revokedAt.Some? ==> after.revokedAt == before.revokedAt)
  }

  ghost predicate Extends(before: Registry, after: Registry) {
    && |before.history| <= |after.history|
    && forall i | 0 <= i < |before.history| :: SameKey(before.history[i], after.history[i])
  }

  lemma {:induction false} FindAt(records: seq<KeyRecord>, i: nat)
    requires DistinctIds(records) && i < |records|
    ensures Find(records, records[i].id) == Some(records[i])
  {
    if i > 0 {
      FindAt(records[1..], i - 1);
    }
  }

  lemma {:induction false} FindIndex(records: seq<KeyRecord>, id: string)
    requires Find(records, id).Some?
    ensures exists i | 0 <= i < |records| :: records[i].id == id && records[i] == Find(records, id).value
  {
    if records[0].id != id {
      FindIndex(records[1..], id);
      var i :| 0 <= i < |records[1..]| && records[1..][i].id == id && records[1..][i] == Find(records, id).value;
      assert records[i + 1] == records[1..][i];
    }
  }

  lemma RotateExtends(reg: Registry, key: KeyRecord, approval: Approval)
    requires WellFormed(reg) && Rotate(reg, key, approval).Ok?
    ensures WellFormed(Rotate(reg, key, approval).value) && Extends(reg, Rotate(reg, key, approval).value)
  {
  }

  /** A record with a name, a known algorithm and a key, created at a readable instant and not revoked before it. */
  ghost predicate RecordIsGood(r: KeyRecord) {
    && r.id != "" && r.publicKey != "" && r.algorithm in {"ecdsa-p384", "ed25519", "rsa-pss-3072", "ecdsa-p256"}
    && r.createdAt.text != "" && r.createdAt.millis.Some?
    && (r.revokedAt.Some? ==> r.revokedAt.value.text != "" && r.revokedAt.value.millis.Some?)
    && (r.revokedAt.Some? ==> r.createdAt.millis.value <= r.revokedAt.value.millis.value)
  }

  lemma {:induction false} FindsNone(records: seq<KeyRecord>, id: string)
    ensures Find(records, id).None? <==> forall i | 0 <= i < |records| :: records[i].id != id
  {
    if records != [] {
      FindsNone(records[1..], id);
      assert records == [records[0]] + records[1..];
    }
  }

  /** A registry is well formed exactly when its records are good, their ids differ, and its active key is one of them and not revoked. */
  lemma WellFormedIff(reg: Registry)
    ensures WellFormed(reg) <==>
      && (forall i | 0 <= i < |reg.history| :: RecordIsGood(reg.history[i]))
      && (forall i, j | 0 <= i < j < |reg.history| :: reg.history[i].id != reg.history[j].id)
      && exists i | 0 <= i < |reg.history| :: reg.history[i].id == reg.activeId && reg.history[i].revokedAt.None?
  {
    if WellFormed(reg) {
      FindIndex(reg.history, reg.activeId);
    } else if DistinctIds(reg.history) {
      if i :| 0 <= i < |reg.history| && reg.history[i].id == reg.activeId && reg.history[i].revokedAt.None? {
        FindAt(reg.history, i);
      }
    }
  }

  /** Rotation succeeds whenever its own checks pass: the constructor adds no refusal. */
  lemma RotationSucceeds(reg: Registry, key: KeyRecord, approval: Approval)
    requires WellFormed(reg)
    ensures Rotate(reg, key, approval).Ok? <==>
      DualControl(approval) && ValidRecord(key) && Find(reg.history, key.id).None? && key.revokedAt.None?
    ensures Rotate(reg, key, approval).Ok? <==>
      && approval.requestedBy != "" && approval.approvedBy != "" && approval.requestedBy != approval.approvedBy
      && RecordIsGood(key) && key.revokedAt.None? && forall i | 0 <= i < |reg.history| :: reg.history[i].id != key.id
  {
    FindsNone(reg.history, key.id);
    if ValidRecord(key) && Find(reg.history, key.id).None? && key.revokedAt.None? {
      var next := Registry(reg.history + [key], key.id);
      FindExtended(reg.history, key);
      forall i | 0 <= i < |reg.history| ensures reg.history[i].id != key.id {
        FindAt(reg.history, i);
      }
      assert DistinctIds(next.history);
    }
  }

  lemma RevokeExtends(reg: Registry, id: string, approval: Approval, at: Instant)
    requires WellFormed(reg) && Revoke(reg, id, approval, at).Ok?
    ensures WellFormed(Revoke(reg, id, approval, at).value) && Extends(reg, Revoke(reg, id, approval, at).value)
  {
    forall i | 0 <= i < |reg.history| ensures SameKey(reg.history[i], Revised(reg.history, id, at)[i]) {
      FindAt(reg.history, i);
    }
  }

  lemma {:induction false} RevisedFind(records: seq<KeyRecord>, id: string, at: Instant, other: string)
    requires other != id
    ensures Find(Revised(records, id, at), other) == Find(records, other)
  {
    if records != [] {
      RevisedFind(records[1..], id, at, other);
      assert Revised(records, id, at)[1..] == Revised(records[1..], id, at);
    }
  }

  /** So does revocation. */
  lemma RevocationSucceeds(reg: Registry, id: string, approval: Approval, at: Instant)
    requires WellFormed(reg)
    ensures Revoke(reg, id, approval, at).Ok? <==>
      && DualControl(approval) && Find(reg.history, id).Some? && id != reg.activeId
      && Find(reg.history, id).value.revokedAt.None? && IsRealInstant(at)
      && Find(reg.history, id).value.createdAt.Parses()
      && at.millis.value >= Find(reg.history, id).value.createdAt.millis.value
    ensures Revoke(reg, id, approval, at).Ok? ==>
      && approval.requestedBy != "" && approval.approvedBy != "" && approval.requestedBy != approval.approvedBy
      && at.text != "" && at.millis.Some?
  {
    if Find(reg.history, id).Some? {
      FindIndex(reg.history, id);
      var r := Find(reg.history, id).value;
      assert ValidRecord(r);
      if id != reg.activeId && IsRealInstant(at) && at.millis.value >= r.createdAt.millis.value {
        RevisedFind(reg.history, id, at, reg.activeId);
        forall i | 0 <= i < |reg.history| ensures ValidRecord(Revised(reg.history, id, at)[i]) {
          if reg.history[i].id == id {
            FindAt(reg.history, i);
          }
        }
      }
    }
  }

  /** The key rotated in is the active one from then on, behind all the others, which are as they were. */
  lemma RotatedInIsActive(reg: Registry, key: KeyRecord, approval: Approval)
    requires WellFormed(reg) && Rotate(reg, key, approval).Ok?
    ensures var next := Rotate(reg, key, approval).value;
      && next.activeId == key.id && next.history == reg.history + [key]
      && Find(next.history, key.id) == Some(key)
      && forall other | other != key.id :: Find(next.history, other) == Find(reg.history, other)
  {
    FindExtended(reg.history, key);
  }

  /** A revocation writes its instant into this key and changes nothing else. */
  lemma RevocationIsRecorded(reg: Registry, id: string, approval: Approval, at: Instant)
    requires WellFormed(reg) && Revoke(reg, id, approval, at).Ok?
    ensures Find(reg.history, id).Some?
    ensures var next := Revoke(reg, id, approval, at).value;
      && next.activeId == reg.activeId && |next.history| == |reg.history|
      && Find(next.history, id) == Some(Find(reg.history, id).value.(revokedAt := Some(at)))
      && forall other | other != id :: Find(next.history, other) == Find(reg.history, other)
  {
    RevisedFindsIt(reg.history, id, at);
    forall other | other != id ensures Find(Revised(reg.history, id, at), other) == Find(reg.history, other) {
      RevisedFind(reg.history, id, at, other);
    }
  }

  lemma {:induction false} RevisedFindsIt(records: seq<KeyRecord>, id: string, at: Instant)
    requires Find(records, id).Some?
    ensures Find(Revised(records, id, at), id) == Some(Find(records, id).value.(revokedAt := Some(at)))
  {
    if records[0].id != id {
      RevisedFindsIt(records[1..], id, at);
      assert Revised(records, id, at)[1..] == Revised(records[1..], id, at);
    }
  }

  /** A registered key is valid from its creation up to, and not at, its revocation. */
  lemma ValidFromCreationToRevocation(reg: Registry, i: nat, t: Instant, algorithm: string)
    requires WellFormed(reg) && i < |reg.history|
    ensures var key := reg.history[i];
      && key.createdAt.millis.Some? && (key.revokedAt.Some? ==> key.revokedAt.value.millis.Some?)
      && (IsValidAt(reg, key.id, t, Some(algorithm)) <==>
            && key.algorithm == algorithm && t.millis.Some? && key.createdAt.millis.value <= t.millis.value
            && (key.revokedAt.Some? ==> t.millis.value < key.revokedAt.value.millis.value))
      && (StatusAt(reg, key.id, t) == NOT_YET_VALID <==> t.millis.Some? && t.millis.value < key.createdAt.millis.value)
      && (StatusAt(reg, key.id, t) == REVOKED <==>
            t.millis.Some? && key.revokedAt.Some? && t.millis.value >= key.revokedAt.value.millis.value)
  {
    FindAt(reg.history, i);
    assert ValidRecord(reg.history[i]);
  }

  lemma ExtendsTransitive(a: Registry, b: Registry, c: Registry)
    requires Extends(a, b) && Extends(b, c)
    ensures Extends(a, c)
  {
    forall i | 0 <= i < |a.history| ensures SameKey(a.history[i], c.history[i]) {
      assert SameKey(a.history[i], b.history[i]) && SameKey(b.history[i], c.history[i]);
    }
  }

  /**
   In every run of rotations and revocations the active key stays present and unrevoked, no key
   is dropped or changed, and a key is revoked at most once.
   */
  lemma {:induction false} HistoryIsMonotone(reg: Registry, ops: seq<Op>)
    requires WellFormed(reg)
    ensures WellFormed(Run(reg, ops)) && Extends(reg, Run(reg, ops))
  {
    if ops != [] {
      var before, op := Run(reg, ops[..|ops| - 1]), ops[|ops| - 1];
      HistoryIsMonotone(reg, ops[..|ops| - 1]);
      match op {
        case RotateTo(key, approval) =>
          if Rotate(before, key, approval).Ok? {
            RotateExtends(before, key, approval);
          }
        case RevokeKey(id, approval, at) =>
          if Revoke(before, id, approval, at).Ok? {
            RevokeExtends(before, id, approval, at);
          }
      }
      ExtendsTransitive(reg, before, Run(reg, ops));
    }
  }

  /** What extending a registry does to the key with this id. */
  lemma ExtendedKey(before: Registry, after: Registry, id: string)
    requires WellFormed(before) && WellFormed(after) && Extends(before, after) && Find(before.history, id).Some?
    ensures Find(after.history, id).Some?
    ensures SameKey(Find(before.history, id).value, Find(after.history, id).value)
    ensures ValidRecord(Find(before.history, id).value) && ValidRecord(Find(after.history, id).value)
  {
    FindIndex(before.history, id);
    var i :| 0 <= i < |before.history| && before.history[i].id == id && before.history[i] == Find(before.history, id).value;
    assert SameKey(before.history[i], after.history[i]);
    FindAt(after.history, i);
  }

  /**
   The verdict on a known key changes only for instants at or after the one revocation it gets:
   whatever was signed before keeps its verdict for ever.
   */
  lemma VerdictsAreStable(reg: Registry, ops: seq<Op>, id: string, t: Instant, algorithm: Option<string>)
    requires WellFormed(reg) && Find(reg.history, id).Some?
    ensures Find(Run(reg, ops).history, id).Some?
    ensures var later := Find(Run(reg, ops).history, id).value;
      IsValidAt(Run(reg, ops), id, t, algorithm) <==> IsValidAt(reg, id, t, algorithm) && !RevokedBy(later, t)
  {
    HistoryIsMonotone(reg, ops);
    ExtendedKey(reg, Run(reg, ops), id);
  }

  // ---------- the trust file ----------

  datatype TrustKey = TrustKey(id: string, algorithm: string, publicKey: string, notBefore: Option<Instant>, revokedAt: Option<Instant>)

  function Project(r: KeyRecord): TrustKey {
    TrustKey(r.id, r.algorithm, r.publicKey, Some(r.createdAt), r.revokedAt)
  }

  function ProjectAll(records: seq<KeyRecord>): seq<TrustKey> {
    seq(|records|, i requires 0 <= i < |records| => Project(records[i]))
  }

  /** `projectKeys`: certificate material is refused; `locale` is the comparison of `localeCompare`. */
  function ProjectKeys(reg: Registry, isCertificate: string -> bool, locale: Comparator<TrustKey>): Result<seq<TrustKey>> {
    if exists i | 0 <= i < |reg.history| :: isCertificate(reg.history[i].publicKey) then Err("carries X.509 CERTIFICATE material")
    else Ok(Sort(locale, ProjectAll(reg.history)))
  }

  /** The verifier's directory: the first entry with this id. */
  function Lookup(keys: seq<TrustKey>, id: string): Option<TrustKey> {
    if keys == [] then None else if keys[0].id == id then Some(keys[0]) else Lookup(keys[1..], id)
  }

  lemma {:induction false} LookupTakesTheFirst(keys: seq<TrustKey>, i: nat)
    requires i < |keys| && forall j | 0 <= j < i :: keys[j].id != keys[i].id
    ensures Lookup(keys, keys[i].id) == Some(keys[i])
  {
    if i > 0 {
      LookupTakesTheFirst(keys[1..], i - 1);
    }
  }

  lemma {:induction false} LookupFinds(keys: seq<TrustKey>, id: string)
    ensures Lookup(keys, id).Some? ==> Lookup(keys, id).value in keys && Lookup(keys, id).value.id == id
    ensures (exists k | k in keys :: k.id == id) ==> Lookup(keys, id).Some?
  {
    if keys != [] && keys[0].id != id {
      LookupFinds(keys[1..], id);
      if k :| k in keys && k.id == id {
        assert keys == [keys[0]] + keys[1..];
      }
    }
  }

  /** The trust file resolves an id to the projection of the registry's record, and to nothing else. */
  lemma {:induction false} TrustFileResolves(reg: Registry, isCertificate: string -> bool, locale: Comparator<TrustKey>, id: string)
    requires WellFormed(reg) && ProjectKeys(reg, isCertificate, locale).Ok?
    ensures var found := Find(reg.history, id);
      Lookup(ProjectKeys(reg, isCertificate, locale).value, id) == if found.Some? then Some(Project(found.value)) else None
  {
    var all := ProjectAll(reg.history);
    var keys := Sort(locale, all);
    LookupFinds(keys, id);
    if Find(reg.history, id).Some? {
      FindIndex(reg.history, id);
      var i :| 0 <= i < |reg.history| && reg.history[i].id == id && reg.history[i] == Find(reg.history, id).value;
      assert all[i] == Project(reg.history[i]);
      InMultiset(all, keys, all[i]);
    }
    if Lookup(keys, id).Some? {
      var k := Lookup(keys, id).value;
      InMultiset(all, keys, k);
      var j :| 0 <= j < |all| && all[j] == k;
      FindAt(reg.history, j);
    }
  }

  /** The window test of `verifyHsmSignature`: an instant that does not parse closes nothing. */
  predicate InWindow(key: TrustKey, signedAt: Instant) {
    && !(key.revokedAt.Some? && key.revokedAt.value.Parses() && signedAt.Parses()
         && signedAt.millis.value >= key.revokedAt.value.millis.value)
    && !(key.notBefore.Some? && key.notBefore.value.Parses() && signedAt.Parses()
         && signedAt.millis.value < key.notBefore.value.millis.value)
  }

  predicate TrustedAt(keys: seq<TrustKey>, id: string, signedAt: Instant, algorithm: string) {
    var key := Lookup(keys, id);
    key.Some? && key.value.algorithm == algorithm && InWindow(key.value, signedAt)
  }

  /**
   Registry and verifier give the same verdict exactly on instants that parse, or on keys neither
   would take: for a known key of the right algorithm the registry refuses an unreadable instant
   and the verifier's window lets it through.
   */
  lemma RegistryAgreesWithTrustFile(reg: Registry, isCertificate: string -> bool, locale: Comparator<TrustKey>,
                                    id: string, t: Instant, algorithm: string)
    requires WellFormed(reg) && ProjectKeys(reg, isCertificate, locale).Ok?
    ensures var found := Find(reg.history, id); var keys := ProjectKeys(reg, isCertificate, locale).value;
      (IsValidAt(reg, id, t, Some(algorithm)) <==> TrustedAt(keys, id, t, algorithm)) <==>
        t.Parses() || found.None? || found.value.algorithm != algorithm
  {
    TrustFileResolves(reg, isCertificate, locale, id);
    if Find(reg.history, id).Some? {
      FindIndex(reg.history, id);
      assert ValidRecord(Find(reg.history, id).value);
    }
  }
}

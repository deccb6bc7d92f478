/** The fail-closed provider boundary (services/anchoring/src/anchor-service.ts). */
module AnchorService {
  import opened Digests

  datatype Token = Token(providerType: string, payloadHash: HashText, wellFormed: bool)

  datatype PendingReason = PROVIDER_TIMEOUT | PROVIDER_OUTAGE | PROVIDER_ERROR

  datatype FailureReason = UNSUPPORTED_PROVIDER | INVALID_REQUEST | MALFORMED_RESPONSE | HASH_MISMATCH | TOKEN_VERIFICATION_FAILED

  /** What a provider call comes back with: an exception, or an answer of the expected form or not. */
  datatype Reply =
    | Threw(reason: PendingReason)
    | Malformed
    | SaysAnchored(token: Token)
    | SaysPending(reason: PendingReason)
    | SaysFailed(failure: FailureReason)

  datatype AnchorOutcome = ANCHORED(token: Token) | PENDING(pending: PendingReason) | FAILED(failure: FailureReason)

  datatype Provider = Provider(providerType: string, verifies: (Token, HashText) -> bool)

  /** A token the provider itself verifies for this very hash. */
  predicate Genuine(provider: Provider, payloadHash: HashText, token: Token) {
    token.wellFormed && token.providerType == provider.providerType && token.payloadHash == payloadHash
    && provider.verifies(token, payloadHash)
  }

  /** `requestAnchor`, given what the provider call came back with: anchored only for a genuine token. */
  function RequestAnchor(provider: Provider, payloadHash: HashText, reply: Reply): (r: AnchorOutcome)
    ensures r.ANCHORED? <==> IsHashToken(payloadHash) && reply.SaysAnchored? && Genuine(provider, payloadHash, reply.token)
    ensures r.ANCHORED? ==> r.token == reply.token
  {
    if !IsHashToken(payloadHash) then FAILED(INVALID_REQUEST)
    else
      match reply
      case Threw(reason) => PENDING(reason)
      case Malformed => FAILED(MALFORMED_RESPONSE)
      case SaysPending(reason) => PENDING(reason)
      case SaysFailed(failure) => FAILED(failure)
      case SaysAnchored(token) =>
        if !token.wellFormed then FAILED(MALFORMED_RESPONSE)
        else if token.providerType != provider.providerType then FAILED(MALFORMED_RESPONSE)
        else if token.payloadHash != payloadHash then FAILED(HASH_MISMATCH)
        else if !provider.verifies(token, payloadHash) then FAILED(TOKEN_VERIFICATION_FAILED)
        else ANCHORED(token)
  }

  /** Pending is answered exactly when the call threw or the provider said so, and for that reason. */
  lemma PendingIff(provider: Provider, payloadHash: HashText, reply: Reply, reason: PendingReason)
    ensures RequestAnchor(provider, payloadHash, reply) == PENDING(reason) <==>
      payloadHash.Hash? && (reply == Threw(reason) || reply == SaysPending(reason))
  {
  }

  /** A token that is no good is refused for what is wrong with it first: its form or type, its hash, its check. */
  lemma BadTokenIsRefused(provider: Provider, payloadHash: HashText, token: Token)
    requires payloadHash.Hash? && !Genuine(provider, payloadHash, token)
    ensures RequestAnchor(provider, payloadHash, SaysAnchored(token)) == FAILED(
      if token.wellFormed && token.providerType == provider.providerType then
        (if token.payloadHash == payloadHash then TOKEN_VERIFICATION_FAILED else HASH_MISMATCH)
      else MALFORMED_RESPONSE)
  {
  }
}

/**
 The anchoring coordinator (services/anchoring/src/retry-cadence.ts) as a state machine: any
 number of `anchorHead` calls, interleaved at their awaits.
 */
module AnchorCoordinator {
  import opened Outcomes
  import opened Digests
  import opened AnchorService

  /** A stored anchor record: the head it is bound to and the token. */
  datatype Record = Record(payloadHash: HashText, token: Token)

  type Store = map<string, Record>

  /** First write wins; the result is the record that is stored now. */
  class InMemoryAnchorRecordStore {
    var records: Store

    constructor ()
      ensures records == map[]
    {
      records := map[];
    }

    method Get(id: string) returns (r: Option<Record>)
      ensures r == if id in records then Some(records[id]) else None
    {
      r := if id in records then Some(records[id]) else None;
    }

    method PutIfAbsent(id: string, record: Record) returns (stored: Record)
      modifies this
      ensures records == WithRecord(old(records), id, record)
      ensures id in records && stored == records[id]
      ensures forall k | k in old(records) :: k in records && records[k] == old(records)[k]
    {
      if id in records {
        return records[id];
      }
      records := records[id := record];
      stored := record;
    }
  }

  function WithRecord(store: Store, id: string, record: Record): Store {
    if id in store then store else store[id := record]
  }

  /** `idFor` is the deterministic anchor identity of a head and a provider type. */
  datatype Config = Config(maxAttempts: nat, idFor: (HashText, string) -> string)

  datatype Result =
    | Anchored(record: Record, deduplicated: bool)
    | StillPending(pending: PendingReason)
    | Refused(failure: FailureReason)
    | Collided
    | BuildFailed

  datatype Phase = Calling | Sleeping | Finished(result: Result) | Removed(result: Result)

  /** One run of `#run`: the identity, provider and head it works for, and the provider calls it has made. */
  datatype Run = Run(id: string, provider: Provider, payloadHash: HashText, calls: nat, phase: Phase)

  /** One call of `anchorHead`: it gets the answer of the run it started or joined. */
  datatype Caller = Caller(provider: Provider, payloadHash: HashText, run: nat)

  datatype Event = Called(id: string) | Wrote(id: string)

  /** `writers` remembers which run wrote a stored record. */
  datatype Coordinator = Coordinator(
    runs: seq<Run>, inflight: map<string, nat>, store: Store, writers: map<string, nat>, callers: seq<Caller>, events: seq<Event>)

  datatype Action =
    | Request(provider: Provider, payloadHash: HashText)
    | Answer(run: nat, reply: Reply, builds: bool)
    | Wake(run: nat)
    | Settle(run: nat)

  function Initial(store: Store): Coordinator {
    Coordinator([], map[], store, map[], [], [])
  }

  predicate IsRun(s: Coordinator, i: nat) {
    i < |s.runs|
  }

  predicate Enabled(s: Coordinator, a: Action) {
    match a
    case Request(provider, payloadHash) => true
    case Answer(i, reply, builds) => IsRun(s, i) && s.runs[i].phase.Calling?
    case Wake(i) => IsRun(s, i) && s.runs[i].phase.Sleeping?
    case Settle(i) => IsRun(s, i) && s.runs[i].phase.Finished?
  }

  function SetRun(s: Coordinator, i: nat, run: Run): Coordinator
    requires i < |s.runs|
  {
    s.(runs := s.runs[i := run])
  }

  function IdOf(cfg: Config, provider: Provider, payloadHash: HashText): string {
    cfg.idFor(payloadHash, provider.providerType)
  }

  /** The caller joins the run in flight for its identity. */
  function JoinedRun(s: Coordinator, provider: Provider, payloadHash: HashText, run: nat): Coordinator {
    s.(callers := s.callers + [Caller(provider, payloadHash, run)])
  }

  /** The caller starts this run. */
  function Started(s: Coordinator, run: Run): Coordinator {
    s.(runs := s.runs + [run], inflight := s.inflight[run.id := |s.runs|],
       callers := s.callers + [Caller(run.provider, run.payloadHash, |s.runs|)])
  }

  /** `anchorHead` up to its first await: join the run in flight, or start one. */
  function Requested(cfg: Config, s: Coordinator, provider: Provider, payloadHash: HashText): Coordinator {
    var id := IdOf(cfg, provider, payloadHash);
    if id in s.inflight then JoinedRun(s, provider, payloadHash, s.inflight[id])
    else if id in s.store then
      var record := s.store[id];
      var result := if record.payloadHash == payloadHash then Anchored(record, true) else Collided;
      Started(s, Run(id, provider, payloadHash, 0, Finished(result)))
    else Started(s, Run(id, provider, payloadHash, 1, Calling)).(events := s.events + [Called(id)])
  }

  /** Store the record of run i unless one is there, and answer with the one stored. */
  function Written(s: Coordinator, i: nat, record: Record): Coordinator
    requires i < |s.runs|
  {
    var run := s.runs[i];
    var store := WithRecord(s.store, run.id, record);
    var stored := store[run.id];
    var result := if stored.payloadHash != run.payloadHash then Collided else Anchored(stored, stored != record);
    SetRun(s, i, run.(phase := Finished(result))).(
      store := store, writers := if run.id in s.store then s.writers else s.writers[run.id := i], events := s.events + [Wrote(run.id)])
  }

  /** The provider has answered; `builds` tells whether the record could be built from a token. */
  function Answered(cfg: Config, s: Coordinator, i: nat, reply: Reply, builds: bool): Coordinator
    requires i < |s.runs|
  {
    var run := s.runs[i];
    match RequestAnchor(run.provider, run.payloadHash, reply)
    case ANCHORED(token) =>
      if !builds then SetRun(s, i, run.(phase := Finished(BuildFailed))) else Written(s, i, Record(run.payloadHash, token))
    case FAILED(reason) => SetRun(s, i, run.(phase := Finished(Refused(reason))))
    case PENDING(reason) =>
      SetRun(s, i, run.(phase := if run.calls < cfg.maxAttempts then Sleeping else Finished(StillPending(reason))))
  }

  function Do(cfg: Config, s: Coordinator, a: Action): Coordinator
    requires Enabled(s, a)
  {
    match a
    case Request(provider, payloadHash) => Requested(cfg, s, provider, payloadHash)
    case Answer(i, reply, builds) => Answered(cfg, s, i, reply, builds)
    case Wake(i) =>
      var run := s.runs[i];
      SetRun(s, i, run.(calls := run.calls + 1, phase := Calling)).(events := s.events + [Called(run.id)])
    case Settle(i) =>
      SetRun(s, i, s.runs[i].(phase := Removed(s.runs[i].phase.result))).(inflight := s.inflight - {s.runs[i].id})
  }

  function Reach(cfg: Config, store: Store, actions: seq<Action>): Option<Coordinator> {
    if actions == [] then Some(Initial(store))
    else
      var before, a := Reach(cfg, store, actions[..|actions| - 1]), actions[|actions| - 1];
      if before.Some? && Enabled(before.value, a) then Some(Do(cfg, before.value, a)) else None
  }

  // ---------- the invariant ----------

  predicate Live(run: Run) {
    !run.phase.Removed?
  }

  predicate Working(run: Run) {
    run.phase.Calling? || run.phase.Sleeping?
  }

  predicate Answers(run: Run, record: Record) {
    (run.phase.Finished? || run.phase.Removed?) && run.phase.result.Anchored? && run.phase.result.record == record
  }

  /** The anchored answer of a run, if it has one, is the stored record of its identity, for its own head. */
  ghost predicate AnswerHolds(s: Coordinator, i: nat)
    requires i < |s.runs|
  {
    var run := s.runs[i];
    forall record | Answers(run, record) ::
      && run.id in s.store && s.store[run.id] == record && record.payloadHash == run.payloadHash
      && (!run.phase.result.deduplicated ==> run.id in s.writers && s.writers[run.id] == i)
  }

  ghost predicate RunHolds(cfg: Config, s: Coordinator, i: nat)
    requires i < |s.runs|
  {
    var run := s.runs[i];
    && run.id == IdOf(cfg, run.provider, run.payloadHash)
    && run.calls <= cfg.maxAttempts
    && (Live(run) <==> run.id in s.inflight && s.inflight[run.id] == i)
    && (Working(run) ==> run.id !in s.store)
    && (run.phase.Sleeping? ==> run.calls < cfg.maxAttempts)
    && AnswerHolds(s, i)
  }

  /** The record stored under this identity was verified by the provider of the run that wrote it. */
  ghost predicate WasVerified(s: Coordinator, id: string)
    requires id in s.store
  {
    && id in s.writers && s.writers[id] < |s.runs|
    && var writer := s.runs[s.writers[id]];
      && writer.id == id && writer.payloadHash == s.store[id].payloadHash && IsHashToken(writer.payloadHash)
      && Genuine(writer.provider, s.store[id].payloadHash, s.store[id].token)
  }

  /** Every stored record was verified for the head it is bound to, or was there at the start. */
  ghost predicate StoreHolds(initial: Store, s: Coordinator) {
    && (forall id | id in initial :: id in s.store && s.store[id] == initial[id])
    && (forall id | id in s.store && id !in initial :: WasVerified(s, id))
    && (forall id | id in s.writers :: id in s.store && id !in initial)
  }

  /** No provider call is made for an identity whose record is already written. */
  ghost predicate EventsHold(initial: Store, s: Coordinator) {
    && (forall i | 0 <= i < |s.events| && s.events[i].Wrote? :: s.events[i].id in s.store)
    && (forall i, j | 0 <= i < j < |s.events| && s.events[i].Wrote? && s.events[j].Called? :: s.events[i].id != s.events[j].id)
    && (forall i | 0 <= i < |s.events| && s.events[i].Called? :: s.events[i].id !in initial)
  }

  /** A caller waits for a run of its own identity. */
  ghost predicate CallerHolds(cfg: Config, s: Coordinator, c: Caller) {
    c.run < |s.runs| && s.runs[c.run].id == IdOf(cfg, c.provider, c.payloadHash)
  }

  ghost predicate CallersHold(cfg: Config, s: Coordinator) {
    forall k | 0 <= k < |s.callers| :: CallerHolds(cfg, s, s.callers[k])
  }

  ghost predicate InflightHolds(s: Coordinator) {
    forall id | id in s.inflight :: s.inflight[id] < |s.runs| && s.runs[s.inflight[id]].id == id
  }

  ghost predicate Inv(cfg: Config, initial: Store, s: Coordinator) {
    && (forall i | 0 <= i < |s.runs| :: RunHolds(cfg, s, i))
    && InflightHolds(s) && StoreHolds(initial, s) && EventsHold(initial, s) && CallersHold(cfg, s)
  }

  // ---------- a request ----------

  lemma JoinKeeps(cfg: Config, initial: Store, s: Coordinator, provider: Provider, payloadHash: HashText)
    requires Inv(cfg, initial, s) && IdOf(cfg, provider, payloadHash) in s.inflight
    ensures Inv(cfg, initial, Requested(cfg, s, provider, payloadHash))
  {
    var next := Requested(cfg, s, provider, payloadHash);
    forall i | 0 <= i < |next.runs| ensures RunHolds(cfg, next, i) {
      assert RunHolds(cfg, s, i);
    }
    forall id | id in s.store && id !in initial ensures WasVerified(next, id) {
      assert WasVerified(s, id);
    }
    forall k | 0 <= k < |next.callers| ensures CallerHolds(cfg, next, next.callers[k]) {
      assert k < |s.callers| ==> CallerHolds(cfg, s, s.callers[k]);
    }
  }

  lemma StartKeepsRuns(cfg: Config, s: Coordinator, run: Run)
    requires forall i | 0 <= i < |s.runs| :: RunHolds(cfg, s, i)
    requires run.id !in s.inflight
    ensures forall i | 0 <= i < |s.runs| :: RunHolds(cfg, Started(s, run), i)
  {
    var next := Started(s, run);
    forall i | 0 <= i < |s.runs| ensures RunHolds(cfg, next, i) {
      assert RunHolds(cfg, s, i) && next.runs[i] == s.runs[i];
      assert AnswerHolds(s, i);
    }
  }

  lemma StartKeepsRest(cfg: Config, initial: Store, s: Coordinator, run: Run)
    requires InflightHolds(s) && StoreHolds(initial, s) && CallersHold(cfg, s)
    requires run.id == IdOf(cfg, run.provider, run.payloadHash)
    ensures var next := Started(s, run); InflightHolds(next) && StoreHolds(initial, next) && CallersHold(cfg, next)
  {
    var next := Started(s, run);
    assert next.runs[|s.runs|] == run && forall i | 0 <= i < |s.runs| :: next.runs[i] == s.runs[i];
    forall id | id in s.store && id !in initial ensures WasVerified(next, id) {
      assert WasVerified(s, id);
    }
    forall k | 0 <= k < |next.callers| ensures CallerHolds(cfg, next, next.callers[k]) {
      assert k < |s.callers| ==> CallerHolds(cfg, s, s.callers[k]);
    }
  }

  /** A run that ends at once, because its record is already stored. */
  lemma StoredKeeps(cfg: Config, initial: Store, s: Coordinator, provider: Provider, payloadHash: HashText)
    requires Inv(cfg, initial, s) && IdOf(cfg, provider, payloadHash) !in s.inflight && IdOf(cfg, provider, payloadHash) in s.store
    ensures Inv(cfg, initial, Requested(cfg, s, provider, payloadHash))
  {
    var next := Requested(cfg, s, provider, payloadHash);
    var run := next.runs[|s.runs|];
    StartKeepsRuns(cfg, s, run);
    StartKeepsRest(cfg, initial, s, run);
    assert AnswerHolds(next, |s.runs|) && RunHolds(cfg, next, |s.runs|);
  }

  lemma CalledKeepsEvents(initial: Store, s: Coordinator, id: string)
    requires EventsHold(initial, s) && id !in s.store && id !in initial
    ensures EventsHold(initial, s.(events := s.events + [Called(id)]))
  {
  }

  lemma SameButEvents(cfg: Config, initial: Store, s: Coordinator, events: seq<Event>)
    requires Inv(cfg, initial, s) && EventsHold(initial, s.(events := events))
    ensures Inv(cfg, initial, s.(events := events))
  {
    var next := s.(events := events);
    forall i | 0 <= i < |next.runs| ensures RunHolds(cfg, next, i) {
      assert RunHolds(cfg, s, i) && AnswerHolds(s, i);
    }
    forall id | id in s.store && id !in initial ensures WasVerified(next, id) {
      assert WasVerified(s, id);
    }
    forall k | 0 <= k < |next.callers| ensures CallerHolds(cfg, next, next.callers[k]) {
      assert CallerHolds(cfg, s, s.callers[k]);
    }
  }

  /** A run that makes its first provider call. */
  lemma NewRunKeeps(cfg: Config, initial: Store, s: Coordinator, provider: Provider, payloadHash: HashText)
    requires Inv(cfg, initial, s) && cfg.maxAttempts >= 1
    requires IdOf(cfg, provider, payloadHash) !in s.inflight && IdOf(cfg, provider, payloadHash) !in s.store
    ensures Inv(cfg, initial, Requested(cfg, s, provider, payloadHash))
  {
    var run := Run(IdOf(cfg, provider, payloadHash), provider, payloadHash, 1, Calling);
    var next := Started(s, run);
    StartKeepsRuns(cfg, s, run);
    StartKeepsRest(cfg, initial, s, run);
    assert AnswerHolds(next, |s.runs|) && RunHolds(cfg, next, |s.runs|);
    CalledKeepsEvents(initial, next, run.id);
    SameButEvents(cfg, initial, next, s.events + [Called(run.id)]);
  }

  lemma RequestKeeps(cfg: Config, initial: Store, s: Coordinator, provider: Provider, payloadHash: HashText)
    requires Inv(cfg, initial, s) && cfg.maxAttempts >= 1
    ensures Inv(cfg, initial, Requested(cfg, s, provider, payloadHash))
  {
    if IdOf(cfg, provider, payloadHash) in s.inflight {
      JoinKeeps(cfg, initial, s, provider, payloadHash);
    } else if IdOf(cfg, provider, payloadHash) in s.store {
      StoredKeeps(cfg, initial, s, provider, payloadHash);
    } else {
      NewRunKeeps(cfg, initial, s, provider, payloadHash);
    }
  }

  // ---------- the steps of a run ----------

  /** Only one run at a time works for an identity. */
  lemma OneRunPerIdentity(cfg: Config, initial: Store, s: Coordinator, i: nat, j: nat)
    requires Inv(cfg, initial, s) && i < |s.runs| && j < |s.runs|
    requires Live(s.runs[i]) && Live(s.runs[j]) && s.runs[i].id == s.runs[j].id
    ensures i == j
  {
    assert RunHolds(cfg, s, i) && RunHolds(cfg, s, j);
  }

  /** The same run in a later phase: identity, provider and head stay. */
  ghost predicate SameRun(a: Run, b: Run) {
    a.id == b.id && a.provider == b.provider && a.payloadHash == b.payloadHash
  }

  /** Moving one run on changes nothing about what callers wait for and who wrote what. */
  lemma MoveKeepsRest(cfg: Config, initial: Store, s: Coordinator, i: nat, run: Run)
    requires i < |s.runs| && SameRun(run, s.runs[i])
    requires InflightHolds(s) && StoreHolds(initial, s) && CallersHold(cfg, s)
    ensures var next := SetRun(s, i, run); InflightHolds(next) && StoreHolds(initial, next) && CallersHold(cfg, next)
  {
    var next := SetRun(s, i, run);
    forall id | id in s.store && id !in initial ensures WasVerified(next, id) {
      assert WasVerified(s, id);
    }
    forall k | 0 <= k < |next.callers| ensures CallerHolds(cfg, next, next.callers[k]) {
      assert CallerHolds(cfg, s, s.callers[k]);
    }
  }

  lemma OthersHold(cfg: Config, s: Coordinator, i: nat, run: Run)
    requires i < |s.runs| && forall j | 0 <= j < |s.runs| :: RunHolds(cfg, s, j)
    ensures forall j | 0 <= j < |s.runs| && j != i :: RunHolds(cfg, SetRun(s, i, run), j)
  {
    forall j | 0 <= j < |s.runs| && j != i ensures RunHolds(cfg, SetRun(s, i, run), j) {
      assert RunHolds(cfg, s, j) && AnswerHolds(s, j);
    }
  }

  /** A step of a run that neither writes nor ends being in flight. */
  lemma PhaseKeeps(cfg: Config, initial: Store, s: Coordinator, i: nat, run: Run)
    requires Inv(cfg, initial, s) && i < |s.runs| && SameRun(run, s.runs[i]) && Live(s.runs[i]) && Live(run)
    requires run.calls <= cfg.maxAttempts && (run.phase.Sleeping? ==> run.calls < cfg.maxAttempts)
    requires (Working(run) ==> Working(s.runs[i])) && forall record :: !Answers(run, record)
    ensures Inv(cfg, initial, SetRun(s, i, run))
  {
    assert RunHolds(cfg, s, i);
    OthersHold(cfg, s, i, run);
    MoveKeepsRest(cfg, initial, s, i, run);
    assert RunHolds(cfg, SetRun(s, i, run), i);
  }

  lemma WrittenStore(initial: Store, s: Coordinator, i: nat, record: Record)
    requires i < |s.runs| && StoreHolds(initial, s) && s.runs[i].id !in s.store
    requires record.payloadHash == s.runs[i].payloadHash && IsHashToken(record.payloadHash)
    requires Genuine(s.runs[i].provider, record.payloadHash, record.token)
    ensures StoreHolds(initial, Written(s, i, record))
  {
    var next := Written(s, i, record);
    forall id | id in next.store && id !in initial ensures WasVerified(next, id) {
      assert id in s.store ==> WasVerified(s, id);
    }
  }

  lemma WrittenRuns(cfg: Config, initial: Store, s: Coordinator, i: nat, record: Record)
    requires Inv(cfg, initial, s) && i < |s.runs| && s.runs[i].phase.Calling?
    requires record.payloadHash == s.runs[i].payloadHash
    ensures forall j | 0 <= j < |s.runs| :: RunHolds(cfg, Written(s, i, record), j)
  {
    var next := Written(s, i, record);
    assert RunHolds(cfg, s, i);
    forall j | 0 <= j < |s.runs| ensures RunHolds(cfg, next, j) {
      assert RunHolds(cfg, s, j) && AnswerHolds(s, j);
      if Working(s.runs[j]) && s.runs[j].id == s.runs[i].id {
        OneRunPerIdentity(cfg, initial, s, i, j);
      }
    }
  }

  lemma WrittenEvents(initial: Store, s: Coordinator, i: nat, record: Record)
    requires i < |s.runs| && EventsHold(initial, s)
    ensures EventsHold(initial, Written(s, i, record))
  {
  }

  lemma WrittenCallers(cfg: Config, s: Coordinator, i: nat, record: Record)
    requires i < |s.runs| && CallersHold(cfg, s) && InflightHolds(s)
    ensures CallersHold(cfg, Written(s, i, record)) && InflightHolds(Written(s, i, record))
  {
    var next := Written(s, i, record);
    forall k | 0 <= k < |next.callers| ensures CallerHolds(cfg, next, next.callers[k]) {
      assert CallerHolds(cfg, s, s.callers[k]);
    }
  }

  lemma WriteKeeps(cfg: Config, initial: Store, s: Coordinator, i: nat, record: Record)
    requires Inv(cfg, initial, s) && i < |s.runs| && s.runs[i].phase.Calling?
    requires record.payloadHash == s.runs[i].payloadHash && IsHashToken(record.payloadHash)
    requires Genuine(s.runs[i].provider, record.payloadHash, record.token)
    ensures Inv(cfg, initial, Written(s, i, record))
  {
    assert RunHolds(cfg, s, i);
    WrittenRuns(cfg, initial, s, i, record);
    WrittenStore(initial, s, i, record);
    WrittenEvents(initial, s, i, record);
    WrittenCallers(cfg, s, i, record);
  }

  lemma AnswerKeeps(cfg: Config, initial: Store, s: Coordinator, i: nat, reply: Reply, builds: bool)
    requires Inv(cfg, initial, s) && i < |s.runs| && s.runs[i].phase.Calling?
    ensures Inv(cfg, initial, Answered(cfg, s, i, reply, builds))
  {
    var run := s.runs[i];
    var outcome := RequestAnchor(run.provider, run.payloadHash, reply);
    assert RunHolds(cfg, s, i);
    if outcome.ANCHORED? && builds {
      WriteKeeps(cfg, initial, s, i, Record(run.payloadHash, outcome.token));
    } else {
      PhaseKeeps(cfg, initial, s, i, Answered(cfg, s, i, reply, builds).runs[i]);
    }
  }

  lemma WorkingIsUnwritten(cfg: Config, initial: Store, s: Coordinator, i: nat)
    requires Inv(cfg, initial, s) && i < |s.runs| && Working(s.runs[i])
    ensures s.runs[i].id !in s.store && s.runs[i].id !in initial
  {
    assert RunHolds(cfg, s, i);
  }

  lemma WakeKeeps(cfg: Config, initial: Store, s: Coordinator, i: nat)
    requires Inv(cfg, initial, s) && i < |s.runs| && s.runs[i].phase.Sleeping?
    ensures Inv(cfg, initial, Do(cfg, s, Wake(i)))
  {
    var run := s.runs[i].(calls := s.runs[i].calls + 1, phase := Calling);
    var next := SetRun(s, i, run);
    WorkingIsUnwritten(cfg, initial, s, i);
    assert RunHolds(cfg, s, i);
    PhaseKeeps(cfg, initial, s, i, run);
    CalledKeepsEvents(initial, next, run.id);
    SameButEvents(cfg, initial, next, next.events + [Called(run.id)]);
  }

  lemma SettleKeeps(cfg: Config, initial: Store, s: Coordinator, i: nat)
    requires Inv(cfg, initial, s) && i < |s.runs| && s.runs[i].phase.Finished?
    ensures Inv(cfg, initial, Do(cfg, s, Settle(i)))
  {
    var next := Do(cfg, s, Settle(i));
    assert RunHolds(cfg, s, i) && AnswerHolds(s, i);
    forall j | 0 <= j < |next.runs| ensures RunHolds(cfg, next, j) {
      assert RunHolds(cfg, s, j) && AnswerHolds(s, j);
      if Live(s.runs[j]) && s.runs[j].id == s.runs[i].id {
        OneRunPerIdentity(cfg, initial, s, i, j);
      }
      assert forall record :: Answers(next.runs[j], record) ==> Answers(s.runs[j], record);
    }
    MoveKeepsRest(cfg, initial, s, i, next.runs[i]);
    forall id | id in s.store && id !in initial ensures WasVerified(next, id) {
      assert WasVerified(SetRun(s, i, next.runs[i]), id);
    }
    forall k | 0 <= k < |next.callers| ensures CallerHolds(cfg, next, next.callers[k]) {
      assert CallerHolds(cfg, SetRun(s, i, next.runs[i]), s.callers[k]);
    }
  }

  lemma {:induction false} EveryRunHolds(cfg: Config, store: Store, actions: seq<Action>)
    requires cfg.maxAttempts >= 1 && Reach(cfg, store, actions).Some?
    ensures Inv(cfg, store, Reach(cfg, store, actions).value)
  {
    if actions != [] {
      EveryRunHolds(cfg, store, actions[..|actions| - 1]);
      var s := Reach(cfg, store, actions[..|actions| - 1]).value;
      match actions[|actions| - 1]
      case Request(provider, payloadHash) => RequestKeeps(cfg, store, s, provider, payloadHash);
      case Answer(i, reply, builds) => AnswerKeeps(cfg, store, s, i, reply, builds);
      case Wake(i) => WakeKeeps(cfg, store, s, i);
      case Settle(i) => SettleKeeps(cfg, store, s, i);
    }
  }

  /**
   Over every interleaving of calls with any providers: one run in flight per identity, never more
   than `maxAttempts` calls in a run, no call for an identity after its record is written, and
   every record written carries a token that the provider of the writing run verified for its head.
   */
  lemma AnchorsOnceAndNeverFabricates(cfg: Config, store: Store, actions: seq<Action>)
    requires cfg.maxAttempts >= 1 && Reach(cfg, store, actions).Some?
    ensures var s := Reach(cfg, store, actions).value;
      && (forall i, j | 0 <= i < |s.runs| && 0 <= j < |s.runs| && Live(s.runs[i]) && Live(s.runs[j]) && s.runs[i].id == s.runs[j].id ::
            i == j)
      && (forall i | 0 <= i < |s.runs| :: s.runs[i].calls <= cfg.maxAttempts)
      && EventsHold(store, s) && StoreHolds(store, s)
  {
    EveryRunHolds(cfg, store, actions);
    var s := Reach(cfg, store, actions).value;
    forall i, j | 0 <= i < |s.runs| && 0 <= j < |s.runs| && Live(s.runs[i]) && Live(s.runs[j]) && s.runs[i].id == s.runs[j].id
      ensures i == j
    {
      OneRunPerIdentity(cfg, store, s, i, j);
    }
    forall i | 0 <= i < |s.runs| ensures s.runs[i].calls <= cfg.maxAttempts {
      assert RunHolds(cfg, s, i);
    }
  }

  /** A record once stored never changes, whatever happens next. */
  lemma {:induction false} RecordsNeverChange(cfg: Config, store: Store, actions: seq<Action>, more: seq<Action>, id: string)
    requires Reach(cfg, store, actions + more).Some?
    ensures Reach(cfg, store, actions).Some?
    ensures id in Reach(cfg, store, actions).value.store ==>
      id in Reach(cfg, store, actions + more).value.store
      && Reach(cfg, store, actions + more).value.store[id] == Reach(cfg, store, actions).value.store[id]
  {
    if more == [] {
      assert actions + more == actions;
    } else {
      var all := actions + more;
      assert all[..|all| - 1] == actions + more[..|more| - 1];
      RecordsNeverChange(cfg, store, actions, more[..|more| - 1], id);
    }
  }

  /** A genuine token that could be built into a record is stored at once, and reported as this run's own. */
  lemma TokenIsStored(cfg: Config, store: Store, actions: seq<Action>, i: nat, token: Token)
    requires cfg.maxAttempts >= 1 && Reach(cfg, store, actions).Some?
    requires var s := Reach(cfg, store, actions).value;
      i < |s.runs| && s.runs[i].phase.Calling? && IsHashToken(s.runs[i].payloadHash)
      && Genuine(s.runs[i].provider, s.runs[i].payloadHash, token)
    ensures var s := Reach(cfg, store, actions).value;
      var next := Answered(cfg, s, i, SaysAnchored(token), true);
      next.runs[i].phase == Finished(Anchored(Record(s.runs[i].payloadHash, token), false))
      && s.runs[i].id in next.store && next.store[s.runs[i].id] == Record(s.runs[i].payloadHash, token)
  {
    EveryRunHolds(cfg, store, actions);
    assert RunHolds(cfg, Reach(cfg, store, actions).value, i);
  }

  /**
   Every request gets a run of its identity: the one in flight, or else a new one, which calls the
   provider at once unless a record is stored.
   */
  lemma EveryRequestGetsARun(cfg: Config, s: Coordinator, provider: Provider, payloadHash: HashText)
    requires InflightHolds(s)
    ensures
      var next, id := Requested(cfg, s, provider, payloadHash), IdOf(cfg, provider, payloadHash);
      var run := if id in s.inflight then s.inflight[id] else |s.runs|;
      && next.callers == s.callers + [Caller(provider, payloadHash, run)]
      && run < |next.runs| && next.runs[run].id == id && next.store == s.store
      && (id in s.inflight ==> next.runs == s.runs && next.events == s.events)
      && (id !in s.inflight ==> |next.runs| == |s.runs| + 1 && next.runs[..|s.runs|] == s.runs)
      && (id !in s.inflight && id !in s.store ==>
            next.runs[run] == Run(id, provider, payloadHash, 1, Calling) && next.events == s.events + [Called(id)])
  {
  }

  /**
   A head whose record is stored is answered from the store, without a provider call: with the record if
   it is bound to this head, and as a collision otherwise.
   */
  lemma StoredIsAnswered(cfg: Config, s: Coordinator, provider: Provider, payloadHash: HashText)
    requires var id := IdOf(cfg, provider, payloadHash); id !in s.inflight && id in s.store
    ensures var next, record := Requested(cfg, s, provider, payloadHash), s.store[IdOf(cfg, provider, payloadHash)];
      && next.events == s.events && next.store == s.store && |next.runs| == |s.runs| + 1
      && next.runs[|s.runs|].phase == Finished(if record.payloadHash == payloadHash then Anchored(record, true) else Collided)
      && next.callers == s.callers + [Caller(provider, payloadHash, |s.runs|)]
  {
  }

  // ---------- what a caller gets ----------

  /** No two heads or provider types share an anchor identity. */
  ghost predicate Injective(cfg: Config) {
    forall h, t, h', t' {:trigger cfg.idFor(h, t), cfg.idFor(h', t')} :: cfg.idFor(h, t) == cfg.idFor(h', t') ==> h == h' && t == t'
  }

  /**
   An anchored answer is for the caller's own head.  Unless the record was there at the start, its
   token is of the caller's provider type and was verified by the provider of the run that wrote it.
   */
  lemma AnswerForCaller(cfg: Config, store: Store, actions: seq<Action>, k: nat, record: Record)
    requires cfg.maxAttempts >= 1 && Injective(cfg) && Reach(cfg, store, actions).Some?
    requires var s := Reach(cfg, store, actions).value;
      k < |s.callers| && s.callers[k].run < |s.runs| && Answers(s.runs[s.callers[k].run], record)
    ensures var s := Reach(cfg, store, actions).value; var c := s.callers[k]; var id := IdOf(cfg, c.provider, c.payloadHash);
      && id in s.store && s.store[id] == record && record.payloadHash == c.payloadHash
      && (id !in store ==>
            && WasVerified(s, id)
            && s.runs[s.writers[id]].provider.providerType == c.provider.providerType == record.token.providerType
            && Genuine(s.runs[s.writers[id]].provider, c.payloadHash, record.token))
  {
    EveryRunHolds(cfg, store, actions);
    var s := Reach(cfg, store, actions).value;
    var c := s.callers[k];
    var run := s.runs[c.run];
    assert CallerHolds(cfg, s, c) && RunHolds(cfg, s, c.run) && AnswerHolds(s, c.run);
    assert cfg.idFor(run.payloadHash, run.provider.providerType) == cfg.idFor(c.payloadHash, c.provider.providerType);
    if run.id !in store {
      assert WasVerified(s, run.id) && RunHolds(cfg, s, s.writers[run.id]);
      var writer := s.runs[s.writers[run.id]];
      assert cfg.idFor(writer.payloadHash, writer.provider.providerType) == cfg.idFor(c.payloadHash, c.provider.providerType);
    }
  }

  /** A caller that joins the run of another provider of its type gets a record its own provider refuses. */
  lemma JoinedCallerMayGetAnother(cfg: Config, mine: Provider, other: Provider, payloadHash: HashText, token: Token)
    requires cfg.maxAttempts >= 1 && IsHashToken(payloadHash) && mine.providerType == other.providerType
    requires Genuine(other, payloadHash, token) && !mine.verifies(token, payloadHash)
    ensures var actions := [Request(other, payloadHash), Request(mine, payloadHash), Answer(0, SaysAnchored(token), true)];
      var end := Reach(cfg, map[], actions);
      && end.Some? && |end.value.callers| == 2 && end.value.callers[1] == Caller(mine, payloadHash, 0)
      && |end.value.runs| == 1 && Answers(end.value.runs[0], Record(payloadHash, token))
      && !Genuine(mine, payloadHash, token)
  {
    var a, b, c := Request(other, payloadHash), Request(mine, payloadHash), Answer(0, SaysAnchored(token), true);
    assert [a, b, c][..2] == [a, b] && [a, b][..1] == [a] && [a][..0] == [];
    var first := Requested(cfg, Initial(map[]), other, payloadHash);
    assert Reach(cfg, map[], [a]) == Some(first);
    var second := Requested(cfg, first, mine, payloadHash);
    assert Reach(cfg, map[], [a, b]) == Some(second);
    assert second.runs == first.runs && second.runs[0].phase == Calling;
    assert Reach(cfg, map[], [a, b, c]) == Some(Answered(cfg, second, 0, SaysAnchored(token), true));
  }

  // ---------- when every caller's own provider vouches for its answer ----------

  /** The calls bring no other providers than these. */
  ghost predicate CallsOnly(actions: seq<Action>, providers: iset<Provider>) {
    forall i | 0 <= i < |actions| && actions[i].Request? :: actions[i].provider in providers
  }

  /** Two providers of one type accept each other's genuine tokens. */
  ghost predicate Accepts(p: Provider, q: Provider) {
    p.providerType == q.providerType ==>
      forall payloadHash, token | IsHashToken(payloadHash) && Genuine(p, payloadHash, token) :: q.verifies(token, payloadHash)
  }

  ghost predicate AllAccept(providers: iset<Provider>) {
    forall p, q | p in providers && q in providers :: Accepts(p, q)
  }

  /** Caller k of this run has an anchored answer, and its own provider does not vouch for it. */
  ghost predicate Unvouched(cfg: Config, actions: seq<Action>, k: nat, record: Record) {
    var s := Reach(cfg, map[], actions);
    && s.Some? && k < |s.value.callers| && s.value.callers[k].run < |s.value.runs|
    && Answers(s.value.runs[s.value.callers[k].run], record)
    && !Genuine(s.value.callers[k].provider, s.value.callers[k].payloadHash, record.token)
  }

  ghost predicate ComesFrom(s: Coordinator, providers: iset<Provider>) {
    && (forall i | 0 <= i < |s.runs| :: s.runs[i].provider in providers)
    && (forall k | 0 <= k < |s.callers| :: s.callers[k].provider in providers)
  }

  lemma {:induction false} CallsBringProviders(cfg: Config, store: Store, actions: seq<Action>, providers: iset<Provider>)
    requires CallsOnly(actions, providers) && Reach(cfg, store, actions).Some?
    ensures ComesFrom(Reach(cfg, store, actions).value, providers)
  {
    if actions != [] {
      var most, a := actions[..|actions| - 1], actions[|actions| - 1];
      assert CallsOnly(most, providers);
      CallsBringProviders(cfg, store, most, providers);
      StepBringsProviders(cfg, Reach(cfg, store, most).value, a, providers);
    }
  }

  lemma StepBringsProviders(cfg: Config, s: Coordinator, a: Action, providers: iset<Provider>)
    requires ComesFrom(s, providers) && Enabled(s, a) && (a.Request? ==> a.provider in providers)
    ensures ComesFrom(Do(cfg, s, a), providers)
  {
  }

  lemma AcceptingVouch(cfg: Config, providers: iset<Provider>, actions: seq<Action>, k: nat, record: Record)
    requires cfg.maxAttempts >= 1 && Injective(cfg) && AllAccept(providers) && CallsOnly(actions, providers)
    ensures !Unvouched(cfg, actions, k, record)
  {
    var s := Reach(cfg, map[], actions);
    if s.Some? && k < |s.value.callers| && s.value.callers[k].run < |s.value.runs|
      && Answers(s.value.runs[s.value.callers[k].run], record)
    {
      AnswerForCaller(cfg, map[], actions, k, record);
      CallsBringProviders(cfg, map[], actions, providers);
      var c := s.value.callers[k];
      var writer := s.value.runs[s.value.writers[IdOf(cfg, c.provider, c.payloadHash)]].provider;
      assert Accepts(writer, c.provider);
    }
  }

  /** Two providers of one type, one refusing a token of the other: a run in which a caller gets it. */
  lemma RefusingFails(cfg: Config, providers: iset<Provider>, p: Provider, q: Provider) returns (actions: seq<Action>, record: Record)
    requires cfg.maxAttempts >= 1 && p in providers && q in providers && !Accepts(p, q)
    ensures CallsOnly(actions, providers) && Unvouched(cfg, actions, 1, record)
  {
    var payloadHash, token :| IsHashToken(payloadHash) && Genuine(p, payloadHash, token) && !q.verifies(token, payloadHash);
    actions := [Request(p, payloadHash), Request(q, payloadHash), Answer(0, SaysAnchored(token), true)];
    record := Record(payloadHash, token);
    JoinedCallerMayGetAnother(cfg, q, p, payloadHash, token);
  }

  /**
   In every run whose calls bring these providers only, every caller's own provider vouches for its
   anchored answer, if and only if any two of them of one type accept each other's genuine tokens.
   */
  lemma AnswersAreVouchedIff(cfg: Config, providers: iset<Provider>)
    requires cfg.maxAttempts >= 1 && Injective(cfg)
    ensures AllAccept(providers) <==>
      forall actions, k: nat, record | CallsOnly(actions, providers) :: !Unvouched(cfg, actions, k, record)
  {
    if AllAccept(providers) {
      forall actions, k: nat, record | CallsOnly(actions, providers) ensures !Unvouched(cfg, actions, k, record) {
        AcceptingVouch(cfg, providers, actions, k, record);
      }
    } else {
      var p, q :| p in providers && q in providers && !Accepts(p, q);
      var actions, record := RefusingFails(cfg, providers, p, q);
    }
  }

  // ---------- a run follows its replies ----------

  /** The replies run i has got. */
  function RepliesTo(actions: seq<Action>, i: nat): seq<Reply> {
    if actions == [] then []
    else
      var last := actions[|actions| - 1];
      RepliesTo(actions[..|actions| - 1], i) + if last.Answer? && last.run == i then [last.reply] else []
  }

  ghost predicate AllPending(run: Run, replies: seq<Reply>) {
    forall k | 0 <= k < |replies| :: RequestAnchor(run.provider, run.payloadHash, replies[k]).PENDING?
  }

  /** The last of n replies, and the answer it leads to. */
  ghost predicate Decides(cfg: Config, run: Run, n: nat, last: Reply, result: Result) {
    match RequestAnchor(run.provider, run.payloadHash, last)
    case PENDING(reason) => n == cfg.maxAttempts && result == StillPending(reason)
    case FAILED(reason) => result == Refused(reason)
    case ANCHORED(token) => result.BuildFailed? || result.Collided? || result.Anchored?
  }

  /** One provider call for each reply and one more while calling; nothing but pending replies before the last. */
  ghost predicate Follows(cfg: Config, run: Run, replies: seq<Reply>) {
    match run.phase
    case Calling => run.calls == |replies| + 1 && AllPending(run, replies)
    case Sleeping => run.calls == |replies| < cfg.maxAttempts && AllPending(run, replies)
    case _ =>
      && run.calls == |replies|
      && if replies == [] then run.phase.result.Anchored? || run.phase.result.Collided?
         else AllPending(run, replies[..|replies| - 1]) && Decides(cfg, run, |replies|, replies[|replies| - 1], run.phase.result)
  }

  ghost predicate AllFollow(cfg: Config, s: Coordinator, actions: seq<Action>) {
    && (forall i | 0 <= i < |s.runs| :: Follows(cfg, s.runs[i], RepliesTo(actions, i)))
    && forall i | i >= |s.runs| :: RepliesTo(actions, i) == []
  }

  lemma RepliesStep(actions: seq<Action>, a: Action, i: nat)
    ensures RepliesTo(actions + [a], i) == RepliesTo(actions, i) + if a.Answer? && a.run == i then [a.reply] else []
  {
    assert (actions + [a])[..|actions|] == actions;
  }

  lemma AnswerFollows(cfg: Config, s: Coordinator, i: nat, reply: Reply, builds: bool, replies: seq<Reply>)
    requires i < |s.runs| && s.runs[i].phase.Calling? && Follows(cfg, s.runs[i], replies) && s.runs[i].calls <= cfg.maxAttempts
    ensures var next := Answered(cfg, s, i, reply, builds);
      && |next.runs| == |s.runs| && Follows(cfg, next.runs[i], replies + [reply])
      && forall j | 0 <= j < |s.runs| && j != i :: next.runs[j] == s.runs[j]
  {
    assert (replies + [reply])[..|replies|] == replies;
  }

  lemma RepliesAfter(actions: seq<Action>, a: Action, i: nat)
    ensures a.Answer? && a.run == i ==> RepliesTo(actions + [a], i) == RepliesTo(actions, i) + [a.reply]
    ensures !(a.Answer? && a.run == i) ==> RepliesTo(actions + [a], i) == RepliesTo(actions, i)
  {
    RepliesStep(actions, a, i);
    assert RepliesTo(actions, i) + [] == RepliesTo(actions, i);
  }

  /** What an action does to the runs: at most one of them steps, or one is added at the end. */
  lemma OthersStay(cfg: Config, s: Coordinator, a: Action, j: nat)
    requires Enabled(s, a) && j < |s.runs| && (!a.Request? ==> j != a.run)
    ensures var next := Do(cfg, s, a); |next.runs| >= |s.runs| && next.runs[j] == s.runs[j]
  {
  }

  lemma StepFollows(cfg: Config, s: Coordinator, actions: seq<Action>, a: Action)
    requires Enabled(s, a) && AllFollow(cfg, s, actions) && !a.Request? && s.runs[a.run].calls <= cfg.maxAttempts
    ensures |Do(cfg, s, a).runs| == |s.runs|
    ensures Follows(cfg, Do(cfg, s, a).runs[a.run], RepliesTo(actions + [a], a.run))
  {
    RepliesAfter(actions, a, a.run);
    if a.Answer? {
      AnswerFollows(cfg, s, a.run, a.reply, a.builds, RepliesTo(actions, a.run));
    }
  }

  lemma RequestFollows(cfg: Config, s: Coordinator, actions: seq<Action>, a: Action)
    requires a.Request? && AllFollow(cfg, s, actions)
    ensures var next := Do(cfg, s, a);
      |next.runs| > |s.runs| ==> |next.runs| == |s.runs| + 1 && Follows(cfg, next.runs[|s.runs|], RepliesTo(actions + [a], |s.runs|))
  {
    RepliesAfter(actions, a, |s.runs|);
  }

  lemma DoFollows(cfg: Config, s: Coordinator, actions: seq<Action>, a: Action)
    requires Enabled(s, a) && AllFollow(cfg, s, actions) && forall i | 0 <= i < |s.runs| :: s.runs[i].calls <= cfg.maxAttempts
    ensures AllFollow(cfg, Do(cfg, s, a), actions + [a])
  {
    var next := Do(cfg, s, a);
    if a.Request? {
      RequestFollows(cfg, s, actions, a);
    } else {
      StepFollows(cfg, s, actions, a);
    }
    forall i | 0 <= i < |next.runs| ensures Follows(cfg, next.runs[i], RepliesTo(actions + [a], i)) {
      if i < |s.runs| && (a.Request? || i != a.run) {
        OthersStay(cfg, s, a, i);
        RepliesAfter(actions, a, i);
      }
    }
    forall i | i >= |next.runs| ensures RepliesTo(actions + [a], i) == [] {
      RepliesAfter(actions, a, i);
    }
  }

  /**
   In every interleaving a run calls its provider again after each pending reply until it has called
   `maxAttempts` times, and never after another reply: it ends as still pending exactly with the reason
   of a pending reply to its last permitted call, and as refused with the reason of its only failure.
   */
  lemma {:induction false} RunsFollowTheirReplies(cfg: Config, store: Store, actions: seq<Action>)
    requires Reach(cfg, store, actions).Some? && cfg.maxAttempts >= 1
    ensures AllFollow(cfg, Reach(cfg, store, actions).value, actions)
  {
    if actions != [] {
      var most, a := actions[..|actions| - 1], actions[|actions| - 1];
      RunsFollowTheirReplies(cfg, store, most);
      AnchorsOnceAndNeverFabricates(cfg, store, most);
      var s := Reach(cfg, store, most).value;
      DoFollows(cfg, s, most, a);
      assert actions == most + [a];
    }
  }
}

/**
 The evidence-writer service (services/evidence-writer/src/service.ts) as a state machine.  Every
 call of `ingest` or `sweep` is a task working through the segments it received; a step is what
 runs between two awaits, and any task may take the next step.  All envelopes are of one database.
 */
module Service {
  import opened Outcomes
  import opened CceModel
  import opened CceOrder
  import opened ManifestBuilder
  import opened SealPlans
  import opened StoreKeys
  import Accumulation
  import AccumulatorRuns

  /** Does this segment, sealed against this predecessor at this time, pass with this plan? */
  type Passing = (SealReady, Option<PreviousSealed>, string, Plan) -> bool

  datatype Config = Config(hex: Hex, caps: Accumulation.Caps, db: string, passes: Passing)

  datatype Phase =
    | Idle
    | Writing(plan: Plan, at: string, done: nat)
    | Attesting(plan: Plan)
    | AnchorWriting(plan: Plan)
    | Broken

  /** One call: the emitted segments `start..end` are its own, those before `next` are dealt with. */
  datatype Task = Task(start: nat, next: nat, end: nat, phase: Phase)

  datatype Service = Service(
    history: Accumulation.History,
    tasks: seq<Task>,
    previous: Option<PreviousSealed>,
    log: seq<Sealed>,
    failed: set<nat>,
    store: set<string>)

  const INITIAL := Service(Accumulation.NOTHING, [], None, [], {}, {})

  datatype Attested = NoToken | Token | Threw

  datatype Action =
    | Receive(event: Accumulation.Event)
    | Start(t: nat, at: string, plan: Option<Plan>, threw: bool)
    | WriteObject(t: nat, ok: bool, threw: bool)
    | WriteManifest(t: nat, ok: bool)
    | Attest(t: nat, outcome: Attested)
    | WriteAnchor(t: nat, ok: bool)

  // ---------- the steps ----------

  function SetTask(s: Service, t: nat, task: Task): Service
    requires t < |s.tasks|
  {
    s.(tasks := s.tasks[t := task])
  }

  /** The segment under way is not sealed; the task goes on with its next one unless it threw. */
  function Fail(s: Service, t: nat, threw: bool): Service
    requires t < |s.tasks|
  {
    var task := s.tasks[t];
    SetTask(s, t, task.(next := task.next + 1, phase := if threw then Broken else Idle)).(failed := s.failed + {task.next})
  }

  /** `this.#previous = { manifest, head }` and on to the next segment. */
  function Finish(s: Service, t: nat, plan: Plan): Service
    requires t < |s.tasks|
  {
    var task := s.tasks[t];
    SetTask(s, t, task.(next := task.next + 1, phase := Idle)).(previous := Some(PreviousSealed(plan.manifest, plan.head)))
  }

  ghost predicate HasTask(s: Service, t: nat) {
    t < |s.tasks| && s.tasks[t].next < s.tasks[t].end <= |s.history.emitted|
  }

  /** The key a step is about to write. */
  function Target(s: Service, a: Action): Option<Slot> {
    match a
    case WriteObject(t, ok, threw) =>
      if t < |s.tasks| && s.tasks[t].phase.Writing? then Some(ObjectSlot(s.tasks[t].next, s.tasks[t].phase.done)) else None
    case WriteManifest(t, ok) => if t < |s.tasks| then Some(ManifestSlot(s.tasks[t].next)) else None
    case WriteAnchor(t, ok) => if t < |s.tasks| then Some(AnchorSlot(s.tasks[t].next)) else None
    case _ => None
  }

  /** A write succeeds only under a key that does not exist yet. */
  ghost predicate MayWrite(cfg: Config, s: Service, a: Action) {
    Target(s, a).Some? && SlotKey(cfg.db, Target(s, a).value) !in s.store
  }

  ghost predicate Enabled(cfg: Config, s: Service, a: Action) {
    match a
    case Receive(e) => e.Add? && Accumulation.Admit(e.c).Ok? ==> DbId(e.c) == Some(cfg.db)
    case Start(t, at, plan, threw) =>
      && HasTask(s, t) && s.tasks[t].phase == Idle
      && var seg := s.history.emitted[s.tasks[t].next];
        if plan.Some? then cfg.passes(seg, s.previous, at, plan.value)
        else forall p :: !cfg.passes(seg, s.previous, at, p)
    case WriteObject(t, ok, threw) =>
      && HasTask(s, t) && s.tasks[t].phase.Writing? && s.tasks[t].phase.done < |s.tasks[t].phase.plan.chained.objects|
      && (ok ==> MayWrite(cfg, s, a))
    case WriteManifest(t, ok) =>
      && HasTask(s, t) && s.tasks[t].phase.Writing? && s.tasks[t].phase.done == |s.tasks[t].phase.plan.chained.objects|
      && (ok ==> MayWrite(cfg, s, a))
    case Attest(t, outcome) => HasTask(s, t) && s.tasks[t].phase.Attesting?
    case WriteAnchor(t, ok) => HasTask(s, t) && s.tasks[t].phase.AnchorWriting? && (ok ==> MayWrite(cfg, s, a))
  }

  function Stored(cfg: Config, s: Service, slot: Slot): Service {
    s.(store := s.store + {SlotKey(cfg.db, slot)})
  }

  ghost function Do(cfg: Config, s: Service, a: Action): Service
    requires Enabled(cfg, s, a)
  {
    match a
    case Receive(e) =>
      var history := Accumulation.Next(cfg.hex, cfg.caps, s.history, e);
      s.(history := history,
         tasks := s.tasks + [Task(|s.history.emitted|, |s.history.emitted|, |history.emitted|, Idle)])
    case Start(t, at, plan, threw) =>
      if plan.Some? then SetTask(s, t, s.tasks[t].(phase := Writing(plan.value, at, 0))) else Fail(s, t, threw)
    case WriteObject(t, ok, threw) =>
      var task := s.tasks[t];
      if ok then
        Stored(cfg, SetTask(s, t, task.(phase := task.phase.(done := task.phase.done + 1))), ObjectSlot(task.next, task.phase.done))
      else Fail(s, t, threw)
    case WriteManifest(t, ok) =>
      var task := s.tasks[t];
      if ok then
        var sealed := Sealed(s.history.emitted[task.next], task.phase.at, task.phase.plan);
        Stored(cfg, SetTask(s, t, task.(phase := Attesting(task.phase.plan))), ManifestSlot(task.next)).(log := s.log + [sealed])
      else Fail(s, t, false)
    case Attest(t, outcome) =>
      var task := s.tasks[t];
      if outcome.NoToken? then Finish(s, t, task.phase.plan)
      else SetTask(s, t, if outcome.Token? then task.(phase := AnchorWriting(task.phase.plan))
                         else task.(next := task.next + 1, phase := Broken))
    case WriteAnchor(t, ok) =>
      var task := s.tasks[t];
      if ok then Stored(cfg, Finish(s, t, task.phase.plan), AnchorSlot(task.next))
      else SetTask(s, t, task.(next := task.next + 1, phase := Broken))
  }

  /** The state after these steps, when each was possible. */
  ghost function Reach(cfg: Config, actions: seq<Action>): Option<Service> {
    if actions == [] then Some(INITIAL)
    else
      var before, a := Reach(cfg, actions[..|actions| - 1]), actions[|actions| - 1];
      if before.Some? && Enabled(cfg, before.value, a) then Some(Do(cfg, before.value, a)) else None
  }

  // ---------- the invariant ----------

  /** A plan carries the number of its segment, which is one more than its predecessor's. */
  ghost predicate Lawful(passes: Passing) {
    forall seg, previous, at, plan :: passes(seg, previous, at, plan) ==>
      && plan.manifest.core.segmentSequence == seg.segmentSequence
      && (previous.None? ==> seg.segmentSequence == 0)
      && (previous.Some? ==> seg.segmentSequence == previous.value.manifest.core.segmentSequence + 1)
  }

  /** The accumulator's side: its books balance and everything is of this database. */
  ghost predicate Fed(cfg: Config, h: Accumulation.History) {
    && Accumulation.Inv(cfg.hex, cfg.caps, h) && Accumulation.Resting(cfg.hex, cfg.caps, h.state)
    && AccumulatorRuns.Single(h, cfg.db)
  }

  ghost predicate NumberedSegments(emitted: seq<SealReady>) {
    forall i | 0 <= i < |emitted| :: emitted[i].segmentSequence == i
  }

  /** Tasks own disjoint stretches of the emitted segments. */
  ghost predicate Disjoint(tasks: seq<Task>, n: nat) {
    && (forall i | 0 <= i < |tasks| :: tasks[i].start <= tasks[i].next <= tasks[i].end <= n)
    && forall i, j | 0 <= i < j < |tasks| :: tasks[i].end <= tasks[j].start
  }

  ghost predicate PassedAt(cfg: Config, log: seq<Sealed>, i: nat)
    requires i < |log|
  {
    cfg.passes(log[i].seg, Before(log, i), log[i].at, log[i].plan)
  }

  /** Each segment was sealed against the one sealed just before it. */
  ghost predicate SealedBy(cfg: Config, log: seq<Sealed>) {
    forall i {:trigger PassedAt(cfg, log, i)} | 0 <= i < |log| :: PassedAt(cfg, log, i)
  }

  /** `#previous` is the last segment sealed. */
  ghost predicate Settled(s: Service) {
    s.previous == Before(s.log, |s.log|)
  }

  /** A segment is sealed and `#previous` does not say so yet. */
  ghost predicate Lagging(s: Service) {
    s.log != [] && s.previous == Before(s.log, |s.log| - 1)
  }

  ghost predicate PhaseHolds(cfg: Config, s: Service, task: Task) {
    match task.phase
    case Idle => true
    case Broken => true
    case Writing(plan, at, done) =>
      && task.next < task.end && task.next < |s.history.emitted| && task.next == |s.log| && Settled(s)
      && cfg.passes(s.history.emitted[task.next], s.previous, at, plan) && done <= |plan.chained.objects|
    case Attesting(plan) => task.next < task.end && task.next + 1 == |s.log| && Lagging(s) && s.log[task.next].plan == plan
    case AnchorWriting(plan) => task.next < task.end && task.next + 1 == |s.log| && Lagging(s) && s.log[task.next].plan == plan
  }

  /** Still to be dealt with by this task. */
  predicate Pending(task: Task, n: nat) {
    task.next <= n < task.end
  }

  ghost predicate FailedHolds(s: Service) {
    forall f | f in s.failed ::
      |s.log| <= f < |s.history.emitted| && forall t | 0 <= t < |s.tasks| :: !Pending(s.tasks[t], f)
  }

  /** The task may already have written here. */
  predicate Claims(task: Task, slot: Slot) {
    slot.n == task.next &&
      match task.phase
      case Idle => false
      case Broken => false
      case Writing(plan, at, done) => slot.ObjectSlot? && slot.i < done
      case Attesting(plan) => !slot.AnchorSlot?
      case AnchorWriting(plan) => !slot.AnchorSlot?
  }

  /** Nothing can have been written here yet. */
  ghost predicate Free(s: Service, slot: Slot) {
    slot.n >= |s.history.emitted| || exists t | 0 <= t < |s.tasks| :: Pending(s.tasks[t], slot.n) && !Claims(s.tasks[t], slot)
  }

  ghost predicate StoreHolds(cfg: Config, s: Service) {
    forall slot | Free(s, slot) :: SlotKey(cfg.db, slot) !in s.store
  }

  /** What is sealed is dealt with, except for the segment whose anchoring is under way. */
  ghost predicate LogHolds(s: Service) {
    && |s.log| <= |s.history.emitted|
    && (forall i | 0 <= i < |s.log| :: s.log[i].seg == s.history.emitted[i])
    && forall t, n | 0 <= t < |s.tasks| && 0 <= n < |s.log| && Pending(s.tasks[t], n) ::
         (s.tasks[t].phase.Attesting? || s.tasks[t].phase.AnchorWriting?) && n == s.tasks[t].next
  }

  ghost predicate Inv(cfg: Config, s: Service) {
    && NumberedSegments(s.history.emitted)
    && Disjoint(s.tasks, |s.history.emitted|)
    && LogHolds(s) && SealedBy(cfg, s.log)
    && (Settled(s) || Lagging(s))
    && (forall t | 0 <= t < |s.tasks| :: PhaseHolds(cfg, s, s.tasks[t]))
    && FailedHolds(s)
    && StoreHolds(cfg, s)
  }

  // ---------- one step keeps it ----------

  lemma {:induction false} LogNumbers(cfg: Config, log: seq<Sealed>, i: nat)
    requires Lawful(cfg.passes) && SealedBy(cfg, log) && i < |log|
    ensures log[i].plan.manifest.core.segmentSequence == log[i].seg.segmentSequence == i
  {
    assert PassedAt(cfg, log, i);
    if i > 0 {
      LogNumbers(cfg, log, i - 1);
    }
  }

  lemma SettledIsNotLagging(cfg: Config, s: Service)
    requires Lawful(cfg.passes) && SealedBy(cfg, s.log)
    ensures !(Settled(s) && Lagging(s))
  {
    if s.log != [] {
      LogNumbers(cfg, s.log, |s.log| - 1);
      if |s.log| >= 2 {
        LogNumbers(cfg, s.log, |s.log| - 2);
      }
    }
  }

  /** The number a passing segment must have. */
  lemma PassingNumber(cfg: Config, s: Service, seg: SealReady, at: string, plan: Plan)
    requires Lawful(cfg.passes) && SealedBy(cfg, s.log) && cfg.passes(seg, s.previous, at, plan)
    ensures Settled(s) ==> seg.segmentSequence == |s.log|
    ensures Lagging(s) ==> seg.segmentSequence == |s.log| - 1
  {
    if Settled(s) && s.log != [] {
      LogNumbers(cfg, s.log, |s.log| - 1);
    }
    if Lagging(s) && |s.log| >= 2 {
      LogNumbers(cfg, s.log, |s.log| - 2);
    }
  }

  predicate Active(task: Task) {
    task.phase != Idle && task.phase != Broken
  }

  lemma PendingOnce(tasks: seq<Task>, n: nat, t: nat, u: nat, k: nat)
    requires Disjoint(tasks, n) && t < |tasks| && u < |tasks| && Pending(tasks[t], k) && Pending(tasks[u], k)
    ensures t == u
  {
  }

  /** At most one task is past the checks at any time. */
  lemma OneActive(cfg: Config, s: Service, t: nat, u: nat)
    requires Lawful(cfg.passes) && Inv(cfg, s) && t < |s.tasks| && u < |s.tasks| && Active(s.tasks[t]) && Active(s.tasks[u])
    ensures t == u
  {
    assert PhaseHolds(cfg, s, s.tasks[t]) && PhaseHolds(cfg, s, s.tasks[u]);
    SettledIsNotLagging(cfg, s);
    assert s.tasks[t].next == s.tasks[u].next;
    PendingOnce(s.tasks, |s.history.emitted|, t, u, s.tasks[t].next);
  }

  lemma DisjointUpdate(tasks: seq<Task>, n: nat, t: nat, task: Task)
    requires Disjoint(tasks, n) && t < |tasks|
    requires task.start == tasks[t].start && task.end == tasks[t].end && tasks[t].next <= task.next <= task.end
    ensures Disjoint(tasks[t := task], n)
  {
  }

  /** A later version of a task: no place becomes free again. */
  ghost predicate Advances(task: Task, later: Task) {
    && later.start == task.start && later.end == task.end && task.next <= later.next <= later.end
    && (later.next == task.next ==> forall slot | Claims(task, slot) :: Claims(later, slot))
  }

  lemma FreeShrinks(s: Service, t: nat, later: Task, slot: Slot)
    requires t < |s.tasks| && Advances(s.tasks[t], later) && Free(SetTask(s, t, later), slot)
    ensures Free(s, slot)
  {
    var tasks := s.tasks[t := later];
    if slot.n < |s.history.emitted| {
      var u :| 0 <= u < |tasks| && Pending(tasks[u], slot.n) && !Claims(tasks[u], slot);
      if u == t {
        assert Pending(s.tasks[t], slot.n) && !Claims(s.tasks[t], slot);
      } else {
        assert tasks[u] == s.tasks[u];
      }
    }
  }

  lemma StoreKeeps(cfg: Config, s: Service, t: nat, later: Task)
    requires StoreHolds(cfg, s) && t < |s.tasks| && Advances(s.tasks[t], later)
    ensures StoreHolds(cfg, SetTask(s, t, later))
  {
    forall slot | Free(SetTask(s, t, later), slot) ensures SlotKey(cfg.db, slot) !in s.store {
      FreeShrinks(s, t, later, slot);
    }
  }

  lemma StoreAdds(cfg: Config, s: Service, t: nat, later: Task, slot: Slot)
    requires StoreHolds(cfg, s) && Disjoint(s.tasks, |s.history.emitted|)
    requires t < |s.tasks| && Advances(s.tasks[t], later) && HasTask(s, t) && slot.n == s.tasks[t].next
    requires later.next == slot.n ==> Claims(later, slot)
    ensures StoreHolds(cfg, Stored(cfg, SetTask(s, t, later), slot))
  {
    var next := Stored(cfg, SetTask(s, t, later), slot);
    DisjointUpdate(s.tasks, |s.history.emitted|, t, later);
    forall other | Free(next, other) ensures SlotKey(cfg.db, other) !in next.store {
      assert Free(SetTask(s, t, later), other);
      FreeShrinks(s, t, later, other);
      SlotKeysDiffer(cfg.db, other, slot);
      if other == slot {
        NotFree(s, t, later, slot);
      }
    }
  }

  lemma NotFree(s: Service, t: nat, later: Task, slot: Slot)
    requires Disjoint(s.tasks, |s.history.emitted|) && t < |s.tasks| && Advances(s.tasks[t], later)
    requires HasTask(s, t) && slot.n == s.tasks[t].next && (later.next == slot.n ==> Claims(later, slot))
    ensures !Free(SetTask(s, t, later), slot)
  {
    var tasks := s.tasks[t := later];
    forall u | 0 <= u < |tasks| && Pending(tasks[u], slot.n) ensures Claims(tasks[u], slot) {
      PendingOnce(s.tasks, |s.history.emitted|, t, u, slot.n);
    }
  }

  /** The place a step is about to write is free, so its key is new. */
  lemma TargetIsFree(cfg: Config, s: Service, a: Action)
    requires Inv(cfg, s) && Target(s, a).Some?
    requires a.WriteObject? || a.WriteManifest? || a.WriteAnchor?
    requires HasTask(s, a.t)
    requires a.WriteObject? || a.WriteManifest? ==> s.tasks[a.t].phase.Writing?
    requires a.WriteAnchor? ==> s.tasks[a.t].phase.AnchorWriting?
    ensures MayWrite(cfg, s, a)
  {
    var slot := Target(s, a).value;
    assert Pending(s.tasks[a.t], slot.n) && !Claims(s.tasks[a.t], slot);
    assert Free(s, slot);
  }

  // ---------- the steps, one by one ----------

  /** The state after a call arrived with its segments. */
  function Arrived(s: Service, h: Accumulation.History): Service {
    s.(history := h, tasks := s.tasks + [Task(|s.history.emitted|, |s.history.emitted|, |h.emitted|, Idle)])
  }

  lemma ArrivedTasks(s: Service, h: Accumulation.History, t: nat)
    requires t < |s.tasks| + 1
    ensures Arrived(s, h).tasks[t]
      == if t < |s.tasks| then s.tasks[t] else Task(|s.history.emitted|, |s.history.emitted|, |h.emitted|, Idle)
  {
  }

  lemma ArrivedStore(cfg: Config, s: Service, sealed: seq<SealReady>, h: Accumulation.History)
    requires StoreHolds(cfg, s) && h.emitted == s.history.emitted + sealed
    ensures StoreHolds(cfg, Arrived(s, h))
  {
    var next := Arrived(s, h);
    forall slot | Free(next, slot) ensures SlotKey(cfg.db, slot) !in s.store {
      if slot.n < |h.emitted| {
        var t :| 0 <= t < |next.tasks| && Pending(next.tasks[t], slot.n) && !Claims(next.tasks[t], slot);
        ArrivedTasks(s, h, t);
        assert t < |s.tasks| ==> Pending(s.tasks[t], slot.n) && !Claims(s.tasks[t], slot);
      }
      assert Free(s, slot);
    }
  }

  lemma ArrivedPhases(cfg: Config, s: Service, sealed: seq<SealReady>, h: Accumulation.History)
    requires h.emitted == s.history.emitted + sealed && forall t | 0 <= t < |s.tasks| :: PhaseHolds(cfg, s, s.tasks[t])
    ensures forall t | 0 <= t < |s.tasks| + 1 :: PhaseHolds(cfg, Arrived(s, h), Arrived(s, h).tasks[t])
  {
    forall t | 0 <= t < |s.tasks| + 1 ensures PhaseHolds(cfg, Arrived(s, h), Arrived(s, h).tasks[t]) {
      ArrivedTasks(s, h, t);
      assert t < |s.tasks| ==> PhaseHolds(cfg, s, s.tasks[t]);
    }
  }

  lemma ArrivedLog(s: Service, sealed: seq<SealReady>, h: Accumulation.History)
    requires LogHolds(s) && FailedHolds(s) && Disjoint(s.tasks, |s.history.emitted|)
    requires h.emitted == s.history.emitted + sealed
    ensures var next := Arrived(s, h); LogHolds(next) && FailedHolds(next) && Disjoint(next.tasks, |h.emitted|)
  {
    var next := Arrived(s, h);
    assert forall t | 0 <= t < |s.tasks| :: next.tasks[t] == s.tasks[t];
  }

  lemma ReceiveKeeps(cfg: Config, s: Service, sealed: seq<SealReady>, h: Accumulation.History)
    requires Inv(cfg, s) && h.emitted == s.history.emitted + sealed && NumberedSegments(h.emitted)
    ensures Inv(cfg, Arrived(s, h))
  {
    ArrivedStore(cfg, s, sealed, h);
    ArrivedPhases(cfg, s, sealed, h);
    ArrivedLog(s, sealed, h);
  }

  /** The other tasks are not past the checks, so nothing they rely on can change under them. */
  lemma OthersHold(cfg: Config, s: Service, t: nat, next: Service)
    requires Lawful(cfg.passes) && Inv(cfg, s) && t < |s.tasks| && Active(s.tasks[t])
    requires |next.tasks| == |s.tasks| && forall u | 0 <= u < |s.tasks| && u != t :: next.tasks[u] == s.tasks[u]
    ensures forall u | 0 <= u < |s.tasks| && u != t :: PhaseHolds(cfg, next, next.tasks[u])
  {
    forall u | 0 <= u < |s.tasks| && u != t ensures PhaseHolds(cfg, next, next.tasks[u]) {
      if Active(s.tasks[u]) {
        OneActive(cfg, s, t, u);
      }
    }
  }

  lemma StartKeeps(cfg: Config, s: Service, t: nat, at: string, plan: Plan)
    requires Lawful(cfg.passes) && Inv(cfg, s) && HasTask(s, t) && s.tasks[t].phase == Idle
    requires cfg.passes(s.history.emitted[s.tasks[t].next], s.previous, at, plan)
    ensures Inv(cfg, SetTask(s, t, s.tasks[t].(phase := Writing(plan, at, 0))))
  {
    var n, later := s.tasks[t].next, s.tasks[t].(phase := Writing(plan, at, 0));
    var next := SetTask(s, t, later);
    assert Pending(s.tasks[t], n);
    PassingNumber(cfg, s, s.history.emitted[n], at, plan);
    assert n >= |s.log| && Settled(s);
    DisjointUpdate(s.tasks, |s.history.emitted|, t, later);
    StoreKeeps(cfg, s, t, later);
    forall u | 0 <= u < |next.tasks| ensures PhaseHolds(cfg, next, next.tasks[u]) {
      assert u != t ==> PhaseHolds(cfg, s, s.tasks[u]);
    }
    FailedStays(s, next, t);
  }

  /** A task that only moves on makes nothing pending again. */
  lemma FailedStays(s: Service, next: Service, t: nat)
    requires FailedHolds(s) && t < |s.tasks| && next.failed == s.failed && next.log == s.log && next.history == s.history
    requires |next.tasks| == |s.tasks| && forall u | 0 <= u < |s.tasks| && u != t :: next.tasks[u] == s.tasks[u]
    requires next.tasks[t].end == s.tasks[t].end && next.tasks[t].next >= s.tasks[t].next
    ensures FailedHolds(next)
  {
    forall f, u | f in next.failed && 0 <= u < |next.tasks| ensures !Pending(next.tasks[u], f) {
      assert !Pending(s.tasks[u], f);
    }
  }

  lemma FailKeeps(cfg: Config, s: Service, t: nat, threw: bool)
    requires Lawful(cfg.passes) && Inv(cfg, s) && HasTask(s, t)
    requires s.tasks[t].phase.Idle? || s.tasks[t].phase.Writing?
    ensures Inv(cfg, Fail(s, t, threw))
  {
    var n, next := s.tasks[t].next, Fail(s, t, threw);
    assert Pending(s.tasks[t], n) && PhaseHolds(cfg, s, s.tasks[t]);
    DisjointUpdate(s.tasks, |s.history.emitted|, t, next.tasks[t]);
    StoreKeeps(cfg, s, t, next.tasks[t]);
    forall u | 0 <= u < |next.tasks| ensures PhaseHolds(cfg, next, next.tasks[u]) {
      assert u != t ==> PhaseHolds(cfg, s, s.tasks[u]);
    }
    forall f, u | f in next.failed && 0 <= u < |next.tasks| ensures !Pending(next.tasks[u], f) {
      if f == n && Pending(s.tasks[u], n) {
        PendingOnce(s.tasks, |s.history.emitted|, t, u, n);
      }
      assert f in s.failed ==> !Pending(s.tasks[u], f);
    }
  }

  /** One object further: the writing task holds on, and so do the others. */
  lemma WritersHold(cfg: Config, s: Service, t: nat, next: Service)
    requires Lawful(cfg.passes) && Inv(cfg, s) && HasTask(s, t) && s.tasks[t].phase.Writing?
    requires s.tasks[t].phase.done < |s.tasks[t].phase.plan.chained.objects|
    requires next.history == s.history && next.log == s.log && next.previous == s.previous
    requires next.tasks == s.tasks[t := s.tasks[t].(phase := s.tasks[t].phase.(done := s.tasks[t].phase.done + 1))]
    ensures Settled(next) && forall u | 0 <= u < |next.tasks| :: PhaseHolds(cfg, next, next.tasks[u])
  {
    assert PhaseHolds(cfg, s, s.tasks[t]);
    OthersHold(cfg, s, t, next);
    assert PhaseHolds(cfg, next, next.tasks[t]);
  }

  lemma WriteObjectKeeps(cfg: Config, s: Service, t: nat)
    requires Lawful(cfg.passes) && Inv(cfg, s) && HasTask(s, t) && s.tasks[t].phase.Writing?
    requires s.tasks[t].phase.done < |s.tasks[t].phase.plan.chained.objects|
    ensures var task := s.tasks[t];
      var later := task.(phase := task.phase.(done := task.phase.done + 1));
      Inv(cfg, Stored(cfg, SetTask(s, t, later), ObjectSlot(task.next, task.phase.done)))
  {
    var task := s.tasks[t];
    var later := task.(phase := task.phase.(done := task.phase.done + 1));
    var next := Stored(cfg, SetTask(s, t, later), ObjectSlot(task.next, task.phase.done));
    DisjointUpdate(s.tasks, |s.history.emitted|, t, later);
    StoreAdds(cfg, s, t, later, ObjectSlot(task.next, task.phase.done));
    WritersHold(cfg, s, t, next);
    FailedStays(s, next, t);
    LogStays(s, next, t);
  }

  lemma LogStays(s: Service, next: Service, t: nat)
    requires LogHolds(s) && t < |s.tasks| && next.log == s.log && next.history == s.history
    requires |next.tasks| == |s.tasks| && forall u | 0 <= u < |s.tasks| && u != t :: next.tasks[u] == s.tasks[u]
    requires s.tasks[t].phase.Writing? && next.tasks[t].next == s.tasks[t].next && next.tasks[t].end == s.tasks[t].end
    ensures LogHolds(next)
  {
    forall u, n | 0 <= u < |next.tasks| && 0 <= n < |next.log| && Pending(next.tasks[u], n)
      ensures (next.tasks[u].phase.Attesting? || next.tasks[u].phase.AnchorWriting?) && n == next.tasks[u].next
    {
      assert Pending(s.tasks[u], n);
    }
  }

  /** The state once the manifest of the segment under way is written. */
  function AfterSeal(cfg: Config, s: Service, t: nat): Service
    requires t < |s.tasks| && s.tasks[t].next < |s.history.emitted| && s.tasks[t].phase.Writing?
  {
    var task := s.tasks[t];
    var sealed := Sealed(s.history.emitted[task.next], task.phase.at, task.phase.plan);
    Stored(cfg, SetTask(s, t, task.(phase := Attesting(task.phase.plan))), ManifestSlot(task.next)).(log := s.log + [sealed])
  }

  lemma SealStores(cfg: Config, s: Service, t: nat)
    requires Inv(cfg, s) && HasTask(s, t) && s.tasks[t].phase.Writing?
    ensures StoreHolds(cfg, AfterSeal(cfg, s, t))
  {
    var task := s.tasks[t];
    StoreAdds(cfg, s, t, task.(phase := Attesting(task.phase.plan)), ManifestSlot(task.next));
    SameFree(cfg, Stored(cfg, SetTask(s, t, task.(phase := Attesting(task.phase.plan))), ManifestSlot(task.next)), AfterSeal(cfg, s, t));
  }

  /** What is free depends on the tasks and the emitted segments only. */
  lemma SameFree(cfg: Config, a: Service, b: Service)
    requires StoreHolds(cfg, a) && b.tasks == a.tasks && b.history == a.history && b.store == a.store
    ensures StoreHolds(cfg, b)
  {
    forall slot | Free(b, slot) ensures SlotKey(cfg.db, slot) !in b.store {
      assert Free(a, slot);
    }
  }

  lemma SealExtendsLog(cfg: Config, s: Service, t: nat)
    requires Lawful(cfg.passes) && Inv(cfg, s) && HasTask(s, t) && s.tasks[t].phase.Writing?
    ensures var next := AfterSeal(cfg, s, t); SealedBy(cfg, next.log) && Lagging(next) && LogHolds(next)
    ensures var next := AfterSeal(cfg, s, t); s.tasks[t].next == |s.log| && FailedHolds(next)
  {
    var task, next := s.tasks[t], AfterSeal(cfg, s, t);
    assert PhaseHolds(cfg, s, task) && Pending(task, task.next);
    LogGrows(cfg, s, next, task.next);
    SealedIsDealtWith(cfg, s, t, next.tasks[t], next.tasks, next.log);
    forall f, u | f in next.failed && 0 <= u < |next.tasks| ensures !Pending(next.tasks[u], f) && f != task.next {
      assert !Pending(s.tasks[u], f) && !Pending(s.tasks[t], f);
    }
  }

  lemma SealKeeps(cfg: Config, s: Service, t: nat)
    requires Lawful(cfg.passes) && Inv(cfg, s) && HasTask(s, t) && s.tasks[t].phase.Writing?
    ensures Inv(cfg, AfterSeal(cfg, s, t))
  {
    var task, next := s.tasks[t], AfterSeal(cfg, s, t);
    DisjointUpdate(s.tasks, |s.history.emitted|, t, next.tasks[t]);
    SealStores(cfg, s, t);
    SealExtendsLog(cfg, s, t);
    OthersHold(cfg, s, t, next);
    assert PhaseHolds(cfg, next, next.tasks[t]);
  }

  /** After sealing, the new segment is pending for the task that sealed it and no other. */
  lemma SealedIsDealtWith(cfg: Config, s: Service, t: nat, later: Task, tasks: seq<Task>, log: seq<Sealed>)
    requires Lawful(cfg.passes) && Inv(cfg, s) && HasTask(s, t) && s.tasks[t].phase.Writing?
    requires later == s.tasks[t].(phase := Attesting(s.tasks[t].phase.plan)) && s.tasks[t].next == |s.log|
    requires tasks == s.tasks[t := later] && |log| == |s.log| + 1
    ensures forall u, n | 0 <= u < |tasks| && 0 <= n < |log| && Pending(tasks[u], n) ::
      tasks[u].phase.Attesting? && n == tasks[u].next
  {
    forall u, n | 0 <= u < |tasks| && 0 <= n < |log| && Pending(tasks[u], n)
      ensures u == t && n == later.next
    {
      if n == later.next && Pending(s.tasks[u], n) {
        PendingOnce(s.tasks, |s.history.emitted|, t, u, n);
      }
      if Active(s.tasks[u]) {
        OneActive(cfg, s, t, u);
      }
    }
  }

  lemma LogGrows(cfg: Config, s: Service, next: Service, n: nat)
    requires SealedBy(cfg, s.log) && n == |s.log| && Settled(s)
    requires |next.log| == n + 1 && next.log[..n] == s.log && next.previous == s.previous
    requires cfg.passes(next.log[n].seg, s.previous, next.log[n].at, next.log[n].plan)
    ensures SealedBy(cfg, next.log) && Lagging(next)
  {
    assert forall i | 0 <= i < n :: next.log[i] == s.log[i];
    forall i {:trigger PassedAt(cfg, next.log, i)} | 0 <= i <= n ensures PassedAt(cfg, next.log, i) {
      assert i < n ==> PassedAt(cfg, s.log, i);
    }
  }

  lemma FinishKeeps(cfg: Config, s: Service, t: nat, plan: Plan)
    requires Lawful(cfg.passes) && Inv(cfg, s) && HasTask(s, t)
    requires (s.tasks[t].phase.Attesting? || s.tasks[t].phase.AnchorWriting?) && s.tasks[t].phase.plan == plan
    ensures Inv(cfg, Finish(s, t, plan))
  {
    var next := Finish(s, t, plan);
    assert PhaseHolds(cfg, s, s.tasks[t]);
    MovedOn(cfg, s, t, next);
    assert Settled(next);
  }

  /** The sealed segment under way is left behind, with or without its anchor. */
  lemma MovedOn(cfg: Config, s: Service, t: nat, next: Service)
    requires Lawful(cfg.passes) && Inv(cfg, s) && HasTask(s, t)
    requires s.tasks[t].phase.Attesting? || s.tasks[t].phase.AnchorWriting?
    requires next.history == s.history && next.log == s.log && next.failed == s.failed && next.store == s.store
    requires |next.tasks| == |s.tasks| && forall u | 0 <= u < |s.tasks| && u != t :: next.tasks[u] == s.tasks[u]
    requires next.tasks[t] == s.tasks[t].(next := s.tasks[t].next + 1, phase := Idle)
      || next.tasks[t] == s.tasks[t].(next := s.tasks[t].next + 1, phase := Broken)
    ensures Disjoint(next.tasks, |next.history.emitted|) && LogHolds(next) && FailedHolds(next) && StoreHolds(cfg, next)
    ensures forall u | 0 <= u < |next.tasks| :: PhaseHolds(cfg, next, next.tasks[u])
  {
    assert next.tasks == s.tasks[t := next.tasks[t]];
    DisjointUpdate(s.tasks, |s.history.emitted|, t, next.tasks[t]);
    StoreKeeps(cfg, s, t, next.tasks[t]);
    assert forall slot :: Free(next, slot) <==> Free(SetTask(s, t, next.tasks[t]), slot);
    OthersHold(cfg, s, t, next);
    FailedStays(s, next, t);
    assert PhaseHolds(cfg, s, s.tasks[t]);
  }

  lemma BreakKeeps(cfg: Config, s: Service, t: nat)
    requires Lawful(cfg.passes) && Inv(cfg, s) && HasTask(s, t)
    requires s.tasks[t].phase.Attesting? || s.tasks[t].phase.AnchorWriting?
    ensures Inv(cfg, SetTask(s, t, s.tasks[t].(next := s.tasks[t].next + 1, phase := Broken)))
  {
    MovedOn(cfg, s, t, SetTask(s, t, s.tasks[t].(next := s.tasks[t].next + 1, phase := Broken)));
  }

  lemma TokenKeeps(cfg: Config, s: Service, t: nat)
    requires Lawful(cfg.passes) && Inv(cfg, s) && HasTask(s, t) && s.tasks[t].phase.Attesting?
    ensures Inv(cfg, SetTask(s, t, s.tasks[t].(phase := AnchorWriting(s.tasks[t].phase.plan))))
  {
    var later := s.tasks[t].(phase := AnchorWriting(s.tasks[t].phase.plan));
    var next := SetTask(s, t, later);
    assert PhaseHolds(cfg, s, s.tasks[t]);
    DisjointUpdate(s.tasks, |s.history.emitted|, t, later);
    StoreKeeps(cfg, s, t, later);
    OthersHold(cfg, s, t, next);
    FailedStays(s, next, t);
  }

  /** Nothing but the store tells these states apart. */
  lemma StoreApart(cfg: Config, s: Service, store: set<string>)
    requires Inv(cfg, s) && StoreHolds(cfg, s.(store := store))
    ensures Inv(cfg, s.(store := store))
  {
    var next := s.(store := store);
    forall u | 0 <= u < |next.tasks| ensures PhaseHolds(cfg, next, next.tasks[u]) {
      assert PhaseHolds(cfg, s, s.tasks[u]);
    }
  }

  lemma AnchorStores(cfg: Config, s: Service, t: nat)
    requires Lawful(cfg.passes) && Inv(cfg, s) && HasTask(s, t) && s.tasks[t].phase.AnchorWriting?
    ensures StoreHolds(cfg, Stored(cfg, Finish(s, t, s.tasks[t].phase.plan), AnchorSlot(s.tasks[t].next)))
  {
    var slot, after := AnchorSlot(s.tasks[t].next), Finish(s, t, s.tasks[t].phase.plan);
    StoreAdds(cfg, s, t, after.tasks[t], slot);
    SameFree(cfg, Stored(cfg, SetTask(s, t, after.tasks[t]), slot), Stored(cfg, after, slot));
  }

  lemma AnchorKeeps(cfg: Config, s: Service, t: nat)
    requires Lawful(cfg.passes) && Inv(cfg, s) && HasTask(s, t) && s.tasks[t].phase.AnchorWriting?
    ensures Inv(cfg, Stored(cfg, Finish(s, t, s.tasks[t].phase.plan), AnchorSlot(s.tasks[t].next)))
  {
    var after := Finish(s, t, s.tasks[t].phase.plan);
    FinishKeeps(cfg, s, t, s.tasks[t].phase.plan);
    AnchorStores(cfg, s, t);
    StoreApart(cfg, after, Stored(cfg, after, AnchorSlot(s.tasks[t].next)).store);
  }

  // ---------- every run ----------

  lemma FedKeeps(cfg: Config, h: Accumulation.History, e: Accumulation.Event)
    requires Fed(cfg, h) && cfg.caps.maxEvents >= 1
    requires e.Add? && Accumulation.Admit(e.c).Ok? ==> DbId(e.c) == Some(cfg.db)
    ensures var next := Accumulation.Next(cfg.hex, cfg.caps, h, e);
      Fed(cfg, next) && NumberedSegments(next.emitted)
  {
    var next := Accumulation.Next(cfg.hex, cfg.caps, h, e);
    Accumulation.NextBalances(cfg.hex, cfg.caps, h, e);
    AccumulatorRuns.OneDatabaseLosesNothing(cfg.hex, cfg.caps, h, e, cfg.db);
    AccumulatorRuns.OneDatabaseIsNumbered(cfg.hex, cfg.caps, next, cfg.db);
  }

  /** What this call gets to seal; nothing when the accumulator threw. */
  function Handed(cfg: Config, h: Accumulation.History, e: Accumulation.Event): seq<SealReady> {
    var step := Accumulation.Apply(cfg.hex, cfg.caps, h.state, e);
    if step.threw then [] else step.closed
  }

  lemma ReceiveStep(cfg: Config, s: Service, e: Accumulation.Event)
    requires cfg.caps.maxEvents >= 1 && Fed(cfg, s.history) && Inv(cfg, s) && Enabled(cfg, s, Receive(e))
    ensures Fed(cfg, Do(cfg, s, Receive(e)).history) && Inv(cfg, Do(cfg, s, Receive(e)))
  {
    FedKeeps(cfg, s.history, e);
    ReceiveKeeps(cfg, s, Handed(cfg, s.history, e), Accumulation.Next(cfg.hex, cfg.caps, s.history, e));
  }

  lemma WriteObjectStep(cfg: Config, s: Service, a: Action)
    requires Lawful(cfg.passes) && Inv(cfg, s) && Enabled(cfg, s, a) && a.WriteObject?
    ensures Inv(cfg, Do(cfg, s, a)) && Do(cfg, s, a).history == s.history
  {
    if a.ok {
      WriteObjectKeeps(cfg, s, a.t);
    } else {
      ObjectFails(cfg, s, a);
    }
  }

  lemma ObjectFails(cfg: Config, s: Service, a: Action)
    requires Lawful(cfg.passes) && Inv(cfg, s) && Enabled(cfg, s, a) && a.WriteObject? && !a.ok
    ensures Inv(cfg, Do(cfg, s, a)) && Do(cfg, s, a).history == s.history
  {
    FailKeeps(cfg, s, a.t, a.threw);
  }

  lemma WriteManifestStep(cfg: Config, s: Service, a: Action)
    requires Lawful(cfg.passes) && Inv(cfg, s) && Enabled(cfg, s, a) && a.WriteManifest?
    ensures Inv(cfg, Do(cfg, s, a)) && Do(cfg, s, a).history == s.history
  {
    if a.ok {
      SealKeeps(cfg, s, a.t);
    } else {
      FailKeeps(cfg, s, a.t, false);
    }
  }

  lemma WriteAnchorStep(cfg: Config, s: Service, a: Action)
    requires Lawful(cfg.passes) && Inv(cfg, s) && Enabled(cfg, s, a) && a.WriteAnchor?
    ensures Inv(cfg, Do(cfg, s, a)) && Do(cfg, s, a).history == s.history
  {
    if a.ok {
      AnchorKeeps(cfg, s, a.t);
    } else {
      BreakKeeps(cfg, s, a.t);
    }
  }

  lemma AttestStep(cfg: Config, s: Service, t: nat, outcome: Attested)
    requires Lawful(cfg.passes) && Inv(cfg, s) && Enabled(cfg, s, Attest(t, outcome))
    ensures Inv(cfg, Do(cfg, s, Attest(t, outcome))) && Do(cfg, s, Attest(t, outcome)).history == s.history
  {
    if outcome.NoToken? {
      FinishKeeps(cfg, s, t, s.tasks[t].phase.plan);
    } else if outcome.Token? {
      TokenKeeps(cfg, s, t);
    } else {
      BreakKeeps(cfg, s, t);
    }
  }

  lemma StartStep(cfg: Config, s: Service, a: Action)
    requires Lawful(cfg.passes) && Inv(cfg, s) && Enabled(cfg, s, a) && a.Start?
    ensures Inv(cfg, Do(cfg, s, a)) && Do(cfg, s, a).history == s.history
  {
    if a.plan.Some? {
      StartKeeps(cfg, s, a.t, a.at, a.plan.value);
    } else {
      FailKeeps(cfg, s, a.t, a.threw);
    }
  }

  lemma StepKeeps(cfg: Config, s: Service, a: Action)
    requires Lawful(cfg.passes) && cfg.caps.maxEvents >= 1 && Fed(cfg, s.history) && Inv(cfg, s) && Enabled(cfg, s, a)
    ensures Fed(cfg, Do(cfg, s, a).history) && Inv(cfg, Do(cfg, s, a))
  {
    match a
    case Receive(e) => ReceiveStep(cfg, s, e);
    case Start(_, _, _, _) => StartStep(cfg, s, a);
    case Attest(t, outcome) => AttestStep(cfg, s, t, outcome);
    case WriteObject(_, _, _) => WriteObjectStep(cfg, s, a);
    case WriteManifest(_, _) => WriteManifestStep(cfg, s, a);
    case WriteAnchor(_, _) => WriteAnchorStep(cfg, s, a);
  }

  lemma {:induction false} EveryRunHolds(cfg: Config, actions: seq<Action>)
    requires Lawful(cfg.passes) && cfg.caps.maxEvents >= 1 && Reach(cfg, actions).Some?
    ensures Fed(cfg, Reach(cfg, actions).value.history) && Inv(cfg, Reach(cfg, actions).value)
  {
    if actions != [] {
      EveryRunHolds(cfg, actions[..|actions| - 1]);
      StepKeeps(cfg, Reach(cfg, actions[..|actions| - 1]).value, actions[|actions| - 1]);
    }
  }

  /**
   Under every interleaving: the sealed segments are numbered 0, 1, 2, ..., each sealed against
   the one before, and every segment that failed to seal comes after all that are sealed.
   */
  lemma RunsAreFailClosed(cfg: Config, actions: seq<Action>)
    requires Lawful(cfg.passes) && cfg.caps.maxEvents >= 1 && Reach(cfg, actions).Some?
    ensures var s := Reach(cfg, actions).value;
      && SealedBy(cfg, s.log) && |s.log| <= |s.history.emitted|
      && (forall i | 0 <= i < |s.log| :: s.log[i].seg.segmentSequence == i && s.log[i].seg == s.history.emitted[i])
      && forall f, i | f in s.failed && 0 <= i < |s.log| :: s.log[i].seg.segmentSequence < f
  {
    EveryRunHolds(cfg, actions);
    var s := Reach(cfg, actions).value;
    forall i | 0 <= i < |s.log| ensures s.log[i].seg.segmentSequence == i {
      LogNumbers(cfg, s.log, i);
    }
  }

  lemma StepOnlyAdds(cfg: Config, s: Service, a: Action)
    requires Enabled(cfg, s, a)
    ensures s.failed <= Do(cfg, s, a).failed && s.log <= Do(cfg, s, a).log
  {
  }

  /** A failure is never forgotten and a sealed segment never withdrawn. */
  lemma {:induction false} FailuresAndSealsStay(cfg: Config, actions: seq<Action>, more: seq<Action>)
    requires Reach(cfg, actions + more).Some?
    ensures Reach(cfg, actions).Some?
    ensures Reach(cfg, actions).value.failed <= Reach(cfg, actions + more).value.failed
    ensures Reach(cfg, actions).value.log <= Reach(cfg, actions + more).value.log
  {
    if more == [] {
      assert actions + more == actions;
    } else {
      var all := actions + more;
      assert all[..|all| - 1] == actions + more[..|more| - 1];
      FailuresAndSealsStay(cfg, actions, more[..|more| - 1]);
      StepOnlyAdds(cfg, Reach(cfg, all[..|all| - 1]).value, all[|all| - 1]);
    }
  }

  /** Once a segment has failed to seal, no later segment is sealed in any continuation of the run. */
  lemma FailureIsFinal(cfg: Config, actions: seq<Action>, more: seq<Action>, f: nat)
    requires Lawful(cfg.passes) && cfg.caps.maxEvents >= 1 && Reach(cfg, actions + more).Some?
    requires Reach(cfg, actions).Some? && f in Reach(cfg, actions).value.failed
    ensures forall i | 0 <= i < |Reach(cfg, actions + more).value.log| ::
      Reach(cfg, actions + more).value.log[i].seg.segmentSequence < f
  {
    FailuresAndSealsStay(cfg, actions, more);
    RunsAreFailClosed(cfg, actions + more);
  }

  /** Is this step a write to the store? */
  ghost predicate Writes(s: Service, a: Action) {
    match a
    case WriteObject(t, ok, threw) => HasTask(s, t) && s.tasks[t].phase.Writing?
    case WriteManifest(t, ok) => HasTask(s, t) && s.tasks[t].phase.Writing?
    case WriteAnchor(t, ok) => HasTask(s, t) && s.tasks[t].phase.AnchorWriting?
    case _ => false
  }

  /** No write of any run is ever refused because its key exists. */
  lemma KeysAreAlwaysNew(cfg: Config, actions: seq<Action>, a: Action)
    requires Lawful(cfg.passes) && cfg.caps.maxEvents >= 1 && Reach(cfg, actions).Some?
    requires Writes(Reach(cfg, actions).value, a)
    ensures MayWrite(cfg, Reach(cfg, actions).value, a)
  {
    EveryRunHolds(cfg, actions);
    TargetIsFree(cfg, Reach(cfg, actions).value, a);
  }
}

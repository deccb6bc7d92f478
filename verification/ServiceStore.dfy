/**
 What the service has stored: every step writes exactly the key it is about to write, and the objects
 and the manifest of every sealed segment are in the store.
 */
module ServiceStore {
  import opened SealPlans
  import opened StoreKeys
  import opened Service

  /** The step's write, if it makes one, succeeded. */
  predicate Wrote(a: Action) {
    match a
    case WriteObject(_, ok, _) => ok
    case WriteManifest(_, ok) => ok
    case WriteAnchor(_, ok) => ok
    case _ => false
  }

  /** A step adds to the store the key it was about to write, which was not there, or nothing. */
  lemma StepWritesItsTarget(cfg: Config, s: Service, a: Action)
    requires Enabled(cfg, s, a)
    ensures Wrote(a) ==> Target(s, a).Some? && SlotKey(cfg.db, Target(s, a).value) !in s.store
    ensures Do(cfg, s, a).store == if Wrote(a) then s.store + {SlotKey(cfg.db, Target(s, a).value)} else s.store
  {
  }

  /** The first objects of segment n are in the store. */
  ghost predicate ObjectsStored(cfg: Config, store: set<string>, n: nat, count: nat) {
    forall i: nat | i < count :: SlotKey(cfg.db, ObjectSlot(n, i)) in store
  }

  ghost predicate SegmentStored(cfg: Config, store: set<string>, n: nat, sealed: Sealed) {
    ObjectsStored(cfg, store, n, |sealed.plan.chained.objects|) && SlotKey(cfg.db, ManifestSlot(n)) in store
  }

  ghost predicate LogStored(cfg: Config, s: Service) {
    forall n: nat | n < |s.log| :: SegmentStored(cfg, s.store, n, s.log[n])
  }

  ghost predicate TaskStored(cfg: Config, s: Service, task: Task) {
    task.phase.Writing? ==> ObjectsStored(cfg, s.store, task.next, task.phase.done)
  }

  ghost predicate TasksStored(cfg: Config, s: Service) {
    forall t | 0 <= t < |s.tasks| :: TaskStored(cfg, s, s.tasks[t])
  }

  lemma LogStaysStored(cfg: Config, s: Service, next: Service)
    requires LogStored(cfg, s) && s.store <= next.store && next.log == s.log
    ensures LogStored(cfg, next)
  {
    forall n: nat | n < |next.log| ensures SegmentStored(cfg, next.store, n, next.log[n]) {
      assert SegmentStored(cfg, s.store, n, s.log[n]);
    }
  }

  lemma TaskStaysStored(cfg: Config, s: Service, next: Service, task: Task)
    requires TaskStored(cfg, s, task) && s.store <= next.store
    ensures TaskStored(cfg, next, task)
  {
  }

  /** One task steps, or one is added that writes nothing yet. */
  lemma TasksStayStored(cfg: Config, s: Service, next: Service, t: nat)
    requires TasksStored(cfg, s) && s.store <= next.store && |s.tasks| <= |next.tasks|
    requires forall u | 0 <= u < |s.tasks| && u != t :: next.tasks[u] == s.tasks[u]
    requires forall u | |s.tasks| <= u < |next.tasks| && u != t :: !next.tasks[u].phase.Writing?
    requires t < |next.tasks| ==> TaskStored(cfg, next, next.tasks[t])
    ensures TasksStored(cfg, next)
  {
    forall u | 0 <= u < |next.tasks| ensures TaskStored(cfg, next, next.tasks[u]) {
      if u < |s.tasks| && u != t {
        TaskStaysStored(cfg, s, next, s.tasks[u]);
      }
    }
  }

  lemma ObjectIsStored(cfg: Config, s: Service, a: Action)
    requires Enabled(cfg, s, a) && a.WriteObject? && a.ok && TasksStored(cfg, s)
    ensures TaskStored(cfg, Do(cfg, s, a), Do(cfg, s, a).tasks[a.t])
  {
    var task := s.tasks[a.t];
    assert TaskStored(cfg, s, task);
  }

  lemma ManifestIsStored(cfg: Config, s: Service, a: Action)
    requires Enabled(cfg, s, a) && a.WriteManifest? && a.ok && TasksStored(cfg, s) && LogStored(cfg, s) && Inv(cfg, s)
    ensures LogStored(cfg, Do(cfg, s, a))
  {
    var task, next := s.tasks[a.t], Do(cfg, s, a);
    assert TaskStored(cfg, s, task) && PhaseHolds(cfg, s, task);
    forall n: nat | n < |next.log| ensures SegmentStored(cfg, next.store, n, next.log[n]) {
      if n < |s.log| {
        assert SegmentStored(cfg, s.store, n, s.log[n]);
      }
    }
  }

  /** The task that steps, or the place of the one that is added. */
  function Stepping(s: Service, a: Action): nat {
    match a
    case Receive(_) => |s.tasks|
    case Start(t, _, _, _) => t
    case WriteObject(t, _, _) => t
    case WriteManifest(t, _) => t
    case Attest(t, _) => t
    case WriteAnchor(t, _) => t
  }

  lemma OnlyOneSteps(cfg: Config, s: Service, a: Action)
    requires Enabled(cfg, s, a)
    ensures var next, t := Do(cfg, s, a), Stepping(s, a);
      && |s.tasks| <= |next.tasks| && t < |next.tasks| && (|next.tasks| > |s.tasks| ==> |next.tasks| == |s.tasks| + 1 && t == |s.tasks|)
      && forall u | 0 <= u < |s.tasks| && u != t :: next.tasks[u] == s.tasks[u]
  {
  }

  lemma SteppingIsStored(cfg: Config, s: Service, a: Action)
    requires Enabled(cfg, s, a) && TasksStored(cfg, s)
    ensures Stepping(s, a) < |Do(cfg, s, a).tasks| && TaskStored(cfg, Do(cfg, s, a), Do(cfg, s, a).tasks[Stepping(s, a)])
  {
    OnlyOneSteps(cfg, s, a);
    if a.WriteObject? && a.ok {
      ObjectIsStored(cfg, s, a);
    }
  }

  lemma LogStaysUnlessSealed(cfg: Config, s: Service, a: Action)
    requires Enabled(cfg, s, a) && !(a.WriteManifest? && a.ok)
    ensures Do(cfg, s, a).log == s.log
  {
  }

  lemma StepKeepsStored(cfg: Config, s: Service, a: Action)
    requires Enabled(cfg, s, a) && Inv(cfg, s) && LogStored(cfg, s) && TasksStored(cfg, s)
    ensures LogStored(cfg, Do(cfg, s, a)) && TasksStored(cfg, Do(cfg, s, a))
  {
    StepWritesItsTarget(cfg, s, a);
    if a.WriteManifest? && a.ok {
      ManifestIsStored(cfg, s, a);
    } else {
      LogStaysUnlessSealed(cfg, s, a);
      LogStaysStored(cfg, s, Do(cfg, s, a));
    }
    OnlyOneSteps(cfg, s, a);
    SteppingIsStored(cfg, s, a);
    TasksStayStored(cfg, s, Do(cfg, s, a), Stepping(s, a));
  }

  /**
   In every interleaved run: of every sealed segment all objects and the manifest are in the store, each
   under its key.
   */
  lemma {:induction false} SealedIsStored(cfg: Config, actions: seq<Action>)
    requires Lawful(cfg.passes) && cfg.caps.maxEvents >= 1 && Reach(cfg, actions).Some?
    ensures LogStored(cfg, Reach(cfg, actions).value) && TasksStored(cfg, Reach(cfg, actions).value)
  {
    if actions != [] {
      var most := actions[..|actions| - 1];
      SealedIsStored(cfg, most);
      EveryRunHolds(cfg, most);
      StepKeepsStored(cfg, Reach(cfg, most).value, actions[|actions| - 1]);
    }
  }

  // ---------- nothing handed over is forgotten ----------

  predicate Owns(tasks: seq<Task>, t: nat, k: nat) {
    t < |tasks| && tasks[t].start <= k < tasks[t].end
  }

  ghost predicate Owned(tasks: seq<Task>, k: nat) {
    exists t: nat :: Owns(tasks, t, k)
  }

  /** Every segment below n belongs to a task. */
  ghost predicate AllOwned(tasks: seq<Task>, n: nat) {
    forall k: nat | k < n :: Owned(tasks, k)
  }

  /** What the task has dealt with is sealed or failed. */
  ghost predicate DealtWith(s: Service, task: Task) {
    forall k: nat | task.start <= k < task.next :: k < |s.log| || k in s.failed
  }

  ghost predicate Accounted(s: Service) {
    AllOwned(s.tasks, |s.history.emitted|) && forall t | 0 <= t < |s.tasks| :: DealtWith(s, s.tasks[t])
  }

  lemma SteppingOwnsTheSame(cfg: Config, s: Service, a: Action)
    requires Enabled(cfg, s, a) && !a.Receive?
    ensures var next := Do(cfg, s, a);
      && next.history == s.history && |next.tasks| == |s.tasks|
      && forall u | 0 <= u < |s.tasks| :: next.tasks[u].start == s.tasks[u].start && next.tasks[u].end == s.tasks[u].end
  {
  }

  lemma OwnedStays(s: Service, next: Service)
    requires AllOwned(s.tasks, |s.history.emitted|) && next.history == s.history && |next.tasks| == |s.tasks|
    requires forall u | 0 <= u < |s.tasks| :: next.tasks[u].start == s.tasks[u].start && next.tasks[u].end == s.tasks[u].end
    ensures AllOwned(next.tasks, |next.history.emitted|)
  {
    forall k: nat | k < |next.history.emitted| ensures Owned(next.tasks, k) {
      assert Owned(s.tasks, k);
      var t: nat :| Owns(s.tasks, t, k);
      assert Owns(next.tasks, t, k);
    }
  }

  lemma ReceivedIsOwned(cfg: Config, s: Service, a: Action)
    requires a.Receive? && Enabled(cfg, s, a) && AllOwned(s.tasks, |s.history.emitted|)
    ensures AllOwned(Do(cfg, s, a).tasks, |Do(cfg, s, a).history.emitted|)
  {
    var next, n := Do(cfg, s, a), |s.history.emitted|;
    forall k: nat | k < |next.history.emitted| ensures Owned(next.tasks, k) {
      if k < n {
        assert Owned(s.tasks, k);
        var t: nat :| Owns(s.tasks, t, k);
        assert Owns(next.tasks, t, k);
      } else {
        assert Owns(next.tasks, |s.tasks|, k);
      }
    }
  }

  /** A task that goes on to its next segment has sealed or failed the one before. */
  lemma SteppingDeals(cfg: Config, s: Service, a: Action)
    requires Enabled(cfg, s, a) && Inv(cfg, s) && !a.Receive? && Stepping(s, a) < |s.tasks| && DealtWith(s, s.tasks[Stepping(s, a)])
    ensures var next := Do(cfg, s, a); |next.tasks| == |s.tasks| && DealtWith(next, next.tasks[Stepping(s, a)])
  {
    var t := Stepping(s, a);
    StepOnlyAdds(cfg, s, a);
    assert PhaseHolds(cfg, s, s.tasks[t]);
  }

  lemma OthersStayDealt(cfg: Config, s: Service, a: Action, task: Task)
    requires Enabled(cfg, s, a) && DealtWith(s, task)
    ensures DealtWith(Do(cfg, s, a), task)
  {
    StepOnlyAdds(cfg, s, a);
  }

  lemma StepAccounts(cfg: Config, s: Service, a: Action)
    requires Enabled(cfg, s, a) && Inv(cfg, s) && Accounted(s)
    ensures Accounted(Do(cfg, s, a))
  {
    var next, t := Do(cfg, s, a), Stepping(s, a);
    OnlyOneSteps(cfg, s, a);
    if a.Receive? {
      ReceivedIsOwned(cfg, s, a);
    } else {
      SteppingOwnsTheSame(cfg, s, a);
      OwnedStays(s, next);
      SteppingDeals(cfg, s, a);
    }
    forall u | 0 <= u < |next.tasks| ensures DealtWith(next, next.tasks[u]) {
      if u < |s.tasks| && u != t {
        OthersStayDealt(cfg, s, a, s.tasks[u]);
      }
    }
  }

  /**
   In every interleaved run: every segment the accumulator handed over belongs to a task, and what a task
   has dealt with is sealed or failed; no segment is skipped.
   */
  lemma {:induction false} NothingIsForgotten(cfg: Config, actions: seq<Action>)
    requires Lawful(cfg.passes) && cfg.caps.maxEvents >= 1 && Reach(cfg, actions).Some?
    ensures Accounted(Reach(cfg, actions).value)
  {
    if actions != [] {
      var most := actions[..|actions| - 1];
      NothingIsForgotten(cfg, most);
      EveryRunHolds(cfg, most);
      StepAccounts(cfg, Reach(cfg, most).value, actions[|actions| - 1]);
    }
  }
}

/**
 What ends sealing for good, and what does not: after an exception in anchoring the service never
 seals again, because its predecessor is recorded only afterwards; in every other state it can.
 */
module ServiceProgress {
  import opened Outcomes
  import opened SealPlans
  import opened Service

  // ---------- stuck for good ----------

  /** `#previous` misses the last sealed segment and no task is left that could record it. */
  ghost predicate Stuck(s: Service) {
    Lagging(s) && forall t | 0 <= t < |s.tasks| :: !Active(s.tasks[t])
  }

  /** Signing or anchoring throws, or the anchor record cannot be written. */
  predicate AnchoringThrows(a: Action) {
    (a.Attest? && a.outcome.Threw?) || (a.WriteAnchor? && !a.ok)
  }

  /** An exception in anchoring leaves the service stuck; what was sealed stays sealed. */
  lemma AnchoringThrowSticks(cfg: Config, s: Service, a: Action)
    requires Lawful(cfg.passes) && Inv(cfg, s) && Enabled(cfg, s, a) && AnchoringThrows(a)
    ensures Stuck(Do(cfg, s, a)) && Do(cfg, s, a).log == s.log
  {
    var next := Do(cfg, s, a);
    assert PhaseHolds(cfg, s, s.tasks[a.t]);
    forall u | 0 <= u < |next.tasks| ensures !Active(next.tasks[u]) {
      if u != a.t && Active(s.tasks[u]) {
        OneActive(cfg, s, a.t, u);
      }
    }
  }

  /** No idle task can start on a segment that passes while the predecessor is out of date. */
  lemma NothingPassesWhenLagging(cfg: Config, s: Service, t: nat, at: string, plan: Plan)
    requires Lawful(cfg.passes) && Inv(cfg, s) && Lagging(s) && HasTask(s, t) && s.tasks[t].phase == Idle
    ensures !cfg.passes(s.history.emitted[s.tasks[t].next], s.previous, at, plan)
  {
    var n := s.tasks[t].next;
    assert Pending(s.tasks[t], n);
    if cfg.passes(s.history.emitted[n], s.previous, at, plan) {
      PassingNumber(cfg, s, s.history.emitted[n], at, plan);
    }
  }

  /** Whatever the service does next, it stays stuck and seals nothing. */
  lemma StuckStep(cfg: Config, s: Service, a: Action)
    requires Lawful(cfg.passes) && Inv(cfg, s) && Stuck(s) && Enabled(cfg, s, a)
    ensures Stuck(Do(cfg, s, a)) && Do(cfg, s, a).log == s.log
  {
    if a.Start? && a.plan.Some? {
      NothingPassesWhenLagging(cfg, s, a.t, a.at, a.plan.value);
    }
    assert !a.Receive? ==> !Active(s.tasks[a.t]);
  }

  lemma {:induction false} StuckForever(cfg: Config, actions: seq<Action>, more: seq<Action>)
    requires Lawful(cfg.passes) && cfg.caps.maxEvents >= 1 && Reach(cfg, actions + more).Some?
    requires Reach(cfg, actions).Some? && Stuck(Reach(cfg, actions).value)
    ensures Stuck(Reach(cfg, actions + more).value)
    ensures Reach(cfg, actions + more).value.log == Reach(cfg, actions).value.log
  {
    if more == [] {
      assert actions + more == actions;
    } else {
      var before := actions + more[..|more| - 1];
      assert (actions + more)[..|actions + more| - 1] == before;
      StuckForever(cfg, actions, more[..|more| - 1]);
      EveryRunHolds(cfg, before);
      StuckStep(cfg, Reach(cfg, before).value, more[|more| - 1]);
    }
  }

  /** After an exception in anchoring no segment is ever sealed again, in any continuation of the run. */
  lemma AnchoringThrowIsFinal(cfg: Config, actions: seq<Action>, a: Action, more: seq<Action>)
    requires Lawful(cfg.passes) && cfg.caps.maxEvents >= 1 && AnchoringThrows(a)
    requires Reach(cfg, actions + [a] + more).Some?
    ensures Reach(cfg, actions).Some?
    ensures Reach(cfg, actions + [a] + more).value.log == Reach(cfg, actions).value.log
  {
    FailuresAndSealsStay(cfg, actions + [a], more);
    FailuresAndSealsStay(cfg, actions, [a]);
    assert (actions + [a])[..|actions|] == actions;
    EveryRunHolds(cfg, actions);
    AnchoringThrowSticks(cfg, Reach(cfg, actions).value, a);
    StuckForever(cfg, actions + [a], more);
  }

  // ---------- overlapping calls ----------

  /** While one task is past the checks of its segment, no other segment can pass them. */
  lemma NothingPassesBeside(cfg: Config, s: Service, u: nat, t: nat, at: string, plan: Plan)
    requires Lawful(cfg.passes) && Inv(cfg, s) && u < |s.tasks| && Active(s.tasks[u])
    requires HasTask(s, t) && s.tasks[t].phase == Idle
    ensures !cfg.passes(s.history.emitted[s.tasks[t].next], s.previous, at, plan)
  {
    assert PhaseHolds(cfg, s, s.tasks[u]);
    if s.tasks[u].phase.Writing? {
      var n := s.tasks[t].next;
      if cfg.passes(s.history.emitted[n], s.previous, at, plan) {
        PassingNumber(cfg, s, s.history.emitted[n], at, plan);
      }
    } else {
      NothingPassesWhenLagging(cfg, s, t, at, plan);
    }
  }

  /** Any other idle task can fail in this way. */
  lemma OverlapCanFail(cfg: Config, s: Service, u: nat, t: nat, at: string, threw: bool)
    requires Lawful(cfg.passes) && Inv(cfg, s) && u < |s.tasks| && Active(s.tasks[u])
    requires HasTask(s, t) && s.tasks[t].phase == Idle
    ensures Enabled(cfg, s, Start(t, at, None, threw))
  {
    forall plan ensures !cfg.passes(s.history.emitted[s.tasks[t].next], s.previous, at, plan) {
      NothingPassesBeside(cfg, s, u, t, at, plan);
    }
  }

  lemma StartBesideFails(cfg: Config, s: Service, u: nat, a: Action)
    requires Lawful(cfg.passes) && Inv(cfg, s) && u < |s.tasks| && Active(s.tasks[u]) && a.Start? && Enabled(cfg, s, a)
    ensures a.plan.None? && s.tasks[a.t].next in Do(cfg, s, a).failed
  {
    if a.plan.Some? {
      NothingPassesBeside(cfg, s, u, a.t, a.at, a.plan.value);
    }
  }

  /** Once segment f has failed to seal, the log never gets as far as f. */
  lemma FailureBounds(cfg: Config, actions: seq<Action>, more: seq<Action>, f: nat)
    requires Lawful(cfg.passes) && cfg.caps.maxEvents >= 1 && Reach(cfg, actions + more).Some?
    requires Reach(cfg, actions).Some? && f in Reach(cfg, actions).value.failed
    ensures |Reach(cfg, actions + more).value.log| <= f
  {
    FailuresAndSealsStay(cfg, actions, more);
    EveryRunHolds(cfg, actions + more);
  }

  /**
   When calls overlap and a seal is started while another task is past its checks, that seal fails
   against the old predecessor; its segment and all later ones are never sealed, in any continuation.
   */
  lemma OverlapIsFinal(cfg: Config, actions: seq<Action>, u: nat, a: Action, more: seq<Action>)
    requires Lawful(cfg.passes) && cfg.caps.maxEvents >= 1 && a.Start?
    requires Reach(cfg, actions).Some? && u < |Reach(cfg, actions).value.tasks| && Active(Reach(cfg, actions).value.tasks[u])
    requires Reach(cfg, actions + [a] + more).Some?
    ensures Reach(cfg, actions + [a]).Some? && a.plan.None? && a.t < |Reach(cfg, actions).value.tasks|
    ensures var n := Reach(cfg, actions).value.tasks[a.t].next;
      n in Reach(cfg, actions + [a]).value.failed && |Reach(cfg, actions + [a] + more).value.log| <= n
  {
    FailuresAndSealsStay(cfg, actions + [a], more);
    assert (actions + [a])[..|actions|] == actions;
    EveryRunHolds(cfg, actions);
    StartBesideFails(cfg, Reach(cfg, actions).value, u, a);
    FailureBounds(cfg, actions + [a], more, Reach(cfg, actions).value.tasks[a.t].next);
  }

  // ---------- otherwise sealing can go on ----------

  /** Without an exception the predecessor is recorded, whether or not a token was obtained. */
  lemma AnchoringSettles(cfg: Config, s: Service, a: Action)
    requires Lawful(cfg.passes) && Inv(cfg, s) && Enabled(cfg, s, a)
    requires (a.Attest? && a.outcome.NoToken?) || (a.WriteAnchor? && a.ok)
    ensures Settled(Do(cfg, s, a))
  {
    assert PhaseHolds(cfg, s, s.tasks[a.t]);
  }

  /** Out of date but not stuck: some task can still record the predecessor, in one step. */
  lemma CanSettle(cfg: Config, s: Service) returns (a: Action)
    requires Lawful(cfg.passes) && Inv(cfg, s) && Fed(cfg, s.history) && Lagging(s) && !Stuck(s)
    ensures Enabled(cfg, s, a) && Settled(Do(cfg, s, a))
  {
    var t :| 0 <= t < |s.tasks| && Active(s.tasks[t]);
    assert PhaseHolds(cfg, s, s.tasks[t]);
    SettledIsNotLagging(cfg, s);
    if s.tasks[t].phase.Attesting? {
      a := Attest(t, NoToken);
    } else {
      a := WriteAnchor(t, true);
      TargetIsFree(cfg, s, a);
    }
    AnchoringSettles(cfg, s, a);
  }

  /** These steps from here on, when each is possible. */
  ghost function Steps(cfg: Config, s: Service, actions: seq<Action>): Option<Service>
    decreases |actions|
  {
    if actions == [] then Some(s)
    else if Enabled(cfg, s, actions[0]) then Steps(cfg, Do(cfg, s, actions[0]), actions[1..])
    else None
  }

  lemma {:induction false} StepsAreReached(cfg: Config, actions: seq<Action>, s: Service, more: seq<Action>)
    requires Reach(cfg, actions) == Some(s) && Steps(cfg, s, more).Some?
    ensures Reach(cfg, actions + more) == Steps(cfg, s, more)
    decreases |more|
  {
    if more == [] {
      assert actions + more == actions;
    } else {
      ReachOneMore(cfg, actions, s, more[0]);
      StepsAreReached(cfg, actions + [more[0]], Do(cfg, s, more[0]), more[1..]);
      Grouped(actions, more);
    }
  }

  lemma Grouped(actions: seq<Action>, more: seq<Action>)
    requires more != []
    ensures actions + more == actions + [more[0]] + more[1..]
  {
  }

  lemma ReachOneMore(cfg: Config, actions: seq<Action>, s: Service, a: Action)
    requires Reach(cfg, actions) == Some(s) && Enabled(cfg, s, a)
    ensures Reach(cfg, actions + [a]) == Some(Do(cfg, s, a))
  {
    assert (actions + [a])[..|actions + [a]| - 1] == actions;
  }

  lemma StepsCons(cfg: Config, s: Service, a: Action, more: seq<Action>)
    requires Enabled(cfg, s, a)
    ensures Steps(cfg, s, [a] + more) == Steps(cfg, Do(cfg, s, a), more)
  {
    assert ([a] + more)[1..] == more;
  }

  /** A task past the checks can write the rest of its objects and then the manifest. */
  lemma {:induction false} CanWriteOut(cfg: Config, s: Service, t: nat) returns (actions: seq<Action>)
    requires Lawful(cfg.passes) && cfg.caps.maxEvents >= 1 && Inv(cfg, s) && Fed(cfg, s.history)
    requires HasTask(s, t) && s.tasks[t].phase.Writing?
    ensures var end := Steps(cfg, s, actions); var task := s.tasks[t];
      end.Some? && end.value.log == s.log + [Sealed(s.history.emitted[task.next], task.phase.at, task.phase.plan)]
    decreases |s.tasks[t].phase.plan.chained.objects| - s.tasks[t].phase.done
  {
    var task := s.tasks[t];
    assert PhaseHolds(cfg, s, task);
    if task.phase.done < |task.phase.plan.chained.objects| {
      var a := WriteObject(t, true, false);
      TargetIsFree(cfg, s, a);
      StepKeeps(cfg, s, a);
      var rest := CanWriteOut(cfg, Do(cfg, s, a), t);
      StepsCons(cfg, s, a, rest);
      actions := [a] + rest;
    } else {
      var a := WriteManifest(t, true);
      TargetIsFree(cfg, s, a);
      StepsCons(cfg, s, a, []);
      assert [a] + [] == [a];
      actions := [a];
    }
  }

  /** When the predecessor is up to date, the next segment can be sealed as soon as it passes its checks. */
  lemma CanSealNext(cfg: Config, s: Service, t: nat, at: string, plan: Plan) returns (actions: seq<Action>)
    requires Lawful(cfg.passes) && cfg.caps.maxEvents >= 1 && Inv(cfg, s) && Fed(cfg, s.history) && Settled(s)
    requires HasTask(s, t) && s.tasks[t].phase == Idle && cfg.passes(s.history.emitted[s.tasks[t].next], s.previous, at, plan)
    ensures s.tasks[t].next == |s.log|
    ensures var end := Steps(cfg, s, actions);
      end.Some? && end.value.log == s.log + [Sealed(s.history.emitted[|s.log|], at, plan)]
  {
    var a := Start(t, at, Some(plan), false);
    PassingNumber(cfg, s, s.history.emitted[s.tasks[t].next], at, plan);
    StepKeeps(cfg, s, a);
    var rest := CanWriteOut(cfg, Do(cfg, s, a), t);
    StepsCons(cfg, s, a, rest);
    actions := [a] + rest;
  }

  /** The run can go on like this, and seals one more segment on the way. */
  ghost predicate SealsOneMore(cfg: Config, actions: seq<Action>, more: seq<Action>) {
    && Reach(cfg, actions).Some? && Reach(cfg, actions + more).Some?
    && |Reach(cfg, actions + more).value.log| == |Reach(cfg, actions).value.log| + 1
  }

  /**
   In a reachable state with an idle task at a segment that passes its checks, sealing goes on in
   some continuation; in a stuck state it goes on in none.
   */
  lemma SealingGoesOn(cfg: Config, actions: seq<Action>, t: nat, at: string, plan: Plan)
    requires Lawful(cfg.passes) && cfg.caps.maxEvents >= 1 && Reach(cfg, actions).Some?
    requires var s := Reach(cfg, actions).value;
      HasTask(s, t) && s.tasks[t].phase == Idle && cfg.passes(s.history.emitted[s.tasks[t].next], s.previous, at, plan)
    ensures exists more :: SealsOneMore(cfg, actions, more)
  {
    var s := Reach(cfg, actions).value;
    EveryRunHolds(cfg, actions);
    if Lagging(s) {
      NothingPassesWhenLagging(cfg, s, t, at, plan);
    }
    var more := CanSealNext(cfg, s, t, at, plan);
    StepsAreReached(cfg, actions, s, more);
    assert SealsOneMore(cfg, actions, more);
  }
}

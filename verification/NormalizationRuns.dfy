/**
 What comes of the groups a normalizer finishes: which are emitted, which are duplicates and which go
 to the dead-letter queue, one by one and over whole runs; and which changes share a group.
 */
module NormalizationRuns {
  import opened Outcomes
  import opened Digests
  import opened Canonical
  import opened CceModel
  import opened Normalization
  import opened Sequences
  import CanonicalReading

  // ---------- one finished group ----------

  /** `c` is this group's envelope: its core, hashed, and linked to this row hash. */
  ghost predicate IsBuiltFrom<R>(cfg: Config<R>, g: Group, context: Value, prev: HashText, c: Cce) {
    && cfg.core(g, context) == Ok(c.core) && cfg.valid(c)
    && Serialize(c.core).Ok? && c.evidence.eventHash == Hash(Sha256(Serialize(c.core).value))
    && prev.Hash? && c.evidence.prevRowHash == Some(prev)
    && c.evidence.rowHash == Hash(Sha256([Token(prev.d), Token(c.evidence.eventHash.d)]))
    && c.evidence.wormObjectKey == None && c.evidence.segmentId == None
  }

  /** Building succeeds exactly when there is such an envelope, and gives it. */
  lemma BuildsIff<R>(cfg: Config<R>, g: Group, context: Value, prev: HashText, c: Cce)
    ensures Build(cfg, g, context, prev) == Ok(c) <==> IsBuiltFrom(cfg, g, context, prev, c)
  {
    if IsBuiltFrom(cfg, g, context, prev, c) {
      assert c.evidence == Evidence(c.evidence.eventHash, Some(prev), c.evidence.rowHash, None, None);
    }
  }

  ghost predicate IdTaken(emitted: seq<Cce>, id: string) {
    exists i | 0 <= i < |emitted| :: IdOf(emitted[i]) == id
  }

  ghost predicate EmittedAs(emitted: seq<Cce>, id: string, event: HashText) {
    exists i | 0 <= i < |emitted| :: IdOf(emitted[i]) == id && emitted[i].evidence.eventHash == event
  }

  /** The guard remembers exactly the emitted ids, with the hashes they were emitted with. */
  ghost predicate Remembers(st: State) {
    && IdsHold(st) && forall id | id in st.seen :: IdTaken(st.emitted, id)
  }

  /** Counters and emissions apart, finishing a group changes the row chain of its database at most. */
  ghost predicate OnlyCounts(st: State, next: State, stats: Stats) {
    next.emitted == st.emitted && next.lastRow == st.lastRow && next.stats == stats
  }

  ghost predicate Emits(st: State, next: State, db: string, c: Cce) {
    && next.emitted == st.emitted + [c] && next.stats == Stats(st.stats.emitted + 1, st.stats.duplicates, st.stats.dlq)
    && LastRow(next, db) == c.evidence.rowHash && forall k | k != db :: LastRow(next, k) == LastRow(st, k)
  }

  /**
   What comes of a group: an envelope under an id not emitted before is emitted and the row chain of
   its database moves on to it; one emitted before with the same event hash is a duplicate; one whose
   id was emitted with another hash, and a group that does not build, are dead-lettered.
   */
  ghost predicate Settles<R>(cfg: Config<R>, st: State, g: Group, context: Value, next: State) {
    var built := Build(cfg, g, context, LastRow(st, g.dbId));
    if built.Err? then OnlyCounts(st, next, st.stats.(dlq := st.stats.dlq + 1))
    else
      var c := built.value;
      if !IdTaken(st.emitted, IdOf(c)) then Emits(st, next, g.dbId, c)
      else if EmittedAs(st.emitted, IdOf(c), c.evidence.eventHash) then OnlyCounts(st, next, st.stats.(duplicates := st.stats.duplicates + 1))
      else OnlyCounts(st, next, st.stats.(dlq := st.stats.dlq + 1))
  }

  lemma SeenIff(st: State, id: string)
    requires Remembers(st)
    ensures id in st.seen <==> IdTaken(st.emitted, id)
    ensures id in st.seen ==> forall event :: EmittedAs(st.emitted, id, event) <==> st.seen[id] == event
  {
    if id in st.seen {
      var i :| 0 <= i < |st.emitted| && IdOf(st.emitted[i]) == id;
      assert st.emitted[i].evidence.eventHash == st.seen[id];
    }
  }

  lemma {:induction false} FinishedSettles<R>(cfg: Config<R>, st: State, g: Group, context: Value)
    requires Remembers(st)
    ensures Settles(cfg, st, g, context, Finalized(cfg, st, g, context)) && Remembers(Finalized(cfg, st, g, context))
  {
    var built, next := Build(cfg, g, context, LastRow(st, g.dbId)), Finalized(cfg, st, g, context);
    if built.Ok? {
      SeenIff(st, IdOf(built.value));
      if IdOf(built.value) !in st.seen {
        EmissionIsRemembered(st, next, built.value);
      }
    }
  }

  lemma EmissionIsRemembered(st: State, next: State, c: Cce)
    requires Remembers(st) && IdOf(c) !in st.seen
    requires next.emitted == st.emitted + [c] && next.seen == st.seen[IdOf(c) := c.evidence.eventHash]
    ensures Remembers(next)
  {
    EmitKeepsIds(st, next, c);
    forall id | id in next.seen ensures IdTaken(next.emitted, id) {
      if id == IdOf(c) {
        assert next.emitted[|st.emitted|] == c;
      } else {
        var i :| 0 <= i < |st.emitted| && IdOf(st.emitted[i]) == id;
        assert next.emitted[i] == st.emitted[i];
      }
    }
  }

  // ---------- over runs ----------

  /** The successful builds that no earlier successful build shares the id of. */
  ghost function FirstPerId(builds: seq<Result<Cce>>): seq<Cce> {
    if builds == [] then []
    else
      var most, last := builds[..|builds| - 1], builds[|builds| - 1];
      FirstPerId(most) + if last.Ok? && !BuiltBefore(most, IdOf(last.value)) then [last.value] else []
  }

  ghost predicate BuiltBefore(builds: seq<Result<Cce>>, id: string) {
    exists i | 0 <= i < |builds| :: builds[i].Ok? && IdOf(builds[i].value) == id
  }

  lemma {:induction false} FirstTakesIds(builds: seq<Result<Cce>>, id: string)
    ensures IdTaken(FirstPerId(builds), id) <==> BuiltBefore(builds, id)
  {
    if builds != [] {
      var most, last := builds[..|builds| - 1], builds[|builds| - 1];
      FirstTakesIds(most, id);
      assert builds == most + [last];
      TakenStep(FirstPerId(most), last, id);
      BuiltStep(most, last, id);
      assert FirstPerId(most) + [] == FirstPerId(most);
    }
  }

  lemma TakenStep(emitted: seq<Cce>, last: Result<Cce>, id: string)
    ensures last.Ok? ==> (IdTaken(emitted + [last.value], id) <==> IdTaken(emitted, id) || IdOf(last.value) == id)
  {
    if last.Ok? {
      var more := emitted + [last.value];
      assert more[|emitted|] == last.value;
      if IdTaken(emitted, id) {
        var i :| 0 <= i < |emitted| && IdOf(emitted[i]) == id;
        assert more[i] == emitted[i];
      }
    }
  }

  lemma BuiltStep(builds: seq<Result<Cce>>, last: Result<Cce>, id: string)
    ensures BuiltBefore(builds + [last], id) <==> BuiltBefore(builds, id) || (last.Ok? && IdOf(last.value) == id)
  {
    var more := builds + [last];
    assert more[|builds|] == last;
    if BuiltBefore(builds, id) {
      var i :| 0 <= i < |builds| && builds[i].Ok? && IdOf(builds[i].value) == id;
      assert more[i] == builds[i];
    }
  }

  ghost predicate Repeats(builds: seq<Result<Cce>>, last: Result<Cce>) {
    last.Ok? && EmittedAs(FirstPerId(builds), IdOf(last.value), last.value.evidence.eventHash)
  }

  /** The successful builds whose id was emitted with the same event hash. */
  ghost function DuplicateCount(builds: seq<Result<Cce>>): nat {
    if builds == [] then 0
    else
      var most, last := builds[..|builds| - 1], builds[|builds| - 1];
      DuplicateCount(most) + if Repeats(most, last) then 1 else 0
  }

  /** The failed builds, and those whose id was emitted with another event hash. */
  ghost function RefusedCount(builds: seq<Result<Cce>>): nat {
    if builds == [] then 0
    else
      var most, last := builds[..|builds| - 1], builds[|builds| - 1];
      RefusedCount(most) + if last.Err? || (BuiltBefore(most, IdOf(last.value)) && !Repeats(most, last)) then 1 else 0
  }

  /** Each group built with its context, behind the last envelope of its database among the first builds before it. */
  ghost function Builds<R>(cfg: Config<R>, groups: seq<Group>, contexts: seq<Value>): (builds: seq<Result<Cce>>)
    requires |groups| == |contexts|
    ensures |builds| == |groups|
  {
    if groups == [] then []
    else
      var n := |groups| - 1;
      var before := Builds(cfg, groups[..n], contexts[..n]);
      before + [Build(cfg, groups[n], contexts[n], EndOf(EmittedOf(FirstPerId(before), groups[n].dbId)))]
  }

  /** The state is the one these groups lead to. */
  ghost predicate LedTo<R>(cfg: Config<R>, st: State, groups: seq<Group>, contexts: seq<Value>, unmapped: nat)
    requires |groups| == |contexts|
  {
    var builds := Builds(cfg, groups, contexts);
    && st.emitted == FirstPerId(builds)
    && st.stats == Stats(|FirstPerId(builds)|, DuplicateCount(builds), unmapped + RefusedCount(builds))
  }

  lemma BuildsStep<R>(cfg: Config<R>, groups: seq<Group>, contexts: seq<Value>, g: Group, context: Value)
    requires |groups| == |contexts|
    ensures Builds(cfg, groups + [g], contexts + [context])
         == Builds(cfg, groups, contexts) + [Build(cfg, g, context, EndOf(EmittedOf(FirstPerId(Builds(cfg, groups, contexts)), g.dbId)))]
  {
    assert (groups + [g])[..|groups|] == groups && (contexts + [context])[..|groups|] == contexts;
  }

  lemma CountsStep(builds: seq<Result<Cce>>, last: Result<Cce>)
    ensures FirstPerId(builds + [last]) == FirstPerId(builds) + if last.Ok? && !BuiltBefore(builds, IdOf(last.value)) then [last.value] else []
    ensures DuplicateCount(builds + [last]) == DuplicateCount(builds) + if Repeats(builds, last) then 1 else 0
    ensures RefusedCount(builds + [last])
         == RefusedCount(builds) + if last.Err? || (BuiltBefore(builds, IdOf(last.value)) && !Repeats(builds, last)) then 1 else 0
  {
    assert (builds + [last])[..|builds|] == builds;
  }

  /** One more group finished. */
  lemma LedOn<R(!new)>(cfg: Config<R>, st: State, next: State, groups: seq<Group>, contexts: seq<Value>, unmapped: nat,
                       g: Group, context: Value)
    requires |groups| == |contexts| && LedTo(cfg, st, groups, contexts, unmapped)
    requires LastRow(st, g.dbId) == EndOf(EmittedOf(st.emitted, g.dbId)) && Settles(cfg, st, g, context, next)
    ensures LedTo(cfg, next, groups + [g], contexts + [context], unmapped)
  {
    var builds, built := Builds(cfg, groups, contexts), Build(cfg, g, context, LastRow(st, g.dbId));
    BuildsStep(cfg, groups, contexts, g, context);
    CountsStep(builds, built);
    SettledCounts(cfg, st, next, builds, built, g, context, unmapped);
  }

  lemma SettledCounts<R>(cfg: Config<R>, st: State, next: State, builds: seq<Result<Cce>>, built: Result<Cce>,
                         g: Group, context: Value, unmapped: nat)
    requires st.emitted == FirstPerId(builds)
    requires st.stats == Stats(|FirstPerId(builds)|, DuplicateCount(builds), unmapped + RefusedCount(builds))
    requires built == Build(cfg, g, context, LastRow(st, g.dbId)) && Settles(cfg, st, g, context, next)
    ensures next.emitted == FirstPerId(builds) + if built.Ok? && !BuiltBefore(builds, IdOf(built.value)) then [built.value] else []
    ensures next.stats == Stats(|next.emitted|, DuplicateCount(builds) + (if Repeats(builds, built) then 1 else 0),
      unmapped + RefusedCount(builds) + if built.Err? || (BuiltBefore(builds, IdOf(built.value)) && !Repeats(builds, built)) then 1 else 0)
  {
    assert st.emitted + [] == st.emitted;
    if built.Ok? {
      FirstTakesIds(builds, IdOf(built.value));
      if Repeats(builds, built) {
        RepeatedIsTaken(builds, built);
      }
    }
  }

  lemma RepeatedIsTaken(builds: seq<Result<Cce>>, built: Result<Cce>)
    requires Repeats(builds, built)
    ensures IdTaken(FirstPerId(builds), IdOf(built.value))
  {
  }

  function ContextsOf(groups: seq<Group>, context: Group -> Value): seq<Value> {
    seq(|groups|, i requires 0 <= i < |groups| => context(groups[i]))
  }

  /** What every state of a run satisfies, with the groups that led to it. */
  ghost predicate Stands<R>(cfg: Config<R>, st: State, groups: seq<Group>, contexts: seq<Value>, unmapped: nat) {
    StateHolds(st) && Remembers(st) && |groups| == |contexts| && LedTo(cfg, st, groups, contexts, unmapped)
  }

  lemma OneLedOn<R(!new)>(cfg: Config<R>, st: State, groups: seq<Group>, contexts: seq<Value>, unmapped: nat, g: Group, context: Value)
    requires Faithful(cfg) && Stands(cfg, st, groups, contexts, unmapped)
    ensures Stands(cfg, Finalized(cfg, st, g, context), groups + [g], contexts + [context], unmapped)
  {
    assert ChainHolds(st, g.dbId);
    FinalizeKeeps(cfg, st, g, context);
    FinishedSettles(cfg, st, g, context);
    LedOn(cfg, st, Finalized(cfg, st, g, context), groups, contexts, unmapped, g, context);
  }

  lemma ContextsStep(groups: seq<Group>, context: Group -> Value)
    requires groups != []
    ensures ContextsOf(groups, context) == [context(groups[0])] + ContextsOf(groups[1..], context)
  {
  }

  lemma {:induction false} AllLedOn<R(!new)>(cfg: Config<R>, st: State, groups: seq<Group>, contexts: seq<Value>, unmapped: nat,
                                             more: seq<Group>, context: Group -> Value)
    requires Faithful(cfg) && Stands(cfg, st, groups, contexts, unmapped)
    ensures Stands(cfg, FinalizedAll(cfg, st, more, context), groups + more, contexts + ContextsOf(more, context), unmapped)
    decreases |more|
  {
    if more == [] {
      assert groups + more == groups && contexts + ContextsOf(more, context) == contexts;
    } else {
      var g, answer, rest := more[0], context(more[0]), more[1..];
      OneLedOn(cfg, st, groups, contexts, unmapped, g, answer);
      AllLedOn(cfg, Finalized(cfg, st, g, answer), groups + [g], contexts + [answer], unmapped, rest, context);
      Regroup(groups, [g], rest);
      Regroup(contexts, [answer], ContextsOf(rest, context));
      HeadAndTail(more);
      ContextsStep(more, context);
    }
  }

  /** The groups a call finishes. */
  function FinishedBy<R>(cfg: Config<R>, open: Option<Group>, call: Call<R>): seq<Group> {
    match call
    case Process(record, _) =>
      var event := cfg.mapping(record);
      if event.Err? || KeyOf(cfg.names, event.value).Err? then []
      else Grouped(open, event.value, KeyOf(cfg.names, event.value).value).completed
    case FlushOpen(_) => if open.Some? then [open.value] else []
  }

  lemma FinishedStep<R>(cfg: Config<R>, h: History, call: Call<R>)
    ensures Next(cfg, h, call).finished == h.finished + FinishedBy(cfg, h.state.open, call)
  {
    assert h.finished + [] == h.finished;
  }

  /** What the providers answered for each group finished, at the call that finished it. */
  function Answers<R>(cfg: Config<R>, calls: seq<Call<R>>): (answers: seq<Value>)
    ensures |answers| == |Run(cfg, calls).finished|
  {
    if calls == [] then []
    else
      var most, last := calls[..|calls| - 1], calls[|calls| - 1];
      FinishedStep(cfg, Run(cfg, most), last);
      Answers(cfg, most) + ContextsOf(FinishedBy(cfg, Run(cfg, most).state.open, last), last.context)
  }

  /** Whether a transaction is open makes no difference. */
  lemma OpenIsIrrelevant<R(!new)>(cfg: Config<R>, st: State, open: Option<Group>, groups: seq<Group>, contexts: seq<Value>, unmapped: nat)
    requires Stands(cfg, st, groups, contexts, unmapped)
    ensures Stands(cfg, st.(open := open), groups, contexts, unmapped)
  {
    SameChains(st, st.(open := open));
  }

  lemma UnmappedLedOn<R(!new)>(cfg: Config<R>, st: State, groups: seq<Group>, contexts: seq<Value>, unmapped: nat)
    requires Stands(cfg, st, groups, contexts, unmapped)
    ensures Stands(cfg, Dlq(st), groups, contexts, unmapped + 1)
  {
    SameChains(st, Dlq(st));
  }

  lemma CallLedOn<R(!new)>(cfg: Config<R>, h: History, call: Call<R>, answers: seq<Value>)
    requires Faithful(cfg) && Stands(cfg, h.state, h.finished, answers, h.unmapped)
    ensures var next := Next(cfg, h, call); var more := FinishedBy(cfg, h.state.open, call);
      Stands(cfg, next.state, h.finished + more, answers + ContextsOf(more, call.context), next.unmapped)
  {
    var more := FinishedBy(cfg, h.state.open, call);
    assert more == [] ==> h.finished + more == h.finished && answers + ContextsOf(more, call.context) == answers;
    match call
    case Process(record, context) =>
      var event := cfg.mapping(record);
      if event.Err? {
        UnmappedLedOn(cfg, h.state, h.finished, answers, h.unmapped);
      } else if KeyOf(cfg.names, event.value).Ok? {
        var left := Grouped(h.state.open, event.value, KeyOf(cfg.names, event.value).value).open;
        OpenIsIrrelevant(cfg, h.state, left, h.finished, answers, h.unmapped);
        AllLedOn(cfg, h.state.(open := left), h.finished, answers, h.unmapped, more, context);
      }
    case FlushOpen(context) =>
      if h.state.open.Some? {
        FlushLedOn(cfg, h, context, answers);
      }
  }

  lemma FlushLedOn<R(!new)>(cfg: Config<R>, h: History, context: Group -> Value, answers: seq<Value>)
    requires Faithful(cfg) && Stands(cfg, h.state, h.finished, answers, h.unmapped) && h.state.open.Some?
    ensures Stands(cfg, Next(cfg, h, FlushOpen(context)).state, h.finished + [h.state.open.value],
                   answers + ContextsOf([h.state.open.value], context), h.unmapped)
  {
    var g := h.state.open.value;
    OpenIsIrrelevant(cfg, h.state, None, h.finished, answers, h.unmapped);
    OneLedOn(cfg, h.state.(open := None), h.finished, answers, h.unmapped, g, context(g));
    FlushFinalizes(cfg, h, context);
  }

  lemma FlushFinalizes<R>(cfg: Config<R>, h: History, context: Group -> Value)
    requires h.state.open.Some?
    ensures var g := h.state.open.value;
      && Next(cfg, h, FlushOpen(context)).state == Finalized(cfg, h.state.(open := None), g, context(g))
      && ContextsOf([g], context) == [context(g)]
  {
  }

  /**
   In every run the emitted envelopes are the first successful builds per id, in the order in which
   their groups were finished; every other build is a duplicate or dead-lettered, by its event hash.
   */
  lemma {:induction false} EmittedAreTheFirstBuilds<R(!new)>(cfg: Config<R>, calls: seq<Call<R>>)
    requires Faithful(cfg)
    ensures var h := Run(cfg, calls);
      LedTo(cfg, h.state, h.finished, Answers(cfg, calls), h.unmapped) && Remembers(h.state)
  {
    EveryRunStands(cfg, calls);
  }

  ghost predicate RunStands<R>(cfg: Config<R>, calls: seq<Call<R>>) {
    var h := Run(cfg, calls);
    Stands(cfg, h.state, h.finished, Answers(cfg, calls), h.unmapped)
  }

  lemma InitialStands<R(!new)>(cfg: Config<R>)
    ensures Stands(cfg, INITIAL, [], [], 0)
  {
    forall db ensures ChainHolds(INITIAL, db) {
      assert EmittedOf([], db) == [];
    }
    assert IdsHold(INITIAL) && Remembers(INITIAL);
    assert Builds(cfg, [], []) == [];
  }

  lemma NothingStands<R(!new)>(cfg: Config<R>)
    ensures RunStands(cfg, [])
  {
    InitialStands(cfg);
    assert Run(cfg, []) == NOTHING && Answers(cfg, []) == [];
  }

  lemma AnswersStep<R>(cfg: Config<R>, calls: seq<Call<R>>)
    requires calls != []
    ensures var most, last := calls[..|calls| - 1], calls[|calls| - 1];
      && Run(cfg, calls) == Next(cfg, Run(cfg, most), last)
      && Answers(cfg, calls) == Answers(cfg, most) + ContextsOf(FinishedBy(cfg, Run(cfg, most).state.open, last), last.context)
      && Run(cfg, calls).finished == Run(cfg, most).finished + FinishedBy(cfg, Run(cfg, most).state.open, last)
  {
    var most, last := calls[..|calls| - 1], calls[|calls| - 1];
    FinishedStep(cfg, Run(cfg, most), last);
  }

  lemma RunStandsOn<R(!new)>(cfg: Config<R>, calls: seq<Call<R>>)
    requires Faithful(cfg) && calls != [] && RunStands(cfg, calls[..|calls| - 1])
    ensures RunStands(cfg, calls)
  {
    var most, last := calls[..|calls| - 1], calls[|calls| - 1];
    AnswersStep(cfg, calls);
    CallLedOn(cfg, Run(cfg, most), last, Answers(cfg, most));
  }

  lemma {:induction false} EveryRunStands<R(!new)>(cfg: Config<R>, calls: seq<Call<R>>)
    requires Faithful(cfg)
    ensures RunStands(cfg, calls)
  {
    if calls == [] {
      NothingStands(cfg);
    } else {
      EveryRunStands(cfg, calls[..|calls| - 1]);
      RunStandsOn(cfg, calls);
    }
  }

  // ---------- which changes share a group ----------

  /** The call brings in a change of this real transaction. */
  predicate BringsIn<R>(cfg: Config<R>, call: Call<R>, txId: string) {
    call.Process? && cfg.mapping(call.record).Ok? && cfg.mapping(call.record).value.txId == Some(txId)
  }

  predicate AllBringIn<R>(cfg: Config<R>, calls: seq<Call<R>>, txId: string) {
    forall i | 0 <= i < |calls| :: BringsIn(cfg, calls[i], txId)
  }

  function Changes<R>(cfg: Config<R>, calls: seq<Call<R>>, txId: string): seq<ChangeEvent>
    requires AllBringIn(cfg, calls, txId)
  {
    seq(|calls|, i requires 0 <= i < |calls| => cfg.mapping(calls[i].record).value)
  }

  /** These changes are the open group, and the one open before is finished. */
  ghost predicate AreOpenGroup(h: History, after: History, txId: string, changes: seq<ChangeEvent>) {
    && changes != []
    && after.state.open == Some(Group(changes[0].dbId, txId, changes[0].header, false, changes))
    && after.finished == h.finished + if h.state.open.Some? then [h.state.open.value] else []
  }

  lemma ChangeJoins<R>(cfg: Config<R>, h: History, h': History, call: Call<R>, txId: string, changes: seq<ChangeEvent>)
    requires txId != "" && BringsIn(cfg, call, txId) && AreOpenGroup(h, h', txId, changes)
    ensures AreOpenGroup(h, Next(cfg, h', call), txId, changes + [cfg.mapping(call.record).value])
  {
    assert h'.finished + [] == h'.finished;
  }

  lemma {:induction false} FinalizingKeepsOpen<R>(cfg: Config<R>, st: State, groups: seq<Group>, context: Group -> Value)
    ensures FinalizedAll(cfg, st, groups, context).open == st.open
    decreases |groups|
  {
    if groups != [] {
      FinalizingKeepsOpen(cfg, Finalized(cfg, st, groups[0], context(groups[0])), groups[1..], context);
    }
  }

  lemma ChangeOpens<R>(cfg: Config<R>, h: History, call: Call<R>, txId: string)
    requires txId != "" && BringsIn(cfg, call, txId) && (h.state.open.Some? ==> h.state.open.value.txId != txId)
    ensures AreOpenGroup(h, Next(cfg, h, call), txId, [cfg.mapping(call.record).value])
  {
    var e := cfg.mapping(call.record).value;
    assert [] + [e] == [e];
    var grouping := Grouped(h.state.open, e, txId);
    FinalizingKeepsOpen(cfg, h.state.(open := grouping.open), grouping.completed, call.context);
  }

  lemma RunNext<R>(cfg: Config<R>, calls: seq<Call<R>>, call: Call<R>)
    ensures Run(cfg, calls + [call]) == Next(cfg, Run(cfg, calls), call)
  {
    assert (calls + [call])[..|calls|] == calls;
  }

  /**
   Changes of one real transaction that arrive one after the other share one group, with the database
   and header of the first and all of them in order; whatever group was open before is finished.
   */
  lemma {:induction false} TransactionIsOneGroup<R>(cfg: Config<R>, before: seq<Call<R>>, calls: seq<Call<R>>, txId: string)
    requires txId != "" && calls != [] && AllBringIn(cfg, calls, txId)
    requires var open := Run(cfg, before).state.open; open.Some? ==> open.value.txId != txId
    ensures AreOpenGroup(Run(cfg, before), Run(cfg, before + calls), txId, Changes(cfg, calls, txId))
  {
    var most, last := calls[..|calls| - 1], calls[|calls| - 1];
    assert calls == most + [last] && BringsIn(cfg, last, txId);
    if most == [] {
      assert most + [last] == [last];
      TransactionStarts(cfg, before, last, txId);
    } else {
      TransactionIsOneGroup(cfg, before, most, txId);
      TransactionGoesOn(cfg, before, most, last, txId);
    }
  }

  lemma TransactionStarts<R>(cfg: Config<R>, before: seq<Call<R>>, call: Call<R>, txId: string)
    requires txId != "" && BringsIn(cfg, call, txId)
    requires var open := Run(cfg, before).state.open; open.Some? ==> open.value.txId != txId
    ensures AreOpenGroup(Run(cfg, before), Run(cfg, before + [call]), txId, Changes(cfg, [call], txId))
  {
    RunNext(cfg, before, call);
    ChangeOpens(cfg, Run(cfg, before), call, txId);
    assert Changes(cfg, [call], txId) == [cfg.mapping(call.record).value];
  }

  lemma TransactionGoesOn<R>(cfg: Config<R>, before: seq<Call<R>>, most: seq<Call<R>>, last: Call<R>, txId: string)
    requires txId != "" && AllBringIn(cfg, most, txId) && BringsIn(cfg, last, txId)
    requires AreOpenGroup(Run(cfg, before), Run(cfg, before + most), txId, Changes(cfg, most, txId))
    ensures AllBringIn(cfg, most + [last], txId)
    ensures AreOpenGroup(Run(cfg, before), Run(cfg, before + (most + [last])), txId, Changes(cfg, most + [last], txId))
  {
    Regroup(before, most, [last]);
    RunNext(cfg, before + most, last);
    ChangeJoins(cfg, Run(cfg, before), Run(cfg, before + most), last, txId, Changes(cfg, most, txId));
    assert Changes(cfg, most + [last], txId) == Changes(cfg, most, txId) + [cfg.mapping(last.record).value];
  }

  /** The open group is finished as it is by a flush, and by a change of any other transaction, and by nothing else. */
  lemma OpenIsFinishedIff<R>(cfg: Config<R>, open: Group, call: Call<R>)
    ensures var done := FinishedBy(cfg, Some(open), call);
      (done != [] && done[0] == open) <==>
        call.FlushOpen? ||
        (cfg.mapping(call.record).Ok? && KeyOf(cfg.names, cfg.mapping(call.record).value).Ok?
         && KeyOf(cfg.names, cfg.mapping(call.record).value).value != open.txId)
  {
    if call.Process? && cfg.mapping(call.record).Ok? {
      assert |open.members + [cfg.mapping(call.record).value]| > |open.members|;
    }
  }

  // ---------- synthetic ids ----------

  /** Row hashes are spelled in full; short epoch ids hold no colon. */
  ghost predicate SpellsHashes(names: Names) {
    && (forall a, b :: names.row(a) == names.row(b) ==> a == b)
    && (forall a :: ':' !in names.epoch(a))
  }

  lemma ColonComesFirst(a: string, b: string)
    requires ':' !in a
    ensures (a + ":" + b)[|a|] == ':' && forall k | 0 <= k < |a| :: (a + ":" + b)[k] != ':'
  {
    assert forall k | 0 <= k < |a| :: (a + ":" + b)[k] == a[k];
  }

  lemma CutAtColon(a: string, b: string, c: string, d: string)
    requires a + ":" + b == c + ":" + d && ':' !in a && ':' !in c
    ensures a == c && b == d
  {
    var s := a + ":" + b;
    ColonComesFirst(a, b);
    ColonComesFirst(c, d);
    assert |a| == |c|;
    assert a == s[..|a|] && c == s[..|c|] && b == s[|a| + 1..] && d == s[|c| + 1..];
  }

  lemma SpelledIdsTellApart(names: Names, p: Digest, x: Digest, q: Digest, y: Digest)
    requires SpellsHashes(names)
    requires "snapshot:" + names.epoch(p) + ":" + names.row(x) == "snapshot:" + names.epoch(q) + ":" + names.row(y)
    ensures names.epoch(p) == names.epoch(q) && x == y
  {
    var s := "snapshot:" + names.epoch(p) + ":" + names.row(x);
    assert s[9..] == names.epoch(p) + ":" + names.row(x) && s[9..] == names.epoch(q) + ":" + names.row(y);
    CutAtColon(names.epoch(p), names.row(x), names.epoch(q), names.row(y));
  }

  lemma SameCoreHash(a: Value, b: Value)
    requires CoreHash(a).Ok? && CoreHash(b).Ok?
    ensures CoreHash(a) == CoreHash(b) <==> MeaningOf(a) == MeaningOf(b)
  {
    CanonicalReading.SerializationIsUnambiguous(a, b);
    assert CoreHash(a).value.preimage == Serialize(a).value && CoreHash(b).value.preimage == Serialize(b).value;
  }

  /** Two snapshot reads get one synthetic id exactly when they are reads of one row and their short epoch ids agree. */
  lemma SnapshotIdsTellApart(names: Names, e: ChangeEvent, f: ChangeEvent)
    requires SpellsHashes(names) && SnapshotTx(names, e).Ok? && SnapshotTx(names, f).Ok?
    ensures SnapshotTx(names, e) == SnapshotTx(names, f) <==>
      && names.epoch(CoreHash(e.epoch).value) == names.epoch(CoreHash(f.epoch).value)
      && MeaningOf(RowIdentity(e.row)) == MeaningOf(RowIdentity(f.row))
  {
    SameCoreHash(RowIdentity(e.row), RowIdentity(f.row));
    if SnapshotTx(names, e) == SnapshotTx(names, f) {
      SpelledIdsTellApart(names, CoreHash(e.epoch).value, RowKeyHash(e.row).value, CoreHash(f.epoch).value, RowKeyHash(f.row).value);
    }
  }
}

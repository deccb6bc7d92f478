/**
 Runs of the accumulator beyond the books: when an operation throws, what that costs, and what
 holds when every row can be identified or all envelopes are of one database.
 */
module AccumulatorRuns {
  import opened Outcomes
  import opened Instants
  import opened CceModel
  import opened CceOrder
  import opened ManifestBuilder
  import opened Accumulation
  import opened Sequences

  lemma RunOn(hex: Hex, caps: Caps, events: seq<Event>, e: Event)
    ensures Run(hex, caps, events + [e]) == Next(hex, caps, Run(hex, caps, events), e)
  {
    assert (events + [e])[..|events|] == events;
  }

  // ---------- when an operation throws ----------

  lemma CloseStepThrowsIff(hex: Hex, st: State, db: string, trigger: SealTrigger, now: Instant)
    requires db in st.open && st.open[db].objects != []
    ensures CloseStep(hex, st, db, trigger, now).threw <==> !Sortable(hex, st.open[db].objects)
  {
    CloseThrowsIff(hex, st.open[db], trigger, now);
  }

  /** `flush` throws exactly when some buffer cannot be ordered; otherwise it leaves nothing open. */
  lemma {:induction false} FlushLeavesNothing(hex: Hex, caps: Caps, st: State, keys: seq<string>, now: Instant)
    requires forall i, j | 0 <= i < j < |keys| :: keys[i] != keys[j]
    ensures var step := Flushed(hex, st, keys, now);
      && (step.threw <==> exists k :: k in keys && k in st.open && !Sortable(hex, st.open[k].objects))
      && (!step.threw ==> forall k :: k in step.state.open <==> k in st.open && k !in keys)
    decreases |keys|
  {
    if keys != [] {
      var first := FlushOne(hex, st, keys[0], now);
      FlushOneThrowsIff(hex, st, keys[0], now);
      if !first.threw {
        assert keys == [keys[0]] + keys[1..] && keys[0] !in keys[1..];
        FlushLeavesNothing(hex, caps, first.state, keys[1..], now);
        assert forall k | k in keys[1..] && k in st.open :: k in first.state.open && first.state.open[k] == st.open[k];
      }
    }
  }

  lemma FlushOneThrowsIff(hex: Hex, st: State, db: string, now: Instant)
    ensures FlushOne(hex, st, db, now).threw <==> db in st.open && !Sortable(hex, st.open[db].objects)
    ensures !FlushOne(hex, st, db, now).threw ==> FlushOne(hex, st, db, now).state.open == st.open - {db}
  {
    if db in st.open && st.open[db].objects != [] {
      CloseStepThrowsIff(hex, st, db, Flush, now);
    }
  }

  /** Pushing onto a buffer and closing it if full. */
  function PushStep(hex: Hex, caps: Caps, st: State, db: string, c: Cce, now: Instant, later: Instant): Step {
    CloseIfFull(hex, caps, Pushed(WithOpen(st, db, OrEmpty(Engine(c)), now), db, c), db, later)
  }

  lemma PushThrowsIff(hex: Hex, caps: Caps, st: State, db: string, c: Cce, now: Instant, later: Instant)
    ensures var step := PushStep(hex, caps, st, db, c, now, later);
      && (step.threw <==> |Buffered(st, db)| + 1 >= caps.maxEvents && !Sortable(hex, Buffered(st, db) + [c]))
      && (step.threw ==> step.closed == [])
      && forall k | k in step.state.open :: k in st.open || k == db
  {
    var pushed := Pushed(WithOpen(st, db, OrEmpty(Engine(c)), now), db, c);
    CloseStepThrowsIff(hex, pushed, db, EventCountCap, later);
    assert pushed.open[db].objects == Buffered(st, db) + [c];
  }

  /** The segment of `db` holds objects and has been open for the age cap, by two clock readings that parse. */
  predicate Due(caps: Caps, st: State, db: string, now: Instant) {
    && db in st.open && st.open[db].objects != []
    && st.open[db].openedAt.millis.Some? && now.millis.Some?
    && now.millis.value - st.open[db].openedAt.millis.value >= caps.maxAgeMs
  }

  lemma AgedThrowsIff(hex: Hex, caps: Caps, st: State, db: string, now: Instant)
    ensures var step := CloseIfAged(hex, caps, st, db, now);
      && (step.threw <==> Due(caps, st, db, now) && !Sortable(hex, st.open[db].objects))
      && (step.threw ==> step.closed == []) && (forall k | k in step.state.open :: k in st.open)
      && (!step.threw ==> if Due(caps, st, db, now) then |step.closed| == 1 && Buffered(step.state, db) == []
                          else step.closed == [] && step.state == st)
  {
    if Due(caps, st, db, now) {
      CloseStepThrowsIff(hex, st, db, TimeCap, now);
    }
  }

  /**
   `add` throws exactly when it is time to close a buffer that cannot be ordered; the segment it
   may have closed before is never one it then fails to hand over.
   */
  lemma AddThrowsIff(hex: Hex, caps: Caps, st: State, db: string, c: Cce, now: Instant, later: Instant)
    requires caps.maxEvents >= 1
    ensures var step := Added(hex, caps, st, db, c, now, later);
      && (step.threw <==>
            if Due(caps, st, db, now) then !Sortable(hex, Buffered(st, db))
            else |Buffered(st, db)| + 1 >= caps.maxEvents && !Sortable(hex, Buffered(st, db) + [c]))
      && (step.threw ==> step.closed == [])
      && forall k | k in step.state.open :: k in st.open || k == db
  {
    var aged := CloseIfAged(hex, caps, st, db, now);
    AgedThrowsIff(hex, caps, st, db, now);
    if !aged.threw {
      PushThrowsIff(hex, caps, aged.state, db, c, now, later);
      assert [] + [c] == [c];
      IdentifiedIsSortable(hex, [c]);
    }
  }

  /** `sweep` throws exactly when some buffer whose time is up cannot be ordered. */
  lemma {:induction false} SweepThrowsIff(hex: Hex, caps: Caps, st: State, keys: seq<string>, now: Instant)
    requires forall i, j | 0 <= i < j < |keys| :: keys[i] != keys[j]
    ensures Swept(hex, caps, st, keys, now).threw <==>
      exists k :: k in keys && Due(caps, st, k, now) && !Sortable(hex, st.open[k].objects)
    decreases |keys|
  {
    if keys != [] {
      var first := CloseIfAged(hex, caps, st, keys[0], now);
      AgedThrowsIff(hex, caps, st, keys[0], now);
      if !first.threw {
        assert keys == [keys[0]] + keys[1..] && keys[0] !in keys[1..];
        SweepThrowsIff(hex, caps, first.state, keys[1..], now);
        AgedLeavesOthers(hex, caps, st, keys[0], now);
        assert forall k | k in keys[1..] :: Due(caps, st, k, now) <==> Due(caps, first.state, k, now);
      }
    }
  }

  lemma AgedLeavesOthers(hex: Hex, caps: Caps, st: State, db: string, now: Instant)
    ensures var next := CloseIfAged(hex, caps, st, db, now).state;
      forall k | k != db :: (k in next.open <==> k in st.open) && (k in st.open ==> next.open[k] == st.open[k])
  {
  }

  // ---------- which exceptions lose segments ----------

  /** Key i is the first whose time is up, and its buffer can be ordered. */
  ghost predicate ClosesFirst(hex: Hex, caps: Caps, st: State, keys: seq<string>, now: Instant, i: nat)
    requires i < |keys|
  {
    && Due(caps, st, keys[i], now) && Sortable(hex, st.open[keys[i]].objects)
    && forall l | 0 <= l < i :: !Due(caps, st, keys[l], now)
  }

  ghost predicate SweepCloses(hex: Hex, caps: Caps, st: State, keys: seq<string>, now: Instant) {
    exists i {:trigger ClosesFirst(hex, caps, st, keys, now, i)} :: 0 <= i < |keys| && ClosesFirst(hex, caps, st, keys, now, i)
  }

  lemma SweepClosesLater(hex: Hex, caps: Caps, st: State, keys: seq<string>, now: Instant)
    requires keys != [] && !Due(caps, st, keys[0], now)
    ensures SweepCloses(hex, caps, st, keys, now) <==> SweepCloses(hex, caps, st, keys[1..], now)
  {
    var rest := keys[1..];
    if SweepCloses(hex, caps, st, keys, now) {
      var i :| 0 <= i < |keys| && ClosesFirst(hex, caps, st, keys, now, i);
      assert forall l | 0 <= l < |rest| :: rest[l] == keys[l + 1];
      assert ClosesFirst(hex, caps, st, rest, now, i - 1);
    }
    if SweepCloses(hex, caps, st, rest, now) {
      var i :| 0 <= i < |rest| && ClosesFirst(hex, caps, st, rest, now, i);
      assert forall l | 0 < l < |keys| :: keys[l] == rest[l - 1];
      assert ClosesFirst(hex, caps, st, keys, now, i + 1);
    }
  }

  /** A sweep closes something exactly when the first segment whose time is up can be ordered. */
  lemma {:induction false} SweepClosesIff(hex: Hex, caps: Caps, st: State, keys: seq<string>, now: Instant)
    ensures Swept(hex, caps, st, keys, now).closed != [] <==> SweepCloses(hex, caps, st, keys, now)
    decreases |keys|
  {
    if keys != [] {
      AgedThrowsIff(hex, caps, st, keys[0], now);
      if Due(caps, st, keys[0], now) {
        assert ClosesFirst(hex, caps, st, keys, now, 0) <==> Sortable(hex, st.open[keys[0]].objects);
      } else {
        SweepClosesLater(hex, caps, st, keys, now);
        SweepClosesIff(hex, caps, st, keys[1..], now);
      }
    }
  }

  predicate Filled(st: State, db: string) {
    db in st.open && st.open[db].objects != []
  }

  ghost predicate FlushesFirst(hex: Hex, st: State, keys: seq<string>, i: nat)
    requires i < |keys|
  {
    && Filled(st, keys[i]) && Sortable(hex, st.open[keys[i]].objects)
    && forall l | 0 <= l < i :: !Filled(st, keys[l])
  }

  ghost predicate FlushCloses(hex: Hex, st: State, keys: seq<string>) {
    exists i {:trigger FlushesFirst(hex, st, keys, i)} :: 0 <= i < |keys| && FlushesFirst(hex, st, keys, i)
  }

  lemma FlushClosesLater(hex: Hex, st: State, next: State, keys: seq<string>)
    requires keys != [] && !Filled(st, keys[0]) && forall i | 0 < i < |keys| :: keys[i] != keys[0]
    requires next.open == st.open - {keys[0]}
    ensures FlushCloses(hex, st, keys) <==> FlushCloses(hex, next, keys[1..])
  {
    var rest := keys[1..];
    assert forall l | 0 <= l < |rest| :: rest[l] == keys[l + 1] && rest[l] != keys[0];
    if FlushCloses(hex, st, keys) {
      var i :| 0 <= i < |keys| && FlushesFirst(hex, st, keys, i);
      assert FlushesFirst(hex, next, rest, i - 1);
    }
    if FlushCloses(hex, next, rest) {
      var i :| 0 <= i < |rest| && FlushesFirst(hex, next, rest, i);
      assert forall l | 0 < l < |keys| :: keys[l] == rest[l - 1];
      assert FlushesFirst(hex, st, keys, i + 1);
    }
  }

  /** A flush closes something exactly when the first segment with objects can be ordered. */
  lemma {:induction false} FlushClosesIff(hex: Hex, st: State, keys: seq<string>, now: Instant)
    requires forall i, j | 0 <= i < j < |keys| :: keys[i] != keys[j]
    ensures Flushed(hex, st, keys, now).closed != [] <==> FlushCloses(hex, st, keys)
    decreases |keys|
  {
    if keys != [] {
      FlushOneThrowsIff(hex, st, keys[0], now);
      if Filled(st, keys[0]) {
        assert FlushesFirst(hex, st, keys, 0) <==> Sortable(hex, st.open[keys[0]].objects);
      } else {
        var next := FlushOne(hex, st, keys[0], now).state;
        FlushClosesLater(hex, st, next, keys);
        FlushClosesIff(hex, next, keys[1..], now);
      }
    }
  }

  /** The events whose exception takes closed segments with it. */
  ghost predicate Loses(hex: Hex, caps: Caps, st: State, e: Event) {
    match e
    case Add(_, _, _) => false
    case Sweep(now) =>
      && SweepCloses(hex, caps, st, st.order, now)
      && exists k :: k in st.order && Due(caps, st, k, now) && !Sortable(hex, st.open[k].objects)
    case FlushAll(_) =>
      && FlushCloses(hex, st, st.order)
      && exists k :: k in st.order && k in st.open && !Sortable(hex, st.open[k].objects)
  }

  lemma EventLosesIff(hex: Hex, caps: Caps, st: State, e: Event)
    requires Ordered(st) && caps.maxEvents >= 1
    ensures var step := Apply(hex, caps, st, e); step.threw && step.closed != [] <==> Loses(hex, caps, st, e)
  {
    match e
    case Add(c, now, later) =>
      if Admit(c).Ok? {
        AddThrowsIff(hex, caps, st, Admit(c).value, c, now, later);
      }
    case Sweep(now) =>
      SweepThrowsIff(hex, caps, st, st.order, now);
      SweepClosesIff(hex, caps, st, st.order, now);
    case FlushAll(now) =>
      FlushLeavesNothing(hex, caps, st, st.order, now);
      FlushClosesIff(hex, st, st.order, now);
  }

  /** Event i of a run is such an event, in the state it meets. */
  ghost predicate LosesAt(hex: Hex, caps: Caps, events: seq<Event>, i: nat)
    requires i < |events|
  {
    Loses(hex, caps, Run(hex, caps, events[..i]).state, events[i])
  }

  ghost predicate LosesSomewhere(hex: Hex, caps: Caps, events: seq<Event>) {
    exists i {:trigger LosesAt(hex, caps, events, i)} :: 0 <= i < |events| && LosesAt(hex, caps, events, i)
  }

  lemma LosesAtPrefix(hex: Hex, caps: Caps, most: seq<Event>, e: Event, i: nat)
    requires i < |most|
    ensures LosesAt(hex, caps, most + [e], i) <==> LosesAt(hex, caps, most, i)
  {
    assert (most + [e])[..i] == most[..i];
  }

  lemma LosesAtEnd(hex: Hex, caps: Caps, most: seq<Event>, e: Event)
    ensures LosesSomewhere(hex, caps, most + [e]) <==>
      LosesSomewhere(hex, caps, most) || Loses(hex, caps, Run(hex, caps, most).state, e)
  {
    var all := most + [e];
    assert all[..|most|] == most;
    assert LosesAt(hex, caps, all, |most|) <==> Loses(hex, caps, Run(hex, caps, most).state, e);
    if i :| 0 <= i < |most| && LosesAt(hex, caps, most, i) {
      LosesAtPrefix(hex, caps, most, e, i);
    }
    if i :| 0 <= i < |most| && LosesAt(hex, caps, all, i) {
      LosesAtPrefix(hex, caps, most, e, i);
    }
  }

  /**
   A run loses a closed segment exactly when at some sweep or flush the first segment to be closed
   can be ordered and a later one cannot.
   */
  lemma {:induction false} RunLosesIff(hex: Hex, caps: Caps, events: seq<Event>)
    requires caps.maxEvents >= 1
    ensures Run(hex, caps, events).lost != [] <==> LosesSomewhere(hex, caps, events)
  {
    if events != [] {
      var most, e := events[..|events| - 1], events[|events| - 1];
      RunLosesIff(hex, caps, most);
      EveryRunBalances(hex, caps, most);
      EventLosesIff(hex, caps, Run(hex, caps, most).state, e);
      InitAndLast(events);
      LosesAtEnd(hex, caps, most, e);
    }
  }

  // ---------- a buffer that cannot be ordered ----------

  ghost predicate Filed(st: State) {
    forall k | k in st.open :: st.open[k].dbId == k
  }

  ghost predicate Stuck(hex: Hex, st: State, db: string) {
    db in st.open && !Sortable(hex, st.open[db].objects)
  }

  /** The buffer of `db` is still there, with whatever came behind, and no segment of `db` was closed. */
  ghost predicate Leaves(st: State, step: Step, db: string) {
    && db in st.open && db in step.state.open && st.open[db].objects <= step.state.open[db].objects
    && Filed(step.state) && forall s | s in step.closed :: s.dbId != db
  }

  lemma {:induction false} PrefixIsSortable(hex: Hex, a: seq<Cce>, b: seq<Cce>)
    requires a <= b && Sortable(hex, b)
    ensures Sortable(hex, a)
  {
  }

  lemma StaysStuck(hex: Hex, st: State, step: Step, db: string)
    requires Stuck(hex, st, db) && Leaves(st, step, db)
    ensures Stuck(hex, step.state, db)
  {
    if Sortable(hex, step.state.open[db].objects) {
      PrefixIsSortable(hex, st.open[db].objects, step.state.open[db].objects);
    }
  }

  lemma CloseStepLeaves(hex: Hex, st: State, key: string, trigger: SealTrigger, now: Instant, db: string)
    requires Filed(st) && Stuck(hex, st, db) && key in st.open && st.open[key].objects != []
    ensures Leaves(st, CloseStep(hex, st, key, trigger, now), db)
  {
    CloseStepThrowsIff(hex, st, key, trigger, now);
  }

  lemma CloseIfAgedLeaves(hex: Hex, caps: Caps, st: State, key: string, now: Instant, db: string)
    requires Filed(st) && Stuck(hex, st, db)
    ensures Leaves(st, CloseIfAged(hex, caps, st, key, now), db)
  {
    if key in st.open && st.open[key].objects != [] {
      CloseStepLeaves(hex, st, key, TimeCap, now, db);
    }
  }

  lemma FlushOneLeaves(hex: Hex, st: State, key: string, now: Instant, db: string)
    requires Filed(st) && Stuck(hex, st, db)
    ensures Leaves(st, FlushOne(hex, st, key, now), db)
  {
    if key in st.open && st.open[key].objects != [] {
      CloseStepLeaves(hex, st, key, Flush, now, db);
    }
  }

  lemma LeavesThrice(st: State, first: Step, rest: Step, threw: bool, db: string)
    requires Leaves(st, first, db) && Leaves(first.state, rest, db)
    ensures Leaves(st, Step(rest.state, first.closed + rest.closed, threw), db)
  {
  }

  lemma PushLeaves(hex: Hex, caps: Caps, st: State, key: string, engine: string, c: Cce, now: Instant, later: Instant, db: string)
    requires Filed(st) && Stuck(hex, st, db)
    ensures var pushed := Pushed(WithOpen(st, key, engine, now), key, c);
      Leaves(st, CloseIfFull(hex, caps, pushed, key, later), db)
  {
    var pushed := Pushed(WithOpen(st, key, engine, now), key, c);
    assert Leaves(st, Step(pushed, [], false), db);
    StaysStuck(hex, st, Step(pushed, [], false), db);
    CloseStepLeaves(hex, pushed, key, EventCountCap, later, db);
  }

  lemma AddedLeaves(hex: Hex, caps: Caps, st: State, key: string, c: Cce, now: Instant, later: Instant, db: string)
    requires Filed(st) && Stuck(hex, st, db)
    ensures Leaves(st, Added(hex, caps, st, key, c, now, later), db)
  {
    var aged := CloseIfAged(hex, caps, st, key, now);
    CloseIfAgedLeaves(hex, caps, st, key, now, db);
    if !aged.threw {
      var pushed := Pushed(WithOpen(aged.state, key, OrEmpty(Engine(c)), now), key, c);
      var full := CloseIfFull(hex, caps, pushed, key, later);
      StaysStuck(hex, st, aged, db);
      PushLeaves(hex, caps, aged.state, key, OrEmpty(Engine(c)), c, now, later, db);
      LeavesThrice(st, aged, full, full.threw, db);
    }
  }

  lemma {:induction false} SweptLeaves(hex: Hex, caps: Caps, st: State, keys: seq<string>, now: Instant, db: string)
    requires Filed(st) && Stuck(hex, st, db)
    ensures Leaves(st, Swept(hex, caps, st, keys, now), db)
    decreases |keys|
  {
    if keys != [] {
      var first := CloseIfAged(hex, caps, st, keys[0], now);
      CloseIfAgedLeaves(hex, caps, st, keys[0], now, db);
      if !first.threw {
        StaysStuck(hex, st, first, db);
        SweptLeaves(hex, caps, first.state, keys[1..], now, db);
        var rest := Swept(hex, caps, first.state, keys[1..], now);
        LeavesThrice(st, first, rest, rest.threw, db);
      }
    }
  }

  lemma {:induction false} FlushedLeaves(hex: Hex, st: State, keys: seq<string>, now: Instant, db: string)
    requires Filed(st) && Stuck(hex, st, db)
    ensures Leaves(st, Flushed(hex, st, keys, now), db)
    decreases |keys|
  {
    if keys != [] {
      var first := FlushOne(hex, st, keys[0], now);
      FlushOneLeaves(hex, st, keys[0], now, db);
      if !first.threw {
        StaysStuck(hex, st, first, db);
        FlushedLeaves(hex, first.state, keys[1..], now, db);
        var rest := Flushed(hex, first.state, keys[1..], now);
        LeavesThrice(st, first, rest, rest.threw, db);
      }
    }
  }

  lemma ApplyLeaves(hex: Hex, caps: Caps, st: State, e: Event, db: string)
    requires Filed(st) && Stuck(hex, st, db)
    ensures Leaves(st, Apply(hex, caps, st, e), db)
  {
    match e
    case Add(c, now, later) =>
      if Admit(c).Ok? {
        AddedLeaves(hex, caps, st, Admit(c).value, c, now, later, db);
      }
    case Sweep(now) => SweptLeaves(hex, caps, st, st.order, now, db);
    case FlushAll(now) => FlushedLeaves(hex, st, st.order, now, db);
  }

  lemma {:induction false} OthersOnly(closed: seq<SealReady>, more: seq<SealReady>, db: string)
    requires forall s | s in more :: s.dbId != db
    ensures SegmentsOf(closed + more, db) == SegmentsOf(closed, db)
  {
    if more == [] {
      assert closed + more == closed;
    } else {
      assert (closed + more)[..|closed + more| - 1] == closed + more[..|more| - 1];
      OthersOnly(closed, more[..|more| - 1], db);
    }
  }

  lemma StuckStep(hex: Hex, caps: Caps, h: History, e: Event, db: string)
    requires Filed(h.state) && Stuck(hex, h.state, db)
    ensures var next := Next(hex, caps, h, e);
      Stuck(hex, next.state, db) && SegmentsOf(next.closed, db) == SegmentsOf(h.closed, db)
  {
    var step := Apply(hex, caps, h.state, e);
    ApplyLeaves(hex, caps, h.state, e, db);
    StaysStuck(hex, h.state, step, db);
    OthersOnly(h.closed, step.closed, db);
  }

  /**
   Two envelopes that cannot be compared block their database for good: in no continuation of a
   run is the buffer that holds them ever closed, nor any later segment of that database.
   */
  lemma {:induction false} ClashIsForever(hex: Hex, caps: Caps, events: seq<Event>, more: seq<Event>, db: string)
    requires caps.maxEvents >= 1 && Stuck(hex, Run(hex, caps, events).state, db)
    ensures Stuck(hex, Run(hex, caps, events + more).state, db)
    ensures SegmentsOf(Run(hex, caps, events + more).closed, db) == SegmentsOf(Run(hex, caps, events).closed, db)
  {
    if more == [] {
      assert events + more == events;
    } else {
      var before := events + more[..|more| - 1];
      assert (events + more)[..|events + more| - 1] == before;
      ClashIsForever(hex, caps, events, more[..|more| - 1], db);
      EveryRunBalances(hex, caps, before);
      WellOpenIsFiled(hex, caps, Run(hex, caps, before).state);
      StuckStep(hex, caps, Run(hex, caps, before), more[|more| - 1], db);
    }
  }

  lemma WellOpenIsFiled(hex: Hex, caps: Caps, st: State)
    requires AllWellOpen(hex, caps, st)
    ensures Filed(st)
  {
    forall k | k in st.open ensures st.open[k].dbId == k {
      assert WellOpen(hex, caps, st.open[k], k, NextSeq(st, k));
    }
  }

  // ---------- runs in which every row can be identified ----------

  ghost predicate AllIdentified(st: State) {
    forall db, i | db in st.open && 0 <= i < |st.open[db].objects| :: RowIsIdentified(st.open[db].objects[i])
  }

  lemma IdentifiedStepCloses(hex: Hex, st: State, db: string, trigger: SealTrigger, now: Instant)
    requires AllIdentified(st) && db in st.open && st.open[db].objects != []
    ensures var step := CloseStep(hex, st, db, trigger, now); !step.threw && AllIdentified(step.state)
  {
    IdentifiedIsSortable(hex, st.open[db].objects);
    CloseStepThrowsIff(hex, st, db, trigger, now);
  }

  lemma {:induction false} IdentifiedSweep(hex: Hex, caps: Caps, st: State, keys: seq<string>, now: Instant)
    requires AllIdentified(st)
    ensures var step := Swept(hex, caps, st, keys, now); !step.threw && AllIdentified(step.state)
    decreases |keys|
  {
    if keys != [] {
      if keys[0] in st.open && st.open[keys[0]].objects != [] {
        IdentifiedStepCloses(hex, st, keys[0], TimeCap, now);
      }
      IdentifiedSweep(hex, caps, CloseIfAged(hex, caps, st, keys[0], now).state, keys[1..], now);
    }
  }

  lemma {:induction false} IdentifiedFlush(hex: Hex, st: State, keys: seq<string>, now: Instant)
    requires AllIdentified(st)
    ensures var step := Flushed(hex, st, keys, now); !step.threw && AllIdentified(step.state)
    decreases |keys|
  {
    if keys != [] {
      if keys[0] in st.open && st.open[keys[0]].objects != [] {
        IdentifiedStepCloses(hex, st, keys[0], Flush, now);
      }
      IdentifiedFlush(hex, FlushOne(hex, st, keys[0], now).state, keys[1..], now);
    }
  }

  lemma IdentifiedPush(hex: Hex, caps: Caps, st: State, db: string, c: Cce, now: Instant, later: Instant)
    requires AllIdentified(st) && RowIsIdentified(c)
    ensures var step := PushStep(hex, caps, st, db, c, now, later); !step.threw && AllIdentified(step.state)
  {
    var pushed := Pushed(WithOpen(st, db, OrEmpty(Engine(c)), now), db, c);
    forall k, i | k in pushed.open && 0 <= i < |pushed.open[k].objects| ensures RowIsIdentified(pushed.open[k].objects[i]) {
      assert k in st.open && i < |st.open[k].objects| ==> pushed.open[k].objects[i] == st.open[k].objects[i];
    }
    IdentifiedStepCloses(hex, pushed, db, EventCountCap, later);
  }

  lemma IdentifiedAdd(hex: Hex, caps: Caps, st: State, db: string, c: Cce, now: Instant, later: Instant)
    requires AllIdentified(st) && RowIsIdentified(c)
    ensures !CloseIfAged(hex, caps, st, db, now).threw
    ensures var step := Added(hex, caps, st, db, c, now, later); !step.threw && AllIdentified(step.state)
  {
    if db in st.open && st.open[db].objects != [] {
      IdentifiedStepCloses(hex, st, db, TimeCap, now);
    }
    IdentifiedPush(hex, caps, CloseIfAged(hex, caps, st, db, now).state, db, c, now, later);
  }

  /** When every row can be identified nothing throws: every closed segment is handed over, no envelope refused. */
  lemma {:induction false} IdentifiedRunsLoseNothing(hex: Hex, caps: Caps, events: seq<Event>)
    requires forall i | 0 <= i < |events| && Arrives(events[i]) :: RowIsIdentified(events[i].c)
    ensures var h := Run(hex, caps, events);
      h.emitted == h.closed && h.lost == [] && h.refused == [] && AllIdentified(h.state)
  {
    if events != [] {
      var e := events[|events| - 1];
      IdentifiedRunsLoseNothing(hex, caps, events[..|events| - 1]);
      var h := Run(hex, caps, events[..|events| - 1]);
      match e
      case Add(c, now, later) =>
        if Admit(c).Ok? {
          IdentifiedAdd(hex, caps, h.state, Admit(c).value, c, now, later);
        }
      case Sweep(now) => IdentifiedSweep(hex, caps, h.state, h.state.order, now);
      case FlushAll(now) => IdentifiedFlush(hex, h.state, h.state.order, now);
    }
  }

  // ---------- runs of one database ----------

  lemma {:induction false} NothingAdmittedElsewhere(admitted: seq<Cce>, db: string, other: string)
    requires other != db && forall i | 0 <= i < |admitted| :: DbId(admitted[i]) == Some(db)
    ensures AdmittedTo(admitted, other) == multiset{}
  {
    if admitted != [] {
      NothingAdmittedElsewhere(admitted[..|admitted| - 1], db, other);
    }
  }

  lemma {:induction false} ClosedIsListed(closed: seq<SealReady>, i: nat)
    requires i < |closed|
    ensures closed[i] in SegmentsOf(closed, closed[i].dbId)
  {
    if i < |closed| - 1 {
      ClosedIsListed(closed[..|closed| - 1], i);
    }
  }

  lemma {:induction false} OnlyOneDatabase(closed: seq<SealReady>, db: string)
    requires forall i | 0 <= i < |closed| :: closed[i].dbId == db
    ensures SegmentsOf(closed, db) == closed
  {
    if closed != [] {
      OnlyOneDatabase(closed[..|closed| - 1], db);
      InitAndLast(closed);
    }
  }

  lemma {:induction false} ObjectsOfListed(segments: seq<SealReady>, s: SealReady)
    requires s in segments && s.objects != []
    ensures ObjectsIn(segments) != multiset{}
  {
    var last := segments[|segments| - 1];
    if s == last {
      assert s.objects[0] in multiset(last.objects);
      assert s.objects[0] in ObjectsIn(segments);
    } else {
      InitAndLast(segments);
      ObjectsOfListed(segments[..|segments| - 1], s);
      var x :| x in ObjectsIn(segments[..|segments| - 1]);
      assert x in ObjectsIn(segments);
    }
  }

  /** When all envelopes are of one database, so are the segments, numbered in the order they were closed. */
  lemma {:induction false} OneDatabaseIsNumbered(hex: Hex, caps: Caps, h: History, db: string)
    requires Inv(hex, caps, h) && forall i | 0 <= i < |h.admitted| :: DbId(h.admitted[i]) == Some(db)
    ensures forall i | 0 <= i < |h.closed| :: h.closed[i].dbId == db && h.closed[i].segmentSequence == i
  {
    forall i | 0 <= i < |h.closed| ensures h.closed[i].dbId == db {
      var s := h.closed[i];
      assert WellClosed(caps, s) && Accounts(h, s.dbId);
      ClosedIsListed(h.closed, i);
      ObjectsOfListed(SegmentsOf(h.closed, s.dbId), s);
      if s.dbId != db {
        NothingAdmittedElsewhere(h.admitted, db, s.dbId);
      }
    }
    OnlyOneDatabase(h.closed, db);
    assert Accounts(h, db);
  }

  /** Only this database has an open segment, and every closed segment has been handed over. */
  ghost predicate Single(h: History, db: string) {
    && (forall k | k in h.state.open :: k == db)
    && (forall i | 0 <= i < |h.admitted| :: DbId(h.admitted[i]) == Some(db))
    && h.emitted == h.closed && h.lost == []
  }

  lemma OneKeyAtMost(st: State, db: string)
    requires Ordered(st) && forall k | k in st.open :: k == db
    ensures |st.order| <= 1
  {
    assert |st.order| >= 2 ==> st.order[0] != st.order[1];
    forall i | 0 <= i < |st.order| ensures st.order[i] == db {
      assert st.order[i] in st.order;
    }
  }

  lemma SweepOfOne(hex: Hex, caps: Caps, st: State, keys: seq<string>, now: Instant)
    requires |keys| <= 1
    ensures var step := Swept(hex, caps, st, keys, now);
      (step.threw ==> step.closed == []) && forall k | k in step.state.open :: k in st.open
  {
    if keys != [] {
      assert keys[1..] == [];
    }
  }

  lemma FlushOfOne(hex: Hex, st: State, keys: seq<string>, now: Instant)
    requires |keys| <= 1
    ensures var step := Flushed(hex, st, keys, now);
      (step.threw ==> step.closed == []) && forall k | k in step.state.open :: k in st.open
  {
    if keys != [] {
      assert keys[1..] == [];
    }
  }

  /** With one database an exception never takes a closed segment with it. */
  lemma OneDatabaseLosesNothing(hex: Hex, caps: Caps, h: History, e: Event, db: string)
    requires Inv(hex, caps, h) && caps.maxEvents >= 1 && Single(h, db)
    requires Arrives(e) ==> DbId(e.c) == Some(db)
    ensures Single(Next(hex, caps, h, e), db)
  {
    ApplyToOne(hex, caps, h.state, e, db);
    AdmittedStaysSingle(h.admitted, if Reaches(hex, caps, h.state, e) then [e.c] else [], db);
  }

  lemma AdmittedStaysSingle(admitted: seq<Cce>, more: seq<Cce>, db: string)
    requires forall i | 0 <= i < |admitted| :: DbId(admitted[i]) == Some(db)
    requires forall i | 0 <= i < |more| :: DbId(more[i]) == Some(db)
    ensures forall i | 0 <= i < |admitted + more| :: DbId((admitted + more)[i]) == Some(db)
  {
  }

  lemma ApplyToOne(hex: Hex, caps: Caps, st: State, e: Event, db: string)
    requires Ordered(st) && caps.maxEvents >= 1 && forall k | k in st.open :: k == db
    requires Arrives(e) ==> DbId(e.c) == Some(db)
    ensures var step := Apply(hex, caps, st, e); (step.threw ==> step.closed == []) && forall k | k in step.state.open :: k == db
  {
    OneKeyAtMost(st, db);
    match e
    case Add(c, now, later) =>
      if Admit(c).Ok? {
        AddThrowsIff(hex, caps, st, Admit(c).value, c, now, later);
        assert Arrives(e);
      }
    case Sweep(now) => SweepOfOne(hex, caps, st, st.order, now);
    case FlushAll(now) => FlushOfOne(hex, st, st.order, now);
  }
}

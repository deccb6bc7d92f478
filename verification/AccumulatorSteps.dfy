/**
 What one operation of the accumulator does and what a closed segment says, outright: which segments
 it closes, from which instants, with which objects in which order, and why.
 */
module AccumulatorSteps {
  import opened Outcomes
  import opened Instants
  import opened CceModel
  import opened CceOrder
  import opened ManifestModel
  import opened ManifestBuilder
  import opened Accumulation
  import opened AccumulatorRuns
  import opened Sequences
  import opened Sorting
  import opened Texts

  // ---------- what a closed segment says ----------

  ghost predicate InState(c: Cce, state: string) {
    FidelityState(c) == Some(state)
  }

  ghost function IndicesIn(cs: seq<Cce>, state: string): set<int> {
    set i | 0 <= i < |cs| && InState(cs[i], state)
  }

  lemma IndicesStep(most: seq<Cce>, c: Cce, state: string)
    ensures IndicesIn(most + [c], state) == IndicesIn(most, state) + if InState(c, state) then {|most|} else {}
  {
    var cs := most + [c];
    forall i ensures i in IndicesIn(cs, state) <==> i in IndicesIn(most, state) || (InState(c, state) && i == |most|) {
      if 0 <= i < |most| {
        assert cs[i] == most[i];
      }
    }
  }

  lemma {:induction false} CountIsOfIndices(cs: seq<Cce>, state: string)
    ensures CountState(cs, state) == |IndicesIn(cs, state)|
  {
    if cs == [] {
      assert IndicesIn(cs, state) == {};
    } else {
      var most, c := cs[..|cs| - 1], cs[|cs| - 1];
      CountIsOfIndices(most, state);
      assert cs == most + [c];
      IndicesStep(most, c, state);
      assert |most| !in IndicesIn(most, state);
    }
  }

  /** Some unhealthy envelope gives this reason. */
  ghost predicate GivesReason(cs: seq<Cce>, reason: string) {
    reason != "" && exists i | 0 <= i < |cs| :: !InState(cs[i], "HEALTHY") && DegradedReason(cs[i]) == Some(reason)
  }

  lemma {:induction false} ReasonsAreGiven(cs: seq<Cce>)
    ensures forall r :: r in Reasons(cs) <==> GivesReason(cs, r)
    ensures forall i, j | 0 <= i < j < |Reasons(cs)| :: Reasons(cs)[i] != Reasons(cs)[j]
  {
    if cs != [] {
      var most, last := cs[..|cs| - 1], cs[|cs| - 1];
      ReasonsAreGiven(most);
      forall r ensures GivesReason(cs, r) <==> GivesReason(most, r) || (HasReason(last) && DegradedReason(last) == Some(r)) {
        assert forall i | 0 <= i < |most| :: cs[i] == most[i];
        if HasReason(last) && DegradedReason(last) == Some(r) {
          assert !InState(cs[|cs| - 1], "HEALTHY");
        }
      }
    }
  }

  /** Exactly the reasons given, strictly ascending. */
  ghost predicate ListsReasons(cs: seq<Cce>, reasons: seq<string>) {
    && (forall r :: r in reasons <==> GivesReason(cs, r))
    && forall i, j | 0 <= i < j < |reasons| :: CompareStrings(reasons[i], reasons[j]) < 0
  }

  lemma SortedReasons(cs: seq<Cce>)
    ensures ListsReasons(cs, Sort(CompareStrings, Reasons(cs)))
  {
    var before, after := Reasons(cs), Sort(CompareStrings, Reasons(cs));
    ReasonsAreGiven(cs);
    CompareStringsSorts(before);
    SortSorts(CompareStrings, before);
    forall r ensures r in after <==> r in before {
      InMultiset(after, before, r);
    }
    forall i, j | 0 <= i < j < |after| ensures CompareStrings(after[i], after[j]) < 0 {
      TwoPlaces(after, i, j);
      if after[i] == after[j] {
        var k, l := FindTwo(before, after[i]);
      }
      CompareStringsIsTotal(after[i], after[j]);
    }
  }

  /** The summaries count the envelopes in either state, list the reasons, and tell whether any reports a gap. */
  ghost predicate Summarizes(s: SealReady) {
    && s.fidelity.degraded == |IndicesIn(s.objects, "DEGRADED")|
    && s.fidelity.compromised == |IndicesIn(s.objects, "COMPROMISED")|
    && (s.fidelity.allHealthy <==>
          forall i | 0 <= i < |s.objects| :: !InState(s.objects[i], "DEGRADED") && !InState(s.objects[i], "COMPROMISED"))
    && ListsReasons(s.objects, s.fidelity.reasons)
    && (s.completeness.gapDetected <==> exists i | 0 <= i < |s.objects| :: GapDetected(s.objects[i]) == Some(true))
    && s.completeness.expectedContinuous != s.completeness.gapDetected && s.completeness.notes == []
  }

  /** The lists are those of the objects, position by position. */
  ghost predicate ListsItsObjects(s: SealReady) {
    && s.objects != [] && s.eventCount == |s.objects| == |s.objectList| == |s.objectHashList|
    && forall i | 0 <= i < |s.objects| ::
         && s.objectList[i] == ObjectRef(i, OrEmpty(EnvelopeId(s.objects[i])),
                                         s.dbId + "/" + s.segmentId + "/" + PadSix(i) + ".cce.json")
         && s.objectHashList[i] == ObjectHash(i, s.objects[i].evidence.eventHash, s.objects[i].evidence.rowHash)
  }

  /** The ends are those of the first and the last object. */
  ghost predicate NamesItsEnds(s: SealReady) {
    s.objects != [] &&
    var first, last := s.objects[0], s.objects[|s.objects| - 1];
    && s.firstEnvelopeId == OrEmpty(EnvelopeId(first)) && s.lastEnvelopeId == OrEmpty(EnvelopeId(last))
    && s.firstRowHash == first.evidence.rowHash && s.lastRowHash == last.evidence.rowHash
    && s.offsets.firstOffsetKey == OrEmpty(ConsumedOffsetKey(first))
    && s.offsets.lastOffsetKey == OrEmpty(ConsumedOffsetKey(last))
    && OrEmpty(s.offsets.consumedGtidSet) == OrEmpty(ConsumedGtidSet(last)) && s.offsets.consumedGtidSet != Some("")
  }

  /** The same envelopes, none before one that the global order puts after it. */
  ghost predicate InGlobalOrder(hex: Hex, ordered: seq<Cce>, buffer: seq<Cce>) {
    && multiset(ordered) == multiset(buffer)
    && forall i, j | 0 <= i < j < |ordered| :: CompareCce(hex)(ordered[i], ordered[j]).Ok? && CompareCce(hex)(ordered[i], ordered[j]).value <= 0
  }

  /** `s` is the segment `seg`, closed at that instant for that reason. */
  ghost predicate Carries(hex: Hex, s: SealReady, seg: OpenSegment, trigger: SealTrigger, at: Instant) {
    && s.dbId == seg.dbId && s.engine == seg.engine
    && s.segmentId == seg.segmentId && s.segmentSequence == seg.segmentSequence
    && s.openedAt == seg.openedAt.text && s.closedAt == at.text && s.trigger == trigger
    && InGlobalOrder(hex, s.objects, seg.objects) && ListsItsObjects(s) && NamesItsEnds(s) && Summarizes(s)
  }

  lemma OrderedIsGlobal(hex: Hex, cs: seq<Cce>)
    requires OrderCces(hex, cs).Ok?
    ensures InGlobalOrder(hex, OrderCces(hex, cs).value, cs)
  {
    var ordered := OrderCces(hex, cs).value;
    OrderIsPermutation(hex, cs);
    OrderThrowsIff(hex, cs);
    SortablePermuted(hex, ordered, cs);
    RankIsConsistent(hex);
    SortSorts(RankCce(hex), cs);
    forall i, j | 0 <= i < j < |ordered|
      ensures CompareCce(hex)(ordered[i], ordered[j]).Ok? && CompareCce(hex)(ordered[i], ordered[j]).value <= 0
    {
      assert !Clashes(hex)(ordered[i], ordered[j]);
      ComparisonThrowsIff(KeyOf(hex, ordered[i]), KeyOf(hex, ordered[j]));
      ComparisonIsLexicographic(KeyOf(hex, ordered[i]), KeyOf(hex, ordered[j]));
    }
  }

  lemma DescribedSummarizes(s: SealReady)
    requires s.fidelity == FidelityOf(s.objects)
    requires s.completeness == CompletenessSummary(AnyGap(s.objects), !AnyGap(s.objects), [])
    ensures Summarizes(s)
  {
    CountIsOfIndices(s.objects, "DEGRADED");
    CountIsOfIndices(s.objects, "COMPROMISED");
    SortedReasons(s.objects);
    NoIndexIff(s.objects, "DEGRADED");
    NoIndexIff(s.objects, "COMPROMISED");
  }

  lemma NoIndexIff(cs: seq<Cce>, state: string)
    ensures |IndicesIn(cs, state)| == 0 <==> forall i | 0 <= i < |cs| :: !InState(cs[i], state)
  {
    if |IndicesIn(cs, state)| == 0 {
      forall i | 0 <= i < |cs| ensures !InState(cs[i], state) {
        assert i !in IndicesIn(cs, state);
      }
    }
    if forall i | 0 <= i < |cs| :: !InState(cs[i], state) {
      assert IndicesIn(cs, state) == {};
    }
  }

  lemma DescriptionLists(seg: OpenSegment, trigger: SealTrigger, at: string, cs: seq<Cce>)
    requires cs != []
    ensures ListsItsObjects(Describe(seg, trigger, at, cs))
  {
  }

  lemma DescriptionNamesEnds(seg: OpenSegment, trigger: SealTrigger, at: string, cs: seq<Cce>)
    requires cs != []
    ensures NamesItsEnds(Describe(seg, trigger, at, cs))
  {
  }

  /** Closing an open segment gives that segment, in the global order. */
  lemma ClosedCarries(hex: Hex, seg: OpenSegment, trigger: SealTrigger, at: Instant)
    requires seg.objects != [] && Close(hex, seg, trigger, at).Ok?
    ensures Carries(hex, Close(hex, seg, trigger, at).value, seg, trigger, at)
  {
    OrderIsPermutation(hex, seg.objects);
    var cs := OrderCces(hex, seg.objects).value;
    OrderedIsGlobal(hex, seg.objects);
    DescriptionCarries(hex, seg, trigger, at, cs);
  }

  lemma DescriptionCarries(hex: Hex, seg: OpenSegment, trigger: SealTrigger, at: Instant, cs: seq<Cce>)
    requires cs != [] && InGlobalOrder(hex, cs, seg.objects)
    ensures Carries(hex, Describe(seg, trigger, at.text, cs), seg, trigger, at)
  {
    DescriptionLists(seg, trigger, at.text, cs);
    DescriptionNamesEnds(seg, trigger, at.text, cs);
    DescribedSummarizes(Describe(seg, trigger, at.text, cs));
  }

  // ---------- what gets in ----------

  /** Admitted are exactly the transactions with a database, an engine, an id, two hashes, a fidelity state and an offset key. */
  lemma AdmittedIff(c: Cce, db: string)
    ensures Admit(c) == Ok(db) <==>
      && StringOf(Field(c.core, "kind")) == Some("transaction")
      && db != "" && StringOf(Field(Field(c.core, "source"), "db_id")) == Some(db)
      && (exists engine :: engine != "" && StringOf(Field(Field(c.core, "source"), "engine")) == Some(engine))
      && (exists id :: id != "" && StringOf(Field(c.core, "envelope_id")) == Some(id))
      && c.evidence.eventHash.Hash? && c.evidence.rowHash.Hash?
      && StringOf(Field(Field(c.core, "fidelity"), "state")).Some?
      && StringOf(Field(Field(c.core, "completeness"), "consumed_offset_key")).Some?
  {
    if Admit(c).Ok? {
      assert Engine(c) == Some(Engine(c).value) && EnvelopeId(c) == Some(EnvelopeId(c).value);
    }
  }

  // ---------- which segments an operation closes ----------

  /** The databases whose time is up. */
  ghost function DueSet(caps: Caps, st: State, now: Instant): set<string> {
    set k | k in st.open && Due(caps, st, k, now)
  }

  ghost function FilledSet(st: State): set<string> {
    set k | k in st.open && st.open[k].objects != []
  }

  /** The chosen ones of these keys, in order. */
  ghost function Chosen(chosen: set<string>, keys: seq<string>): seq<string> {
    if keys == [] then [] else (if keys[0] in chosen then [keys[0]] else []) + Chosen(chosen, keys[1..])
  }

  lemma {:induction false} ChosenAgree(a: set<string>, b: set<string>, keys: seq<string>)
    requires forall k | k in keys :: k in a <==> k in b
    ensures Chosen(a, keys) == Chosen(b, keys)
  {
    if keys != [] {
      assert keys[0] in keys;
      ChosenAgree(a, b, keys[1..]);
    }
  }

  lemma {:induction false} ChosenAreKeys(chosen: set<string>, keys: seq<string>)
    ensures forall k :: k in Chosen(chosen, keys) <==> k in keys && k in chosen
  {
    if keys != [] {
      ChosenAreKeys(chosen, keys[1..]);
      assert keys == [keys[0]] + keys[1..];
    }
  }

  /** What is to be shown of a closed segment and the open one it was. */
  type Relation = (SealReady, OpenSegment) -> bool

  ghost predicate HoldsWhenClosed(hex: Hex, rel: Relation, trigger: SealTrigger, at: Instant) {
    forall seg: OpenSegment | seg.objects != [] && Close(hex, seg, trigger, at).Ok? :: rel(Close(hex, seg, trigger, at).value, seg)
  }

  /** The segments of these databases were closed, one each, in this order. */
  ghost predicate ClosedAre(rel: Relation, open: map<string, OpenSegment>, closed: seq<SealReady>, dbs: seq<string>) {
    |closed| == |dbs| && forall i | 0 <= i < |dbs| :: dbs[i] in open && rel(closed[i], open[dbs[i]])
  }

  /**
   Of these keys the `gone` ones have no open segment any more, and the `closed` ones go on with the
   next number; every other segment is as it was.
   */
  ghost predicate Leaves(st: State, next: State, keys: seq<string>, gone: set<string>, closed: set<string>) {
    && (forall k :: k in next.open <==> k in st.open && !(k in keys && k in gone))
    && (forall k | k in next.open :: next.open[k] == st.open[k])
    && (forall k :: NextSeq(next, k) == if k in st.open && k in keys && k in closed then st.open[k].segmentSequence + 1 else NextSeq(st, k))
  }

  lemma ClosedThen(rel: Relation, open: map<string, OpenSegment>, later: map<string, OpenSegment>, a: seq<SealReady>, b: seq<SealReady>,
                   first: seq<string>, rest: seq<string>)
    requires ClosedAre(rel, open, a, first) && ClosedAre(rel, later, b, rest)
    requires forall k | k in rest && k in later :: k in open && later[k] == open[k]
    ensures ClosedAre(rel, open, a + b, first + rest)
  {
  }

  lemma LeavesThen(st: State, next: State, last: State, key: string, keys: seq<string>,
                   gone: set<string>, closed: set<string>, goneThen: set<string>, closedThen: set<string>)
    requires Leaves(st, next, [key], gone, closed) && Leaves(next, last, keys, goneThen, closedThen)
    requires key !in keys && forall k | k in keys :: (k in gone <==> k in goneThen) && (k in closed <==> k in closedThen)
    ensures Leaves(st, last, [key] + keys, gone, closed)
  {
    assert forall k :: k in [key] + keys <==> k == key || k in keys;
  }

  lemma LeavesOne(st: State, next: State, db: string, gone: set<string>, closed: set<string>)
    requires Leaves(st, next, [db], {db}, {db}) && db in gone && db in closed
    ensures Leaves(st, next, [db], gone, closed)
  {
  }

  lemma LeavesNone(st: State, next: State, db: string, gone: set<string>, closed: set<string>)
    requires next == st && (db in st.open ==> db !in gone && db !in closed)
    ensures Leaves(st, next, [db], gone, closed)
  {
  }

  lemma ClosingOne(hex: Hex, rel: Relation, st: State, db: string, trigger: SealTrigger, now: Instant)
    requires HoldsWhenClosed(hex, rel, trigger, now)
    requires db in st.open && st.open[db].objects != [] && !CloseStep(hex, st, db, trigger, now).threw
    ensures var step := CloseStep(hex, st, db, trigger, now);
      |step.closed| == 1 && rel(step.closed[0], st.open[db]) && Leaves(st, step.state, [db], {db}, {db})
  {
  }

  lemma OneSwept(hex: Hex, rel: Relation, caps: Caps, st: State, db: string, now: Instant)
    requires HoldsWhenClosed(hex, rel, TimeCap, now) && !CloseIfAged(hex, caps, st, db, now).threw
    ensures var step := CloseIfAged(hex, caps, st, db, now); var due := DueSet(caps, st, now);
      && ClosedAre(rel, st.open, step.closed, if db in due then [db] else []) && Leaves(st, step.state, [db], due, due)
  {
    AgedThrowsIff(hex, caps, st, db, now);
    var step, due := CloseIfAged(hex, caps, st, db, now), DueSet(caps, st, now);
    if Due(caps, st, db, now) {
      ClosingOne(hex, rel, st, db, TimeCap, now);
      LeavesOne(st, step.state, db, due, due);
    } else {
      LeavesNone(st, st, db, due, due);
    }
  }

  lemma OneFlushed(hex: Hex, rel: Relation, st: State, db: string, now: Instant)
    requires HoldsWhenClosed(hex, rel, Flush, now) && !FlushOne(hex, st, db, now).threw
    ensures var step := FlushOne(hex, st, db, now);
      && ClosedAre(rel, st.open, step.closed, if db in FilledSet(st) then [db] else [])
      && Leaves(st, step.state, [db], st.open.Keys, FilledSet(st))
  {
    var step := FlushOne(hex, st, db, now);
    if db in FilledSet(st) {
      ClosingOne(hex, rel, st, db, Flush, now);
      LeavesOne(st, step.state, db, st.open.Keys, FilledSet(st));
    } else {
      DroppingLeaves(st, db);
    }
  }

  lemma DroppingLeaves(st: State, db: string)
    requires db !in FilledSet(st)
    ensures Leaves(st, Drop(st, db), [db], st.open.Keys, FilledSet(st))
  {
  }

  /** One key and then the rest, with the chosen sets agreeing on the rest. */
  lemma GoesOn(rel: Relation, st: State, next: State, last: State, closed: seq<SealReady>, more: seq<SealReady>, key: string, rest: seq<string>,
               gone: set<string>, chosen: set<string>, goneThen: set<string>, chosenThen: set<string>)
    requires key !in rest && Leaves(st, next, [key], gone, chosen) && Leaves(next, last, rest, goneThen, chosenThen)
    requires ClosedAre(rel, st.open, closed, if key in chosen then [key] else [])
    requires ClosedAre(rel, next.open, more, Chosen(chosenThen, rest))
    requires forall k | k in rest :: (k in gone <==> k in goneThen) && (k in chosen <==> k in chosenThen)
    ensures ClosedAre(rel, st.open, closed + more, Chosen(chosen, [key] + rest)) && Leaves(st, last, [key] + rest, gone, chosen)
  {
    ChosenAgree(chosen, chosenThen, rest);
    ChosenAreKeys(chosenThen, rest);
    ClosedThen(rel, st.open, next.open, closed, more, if key in chosen then [key] else [], Chosen(chosenThen, rest));
    LeavesThen(st, next, last, key, rest, gone, chosen, goneThen, chosenThen);
    assert ([key] + rest)[1..] == rest;
  }

  lemma {:induction false} SweepClosesDue(hex: Hex, rel: Relation, caps: Caps, st: State, keys: seq<string>, now: Instant)
    requires HoldsWhenClosed(hex, rel, TimeCap, now)
    requires forall i, j | 0 <= i < j < |keys| :: keys[i] != keys[j]
    requires !Swept(hex, caps, st, keys, now).threw
    ensures var step := Swept(hex, caps, st, keys, now); var due := DueSet(caps, st, now);
      ClosedAre(rel, st.open, step.closed, Chosen(due, keys)) && Leaves(st, step.state, keys, due, due)
    decreases |keys|
  {
    if keys != [] {
      var first, key, rest := CloseIfAged(hex, caps, st, keys[0], now), keys[0], keys[1..];
      var next := first.state;
      SweepClosesDue(hex, rel, caps, next, rest, now);
      OneSwept(hex, rel, caps, st, key, now);
      assert keys == [key] + rest && key !in rest;
      var due, dueThen, more := DueSet(caps, st, now), DueSet(caps, next, now), Swept(hex, caps, next, rest, now);
      GoesOn(rel, st, next, more.state, first.closed, more.closed, key, rest, due, due, dueThen, dueThen);
    }
  }

  lemma {:induction false} FlushClosesFilled(hex: Hex, rel: Relation, st: State, keys: seq<string>, now: Instant)
    requires HoldsWhenClosed(hex, rel, Flush, now)
    requires forall i, j | 0 <= i < j < |keys| :: keys[i] != keys[j]
    requires !Flushed(hex, st, keys, now).threw
    ensures var step := Flushed(hex, st, keys, now); var filled := FilledSet(st);
      ClosedAre(rel, st.open, step.closed, Chosen(filled, keys)) && Leaves(st, step.state, keys, st.open.Keys, filled)
    decreases |keys|
  {
    if keys != [] {
      var first, key, rest := FlushOne(hex, st, keys[0], now), keys[0], keys[1..];
      var next := first.state;
      FlushClosesFilled(hex, rel, next, rest, now);
      OneFlushed(hex, rel, st, key, now);
      assert keys == [key] + rest && key !in rest;
      var filled, filledThen, more := FilledSet(st), FilledSet(next), Flushed(hex, next, rest, now);
      GoesOn(rel, st, next, more.state, first.closed, more.closed, key, rest, st.open.Keys, filled, next.open.Keys, filledThen);
    }
  }

  ghost function CarriesAs(hex: Hex, trigger: SealTrigger, at: Instant): Relation {
    (s, seg) => Carries(hex, s, seg, trigger, at)
  }

  lemma ClosedHolds(hex: Hex, trigger: SealTrigger, at: Instant)
    ensures HoldsWhenClosed(hex, CarriesAs(hex, trigger, at), trigger, at)
  {
    forall seg: OpenSegment | seg.objects != [] && Close(hex, seg, trigger, at).Ok?
      ensures CarriesAs(hex, trigger, at)(Close(hex, seg, trigger, at).value, seg)
    {
      ClosedCarries(hex, seg, trigger, at);
    }
  }

  /**
   A sweep closes exactly the segments with objects whose opening and whose sweep instant parse and lie
   at least `maxAgeMs` apart, each by the time cap; every other stays as it was.
   */
  ghost predicate SweepsExactly(hex: Hex, caps: Caps, st: State, now: Instant, step: Step) {
    && ClosedAre(CarriesAs(hex, TimeCap, now), st.open, step.closed, Chosen(DueSet(caps, st, now), st.order))
    && Leaves(st, step.state, st.order, DueSet(caps, st, now), DueSet(caps, st, now))
  }

  lemma SweepIsExact(hex: Hex, caps: Caps, st: State, now: Instant)
    requires Ordered(st) && !Apply(hex, caps, st, Sweep(now)).threw
    ensures SweepsExactly(hex, caps, st, now, Apply(hex, caps, st, Sweep(now)))
  {
    ClosedHolds(hex, TimeCap, now);
    SweepClosesDue(hex, CarriesAs(hex, TimeCap, now), caps, st, st.order, now);
  }

  /** A flush closes exactly the segments with objects, each by the flush, and leaves none open. */
  ghost predicate FlushesExactly(hex: Hex, st: State, now: Instant, step: Step) {
    && ClosedAre(CarriesAs(hex, Flush, now), st.open, step.closed, Chosen(FilledSet(st), st.order))
    && Leaves(st, step.state, st.order, st.open.Keys, FilledSet(st)) && step.state.open == map[]
  }

  lemma FlushIsExact(hex: Hex, caps: Caps, st: State, now: Instant)
    requires Ordered(st) && !Apply(hex, caps, st, FlushAll(now)).threw
    ensures FlushesExactly(hex, st, now, Apply(hex, caps, st, FlushAll(now)))
  {
    ClosedHolds(hex, Flush, now);
    FlushClosesFilled(hex, CarriesAs(hex, Flush, now), st, st.order, now);
  }

  /** The segment an envelope joins: the open one unless its time is up, or else a new one with the next number. */
  ghost function SegmentFor(caps: Caps, st: State, db: string, c: Cce, now: Instant): OpenSegment {
    if db in st.open && !Due(caps, st, db, now) then st.open[db]
    else
      var n := if db in st.open then st.open[db].segmentSequence + 1 else if db in st.nextSeq then st.nextSeq[db] else 0;
      OpenSegment(db, OrEmpty(Engine(c)), "seg-" + PadSix(n), n, now, [])
  }

  /** What is left open when an envelope has joined its segment and that was closed, or not. */
  ghost predicate Takes(st: State, next: State, db: string, grown: OpenSegment, full: bool) {
    && (forall k | k != db :: (k in next.open <==> k in st.open) && NextSeq(next, k) == NextSeq(st, k))
    && (forall k | k != db && k in next.open :: next.open[k] == st.open[k])
    && (db in next.open <==> !full) && (db in next.open ==> next.open[db] == grown)
    && (full ==> NextSeq(next, db) == grown.segmentSequence + 1)
  }

  /**
   An envelope that is taken closes the segment before it, by the time cap, exactly when its time is
   up; it joins the segment that is then open; and it closes that one, by the count cap, exactly when
   it makes it full.  No other segment changes.
   */
  ghost predicate AddsExactly(hex: Hex, caps: Caps, st: State, db: string, c: Cce, now: Instant, later: Instant, step: Step) {
    var seg, due := SegmentFor(caps, st, db, c, now), Due(caps, st, db, now);
    var grown := seg.(objects := seg.objects + [c]);
    var full := |grown.objects| >= caps.maxEvents;
    && |step.closed| == (if due then 1 else 0) + (if full then 1 else 0)
    && (due ==> Carries(hex, step.closed[0], st.open[db], TimeCap, now))
    && (full ==> Carries(hex, step.closed[|step.closed| - 1], grown, EventCountCap, later))
    && Takes(st, step.state, db, grown, full)
  }

  lemma AddIsExact(hex: Hex, caps: Caps, st: State, db: string, c: Cce, now: Instant, later: Instant)
    requires Admit(c) == Ok(db) && !Apply(hex, caps, st, Add(c, now, later)).threw
    ensures AddsExactly(hex, caps, st, db, c, now, later, Apply(hex, caps, st, Add(c, now, later)))
  {
    var relA, relB := CarriesAs(hex, TimeCap, now), CarriesAs(hex, EventCountCap, later);
    ClosedHolds(hex, TimeCap, now);
    ClosedHolds(hex, EventCountCap, later);
    AddingCloses(hex, relA, relB, caps, st, db, c, now, later);
  }

  lemma AddingCloses(hex: Hex, relA: Relation, relB: Relation, caps: Caps, st: State, db: string, c: Cce, now: Instant, later: Instant)
    requires HoldsWhenClosed(hex, relA, TimeCap, now) && HoldsWhenClosed(hex, relB, EventCountCap, later)
    requires !Added(hex, caps, st, db, c, now, later).threw
    ensures
      var step, seg := Added(hex, caps, st, db, c, now, later), SegmentFor(caps, st, db, c, now);
      var grown, due := seg.(objects := seg.objects + [c]), Due(caps, st, db, now);
      var full := |grown.objects| >= caps.maxEvents;
      && |step.closed| == (if due then 1 else 0) + (if full then 1 else 0)
      && (due ==> relA(step.closed[0], st.open[db]))
      && (full ==> relB(step.closed[|step.closed| - 1], grown))
      && Takes(st, step.state, db, grown, full)
  {
    var aged := CloseIfAged(hex, caps, st, db, now);
    var ready := WithOpen(aged.state, db, OrEmpty(Engine(c)), now);
    OneSwept(hex, relA, caps, st, db, now);
    ReadyIs(caps, st, aged.state, db, c, now);
    PushingCloses(hex, relB, caps, ready, db, c, later);
    var seg := SegmentFor(caps, st, db, c, now);
    TakesThen(st, ready, CloseIfFull(hex, caps, Pushed(ready, db, c), db, later).state, db, seg.(objects := seg.objects + [c]),
              |seg.objects| + 1 >= caps.maxEvents);
  }

  /** Only the segment of `db` may differ, and it is this one. */
  ghost predicate ReadyFor(st: State, ready: State, db: string, seg: OpenSegment) {
    && (forall k | k != db :: (k in ready.open <==> k in st.open) && NextSeq(ready, k) == NextSeq(st, k))
    && (forall k | k != db && k in ready.open :: ready.open[k] == st.open[k])
    && db in ready.open && ready.open[db] == seg
  }

  lemma ReadyIs(caps: Caps, st: State, aged: State, db: string, c: Cce, now: Instant)
    requires Leaves(st, aged, [db], DueSet(caps, st, now), DueSet(caps, st, now))
    ensures ReadyFor(st, WithOpen(aged, db, OrEmpty(Engine(c)), now), db, SegmentFor(caps, st, db, c, now))
  {
  }

  lemma PushingCloses(hex: Hex, rel: Relation, caps: Caps, ready: State, db: string, c: Cce, later: Instant)
    requires HoldsWhenClosed(hex, rel, EventCountCap, later) && db in ready.open
    requires !CloseIfFull(hex, caps, Pushed(ready, db, c), db, later).threw
    ensures var full := CloseIfFull(hex, caps, Pushed(ready, db, c), db, later); var seg := ready.open[db];
      var grown := seg.(objects := seg.objects + [c]); var isFull := |grown.objects| >= caps.maxEvents;
      && |full.closed| == (if isFull then 1 else 0) && (isFull ==> rel(full.closed[0], grown))
      && Takes(ready, full.state, db, grown, isFull)
  {
    if |ready.open[db].objects| + 1 >= caps.maxEvents {
      ClosingOne(hex, rel, Pushed(ready, db, c), db, EventCountCap, later);
    }
  }

  lemma TakesThen(st: State, ready: State, last: State, db: string, grown: OpenSegment, full: bool)
    requires Takes(ready, last, db, grown, full)
    requires forall k | k != db :: (k in ready.open <==> k in st.open) && NextSeq(ready, k) == NextSeq(st, k)
    requires forall k | k != db && k in ready.open :: ready.open[k] == st.open[k]
    ensures Takes(st, last, db, grown, full)
  {
  }

  lemma ThrowingPushLeaves(hex: Hex, caps: Caps, st: State, db: string, c: Cce, now: Instant, later: Instant)
    requires !Due(caps, st, db, now) && PushStep(hex, caps, st, db, c, now, later).threw
    ensures
      var step, seg := PushStep(hex, caps, st, db, c, now, later), SegmentFor(caps, st, db, c, now);
      step.closed == [] && step.state.nextSeq == st.nextSeq && step.state.open == st.open[db := seg.(objects := seg.objects + [c])]
  {
  }

  /** An add that throws has closed nothing; the envelope stays in its buffer unless the aged segment was in the way. */
  lemma ThrowingAddLeaves(hex: Hex, caps: Caps, st: State, db: string, c: Cce, now: Instant, later: Instant)
    requires Admit(c) == Ok(db) && Apply(hex, caps, st, Add(c, now, later)).threw
    ensures
      var step, seg := Apply(hex, caps, st, Add(c, now, later)), SegmentFor(caps, st, db, c, now);
      && step.closed == [] && step.state.nextSeq == st.nextSeq
      && step.state.open == if Due(caps, st, db, now) then st.open else st.open[db := seg.(objects := seg.objects + [c])]
  {
    AgedThrowsIff(hex, caps, st, db, now);
    var aged := CloseIfAged(hex, caps, st, db, now);
    if !aged.threw {
      PushThrowsIff(hex, caps, aged.state, db, c, now, later);
      ThrowsOnOldBuffer(hex, caps, st, aged.state, db, c, now);
      ThrowingPushLeaves(hex, caps, st, db, c, now, later);
    }
  }

  /** A segment just opened holds one envelope, and one envelope can always be ordered. */
  lemma ThrowsOnOldBuffer(hex: Hex, caps: Caps, st: State, aged: State, db: string, c: Cce, now: Instant)
    requires !Sortable(hex, Buffered(aged, db) + [c])
    requires if Due(caps, st, db, now) then Buffered(aged, db) == [] else aged == st
    ensures !Due(caps, st, db, now)
  {
    assert [] + [c] == [c];
    IdentifiedIsSortable(hex, [c]);
  }

  /** The sweep of these keys got to the end, and the next key is due and cannot be ordered. */
  ghost predicate StopsAt(hex: Hex, caps: Caps, st: State, keys: seq<string>, key: string, now: Instant) {
    var step := Swept(hex, caps, st, keys, now);
    !step.threw && Due(caps, step.state, key, now) && !Sortable(hex, step.state.open[key].objects)
  }

  lemma SweptCons(hex: Hex, caps: Caps, st: State, key: string, rest: seq<string>, now: Instant)
    requires !CloseIfAged(hex, caps, st, key, now).threw
    ensures var first := CloseIfAged(hex, caps, st, key, now); var more := Swept(hex, caps, first.state, rest, now);
      Swept(hex, caps, st, [key] + rest, now) == Step(more.state, first.closed + more.closed, more.threw)
  {
    assert ([key] + rest)[1..] == rest;
  }

  lemma StopsLater(hex: Hex, caps: Caps, st: State, first: string, keys: seq<string>, key: string, now: Instant)
    requires !CloseIfAged(hex, caps, st, first, now).threw
    requires StopsAt(hex, caps, CloseIfAged(hex, caps, st, first, now).state, keys, key, now)
    ensures StopsAt(hex, caps, st, [first] + keys, key, now)
  {
    SweptCons(hex, caps, st, first, keys, now);
  }

  lemma StopsAtOnce(hex: Hex, caps: Caps, st: State, keys: seq<string>, now: Instant)
    requires keys != [] && CloseIfAged(hex, caps, st, keys[0], now).threw
    ensures StopsAt(hex, caps, st, keys[..0], keys[0], now)
    ensures Swept(hex, caps, st, keys, now) == Swept(hex, caps, st, keys[..0], now).(threw := true)
  {
    AgedThrowsIff(hex, caps, st, keys[0], now);
  }

  lemma SameStop(hex: Hex, caps: Caps, st: State, key: string, rest: seq<string>, j: nat, now: Instant)
    requires !CloseIfAged(hex, caps, st, key, now).threw && j < |rest|
    requires var next := CloseIfAged(hex, caps, st, key, now).state;
      && StopsAt(hex, caps, next, rest[..j], rest[j], now)
      && Swept(hex, caps, next, rest, now) == Swept(hex, caps, next, rest[..j], now).(threw := true)
    ensures StopsAt(hex, caps, st, [key] + rest[..j], rest[j], now)
    ensures Swept(hex, caps, st, [key] + rest, now) == Swept(hex, caps, st, [key] + rest[..j], now).(threw := true)
  {
    StopsLater(hex, caps, st, key, rest[..j], rest[j], now);
    SweptCons(hex, caps, st, key, rest, now);
    SweptCons(hex, caps, st, key, rest[..j], now);
  }

  /** A sweep that throws has closed what the sweep of the keys before the offending one closes, and no more. */
  lemma {:induction false} ThrowingSweepStops(hex: Hex, caps: Caps, st: State, keys: seq<string>, now: Instant) returns (i: nat)
    requires Swept(hex, caps, st, keys, now).threw
    ensures i < |keys| && StopsAt(hex, caps, st, keys[..i], keys[i], now)
    ensures Swept(hex, caps, st, keys, now) == Swept(hex, caps, st, keys[..i], now).(threw := true)
    decreases |keys|
  {
    var first := CloseIfAged(hex, caps, st, keys[0], now);
    if first.threw {
      i := 0;
      StopsAtOnce(hex, caps, st, keys, now);
    } else {
      var rest := keys[1..];
      var j := ThrowingSweepStops(hex, caps, first.state, rest, now);
      i := j + 1;
      TakeTail(keys, j);
      SameStop(hex, caps, st, keys[0], rest, j, now);
    }
  }

  // ---------- why a segment was closed, over runs ----------

  /** An add read this instant off its clock. */
  ghost predicate OpenedBy(events: seq<Event>, at: Instant) {
    exists i | 0 <= i < |events| :: events[i].Add? && events[i].now == at
  }

  ghost predicate LastsTo(caps: Caps, since: Instant, now: Instant) {
    since.millis.Some? && now.millis.Some? && now.millis.value - since.millis.value >= caps.maxAgeMs
  }

  /** The segment had been open for the age cap, by the clock of the add that opened it and of the operation that closed it. */
  ghost predicate ClosedByAge(caps: Caps, events: seq<Event>, s: SealReady) {
    exists i, since {:trigger LastsTo(caps, since, events[i].now)} :: 0 <= i < |events| && !events[i].FlushAll?
      && OpenedBy(events[..i], since) && since.text == s.openedAt
      && events[i].now.text == s.closedAt && LastsTo(caps, since, events[i].now)
  }

  ghost predicate ClosedByCount(caps: Caps, events: seq<Event>, s: SealReady) {
    |s.objects| == caps.maxEvents && exists i | 0 <= i < |events| :: events[i].Add? && events[i].later.text == s.closedAt
  }

  ghost predicate ClosedByFlush(events: seq<Event>, s: SealReady) {
    exists i | 0 <= i < |events| :: events[i].FlushAll? && events[i].now.text == s.closedAt
  }

  ghost predicate Explained(caps: Caps, events: seq<Event>, s: SealReady) {
    match s.trigger
    case TimeCap => ClosedByAge(caps, events, s)
    case EventCountCap => ClosedByCount(caps, events, s)
    case Flush => ClosedByFlush(events, s)
  }

  lemma ExplainedStays(caps: Caps, events: seq<Event>, e: Event, s: SealReady)
    requires Explained(caps, events, s)
    ensures Explained(caps, events + [e], s)
  {
    var more := events + [e];
    match s.trigger
    case TimeCap =>
      var i, since :| 0 <= i < |events| && !events[i].FlushAll? && OpenedBy(events[..i], since) && since.text == s.openedAt
        && events[i].now.text == s.closedAt && LastsTo(caps, since, events[i].now);
      assert more[..i] == events[..i] && more[i] == events[i];
      assert LastsTo(caps, since, more[i].now);
    case EventCountCap =>
      var i :| 0 <= i < |events| && events[i].Add? && events[i].later.text == s.closedAt;
      assert more[i] == events[i];
    case Flush =>
      var i :| 0 <= i < |events| && events[i].FlushAll? && events[i].now.text == s.closedAt;
      assert more[i] == events[i];
  }

  /** Each of these was an open segment of this state. */
  ghost predicate AllFrom(rel: Relation, open: map<string, OpenSegment>, closed: seq<SealReady>, dbs: set<string>) {
    forall s | s in closed :: exists k :: k in dbs && k in open && rel(s, open[k])
  }

  /** No segment was added, and none changed. */
  ghost predicate Shrinks(st: State, next: State) {
    forall k | k in next.open :: k in st.open && next.open[k] == st.open[k]
  }

  lemma OneAgedFrom(hex: Hex, rel: Relation, caps: Caps, st: State, db: string, now: Instant)
    requires HoldsWhenClosed(hex, rel, TimeCap, now)
    ensures var step := CloseIfAged(hex, caps, st, db, now);
      AllFrom(rel, st.open, step.closed, DueSet(caps, st, now)) && Shrinks(st, step.state)
  {
    AgedThrowsIff(hex, caps, st, db, now);
    AgedLeavesOthers(hex, caps, st, db, now);
    if !CloseIfAged(hex, caps, st, db, now).threw {
      OneSwept(hex, rel, caps, st, db, now);
    }
  }

  lemma FromEarlier(rel: Relation, st: State, next: State, closed: seq<SealReady>, dbs: set<string>, dbsThen: set<string>)
    requires Shrinks(st, next) && AllFrom(rel, next.open, closed, dbsThen)
    requires forall k | k in dbsThen && k in next.open :: k in dbs
    ensures AllFrom(rel, st.open, closed, dbs)
  {
    forall s | s in closed ensures exists k :: k in dbs && k in st.open && rel(s, st.open[k]) {
      var k :| k in dbsThen && k in next.open && rel(s, next.open[k]);
      assert rel(s, st.open[k]);
    }
  }

  lemma BothFrom(rel: Relation, open: map<string, OpenSegment>, a: seq<SealReady>, b: seq<SealReady>, dbs: set<string>)
    requires AllFrom(rel, open, a, dbs) && AllFrom(rel, open, b, dbs)
    ensures AllFrom(rel, open, a + b, dbs)
  {
  }

  lemma {:induction false} SweptFrom(hex: Hex, rel: Relation, caps: Caps, st: State, keys: seq<string>, now: Instant)
    requires HoldsWhenClosed(hex, rel, TimeCap, now)
    ensures var step := Swept(hex, caps, st, keys, now);
      AllFrom(rel, st.open, step.closed, DueSet(caps, st, now)) && Shrinks(st, step.state)
    decreases |keys|
  {
    if keys != [] {
      var first := CloseIfAged(hex, caps, st, keys[0], now);
      OneAgedFrom(hex, rel, caps, st, keys[0], now);
      if !first.threw {
        var rest := Swept(hex, caps, first.state, keys[1..], now);
        SweptFrom(hex, rel, caps, first.state, keys[1..], now);
        FromEarlier(rel, st, first.state, rest.closed, DueSet(caps, st, now), DueSet(caps, first.state, now));
        BothFrom(rel, st.open, first.closed, rest.closed, DueSet(caps, st, now));
      }
    }
  }

  lemma OneFlushedFrom(hex: Hex, rel: Relation, st: State, db: string, now: Instant)
    requires HoldsWhenClosed(hex, rel, Flush, now)
    ensures var step := FlushOne(hex, st, db, now);
      AllFrom(rel, st.open, step.closed, st.open.Keys) && Shrinks(st, step.state)
  {
    FlushOneThrowsIff(hex, st, db, now);
    if !FlushOne(hex, st, db, now).threw {
      OneFlushed(hex, rel, st, db, now);
    }
  }

  lemma {:induction false} FlushedFrom(hex: Hex, rel: Relation, st: State, keys: seq<string>, now: Instant)
    requires HoldsWhenClosed(hex, rel, Flush, now)
    ensures var step := Flushed(hex, st, keys, now);
      AllFrom(rel, st.open, step.closed, st.open.Keys) && Shrinks(st, step.state)
    decreases |keys|
  {
    if keys != [] {
      var first := FlushOne(hex, st, keys[0], now);
      OneFlushedFrom(hex, rel, st, keys[0], now);
      if !first.threw {
        var rest := Flushed(hex, first.state, keys[1..], now);
        FlushedFrom(hex, rel, first.state, keys[1..], now);
        FromEarlier(rel, st, first.state, rest.closed, st.open.Keys, first.state.open.Keys);
        BothFrom(rel, st.open, first.closed, rest.closed, st.open.Keys);
      }
    }
  }

  /** Every open segment was opened by an add. */
  ghost predicate AllOpenedBy(events: seq<Event>, st: State) {
    forall k | k in st.open :: OpenedBy(events, st.open[k].openedAt)
  }

  ghost predicate ExplainedAfter(caps: Caps, events: seq<Event>, step: Step) {
    (forall s | s in step.closed :: Explained(caps, events, s)) && AllOpenedBy(events, step.state)
  }

  ghost predicate ExplainedRun(caps: Caps, events: seq<Event>, h: History) {
    (forall s | s in h.closed :: Explained(caps, events, s)) && AllOpenedBy(events, h.state)
  }

  lemma OpenedStays(events: seq<Event>, e: Event, at: Instant)
    ensures OpenedBy(events, at) ==> OpenedBy(events + [e], at)
    ensures e.Add? ==> OpenedBy(events + [e], e.now)
  {
    var more := events + [e];
    if OpenedBy(events, at) {
      var i :| 0 <= i < |events| && events[i].Add? && events[i].now == at;
      assert more[i] == events[i];
    }
    assert more[|events|] == e;
  }

  lemma AgeExplains(hex: Hex, caps: Caps, events: seq<Event>, e: Event, st: State, db: string, s: SealReady)
    requires !e.FlushAll? && AllOpenedBy(events, st) && Due(caps, st, db, e.now)
    requires Carries(hex, s, st.open[db], TimeCap, e.now)
    ensures Explained(caps, events + [e], s)
  {
    var more, at := events + [e], st.open[db].openedAt;
    assert more[..|events|] == events && more[|events|] == e;
    assert LastsTo(caps, at, more[|events|].now);
  }

  lemma CountExplains(hex: Hex, caps: Caps, events: seq<Event>, e: Event, grown: OpenSegment, s: SealReady)
    requires e.Add? && Carries(hex, s, grown, EventCountCap, e.later) && |s.objects| <= caps.maxEvents <= |grown.objects|
    ensures Explained(caps, events + [e], s)
  {
    assert |s.objects| == |multiset(s.objects)| && |grown.objects| == |multiset(grown.objects)|;
    assert (events + [e])[|events|] == e;
  }

  lemma SweepExplains(hex: Hex, caps: Caps, events: seq<Event>, st: State, now: Instant)
    requires AllOpenedBy(events, st)
    ensures ExplainedAfter(caps, events + [Sweep(now)], Apply(hex, caps, st, Sweep(now)))
  {
    var rel, step := CarriesAs(hex, TimeCap, now), Apply(hex, caps, st, Sweep(now));
    ClosedHolds(hex, TimeCap, now);
    SweptFrom(hex, rel, caps, st, st.order, now);
    forall s | s in step.closed ensures Explained(caps, events + [Sweep(now)], s) {
      var k :| k in DueSet(caps, st, now) && k in st.open && rel(s, st.open[k]);
      AgeExplains(hex, caps, events, Sweep(now), st, k, s);
    }
    ShrunkIsOpened(events, Sweep(now), st, step.state);
  }

  lemma ShrunkIsOpened(events: seq<Event>, e: Event, st: State, next: State)
    requires AllOpenedBy(events, st) && Shrinks(st, next)
    ensures AllOpenedBy(events + [e], next)
  {
    forall k | k in next.open ensures OpenedBy(events + [e], next.open[k].openedAt) {
      OpenedStays(events, e, next.open[k].openedAt);
    }
  }

  lemma FlushExplains(hex: Hex, caps: Caps, events: seq<Event>, st: State, now: Instant)
    requires AllOpenedBy(events, st)
    ensures ExplainedAfter(caps, events + [FlushAll(now)], Apply(hex, caps, st, FlushAll(now)))
  {
    var rel, step := CarriesAs(hex, Flush, now), Apply(hex, caps, st, FlushAll(now));
    ClosedHolds(hex, Flush, now);
    FlushedFrom(hex, rel, st, st.order, now);
    forall s | s in step.closed ensures Explained(caps, events + [FlushAll(now)], s) {
      var k :| k in st.open && rel(s, st.open[k]);
      assert (events + [FlushAll(now)])[|events|] == FlushAll(now);
    }
    ShrunkIsOpened(events, FlushAll(now), st, step.state);
  }

  lemma AddOpens(events: seq<Event>, e: Event, caps: Caps, st: State, db: string, next: State)
    requires e.Add? && AllOpenedBy(events, st)
    requires forall k | k in next.open && k != db :: k in st.open && next.open[k] == st.open[k]
    requires db in next.open ==>
      next.open[db] == SegmentFor(caps, st, db, e.c, e.now).(objects := SegmentFor(caps, st, db, e.c, e.now).objects + [e.c])
    ensures AllOpenedBy(events + [e], next)
  {
    forall k | k in next.open ensures OpenedBy(events + [e], next.open[k].openedAt) {
      OpenedStays(events, e, next.open[k].openedAt);
    }
  }

  lemma ThrowingAddExplains(hex: Hex, caps: Caps, events: seq<Event>, st: State, e: Event)
    requires AllOpenedBy(events, st) && e.Add? && Admit(e.c).Ok? && Apply(hex, caps, st, e).threw
    ensures Apply(hex, caps, st, e).closed == [] && AllOpenedBy(events + [e], Apply(hex, caps, st, e).state)
  {
    var db, step := Admit(e.c).value, Apply(hex, caps, st, e);
    ThrowingAddLeaves(hex, caps, st, db, e.c, e.now, e.later);
    if Due(caps, st, db, e.now) {
      ShrunkIsOpened(events, e, st, step.state);
    } else {
      AddOpens(events, e, caps, st, db, step.state);
    }
  }

  lemma AddCloses(hex: Hex, caps: Caps, events: seq<Event>, st: State, e: Event, db: string, closed: seq<SealReady>, due: bool, full: bool,
                  grown: OpenSegment)
    requires e.Add? && AllOpenedBy(events, st) && forall s | s in closed :: |s.objects| <= caps.maxEvents
    requires |closed| == (if due then 1 else 0) + (if full then 1 else 0)
    requires due ==> Due(caps, st, db, e.now) && Carries(hex, closed[0], st.open[db], TimeCap, e.now)
    requires full ==> |grown.objects| >= caps.maxEvents && Carries(hex, closed[|closed| - 1], grown, EventCountCap, e.later)
    ensures forall s | s in closed :: Explained(caps, events + [e], s)
  {
    if due {
      AgeExplains(hex, caps, events, e, st, db, closed[0]);
    }
    if full {
      CountExplains(hex, caps, events, e, grown, closed[|closed| - 1]);
    }
    AtMostTwo(caps, events + [e], closed, due, full);
  }

  lemma AddExplains(hex: Hex, caps: Caps, events: seq<Event>, st: State, e: Event)
    requires AllOpenedBy(events, st) && e.Add? && Admit(e.c).Ok?
    requires forall s | s in Apply(hex, caps, st, e).closed :: |s.objects| <= caps.maxEvents
    ensures ExplainedAfter(caps, events + [e], Apply(hex, caps, st, e))
  {
    var db, step := Admit(e.c).value, Apply(hex, caps, st, e);
    if step.threw {
      ThrowingAddExplains(hex, caps, events, st, e);
    } else {
      var seg, due := SegmentFor(caps, st, db, e.c, e.now), Due(caps, st, db, e.now);
      var grown := seg.(objects := seg.objects + [e.c]);
      AddIsExact(hex, caps, st, db, e.c, e.now, e.later);
      AddOpens(events, e, caps, st, db, step.state);
      AddCloses(hex, caps, events, st, e, db, step.closed, due, |grown.objects| >= caps.maxEvents, grown);
    }
  }

  lemma AtMostTwo(caps: Caps, events: seq<Event>, closed: seq<SealReady>, due: bool, full: bool)
    requires |closed| == (if due then 1 else 0) + (if full then 1 else 0)
    requires due ==> Explained(caps, events, closed[0])
    requires full ==> Explained(caps, events, closed[|closed| - 1])
    ensures forall s | s in closed :: Explained(caps, events, s)
  {
  }

  /**
   Over any run: a segment closed by the time cap had been open for `maxAgeMs`, from the add that
   opened it to the operation that closed it; one closed by the count cap holds `maxEvents` objects;
   and the others were closed by a flush.
   */
  lemma {:induction false} EveryCloseIsExplained(hex: Hex, caps: Caps, events: seq<Event>)
    requires caps.maxEvents >= 1
    ensures ExplainedRun(caps, events, Run(hex, caps, events))
  {
    if events != [] {
      var most, e := events[..|events| - 1], events[|events| - 1];
      EveryCloseIsExplained(hex, caps, most);
      assert events == most + [e];
      ExplainedStep(hex, caps, most, e);
    }
  }

  lemma ExplainedStep(hex: Hex, caps: Caps, events: seq<Event>, e: Event)
    requires caps.maxEvents >= 1 && ExplainedRun(caps, events, Run(hex, caps, events))
    ensures ExplainedRun(caps, events + [e], Run(hex, caps, events + [e]))
  {
    RunOn(hex, caps, events, e);
    ClosedInRunsAreWell(hex, caps, events + [e]);
    ExplainedNext(hex, caps, events, Run(hex, caps, events), e, Run(hex, caps, events + [e]));
  }

  lemma ClosedInRunsAreWell(hex: Hex, caps: Caps, events: seq<Event>)
    requires caps.maxEvents >= 1
    ensures AllWellClosed(caps, Run(hex, caps, events).closed)
  {
    EveryRunBalances(hex, caps, events);
  }

  lemma ExplainedNext(hex: Hex, caps: Caps, events: seq<Event>, h: History, e: Event, next: History)
    requires ExplainedRun(caps, events, h) && next == Next(hex, caps, h, e) && AllWellClosed(caps, next.closed)
    ensures ExplainedRun(caps, events + [e], next)
  {
    var step := Apply(hex, caps, h.state, e);
    ApplyExplains(hex, caps, events, h.state, e, h.closed);
    forall s | s in h.closed ensures Explained(caps, events + [e], s) {
      ExplainedStays(caps, events, e, s);
    }
  }

  lemma ApplyExplains(hex: Hex, caps: Caps, events: seq<Event>, st: State, e: Event, closed: seq<SealReady>)
    requires AllOpenedBy(events, st) && AllWellClosed(caps, closed + Apply(hex, caps, st, e).closed)
    ensures ExplainedAfter(caps, events + [e], Apply(hex, caps, st, e))
  {
    match e
    case Add(c, now, later) =>
      if Admit(c).Ok? {
        forall s | s in Apply(hex, caps, st, e).closed ensures |s.objects| <= caps.maxEvents {
          assert s in closed + Apply(hex, caps, st, e).closed;
        }
        AddExplains(hex, caps, events, st, e);
      } else {
        ShrunkIsOpened(events, e, st, st);
      }
    case Sweep(now) => SweepExplains(hex, caps, events, st, now);
    case FlushAll(now) => FlushExplains(hex, caps, events, st, now);
  }
}

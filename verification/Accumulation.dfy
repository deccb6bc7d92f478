/** Segment accumulation (services/evidence-writer/src/accumulator.ts): the specification. */
module Accumulation {
  import opened Outcomes
  import opened Instants
  import opened Digests
  import opened CceModel
  import opened CceOrder
  import opened ManifestModel
  import opened ManifestBuilder
  import opened Sequences
  import opened Sorting
  import opened Texts

  datatype Caps = Caps(maxEvents: nat, maxAgeMs: int)

  datatype OpenSegment = OpenSegment(
    dbId: string, engine: string, segmentId: string, segmentSequence: nat, openedAt: Instant, objects: seq<Cce>)

  /** `order` lists the keys of the `open` map as it iterates them: oldest first. */
  datatype State = State(order: seq<string>, open: map<string, OpenSegment>, nextSeq: map<string, nat>)

  const EMPTY := State([], map[], map[])

  // ---------- names ----------

  /** `String(n).padStart(6, '0')` */
  function PadSix(n: nat): (s: string)
    ensures AllDigits(s) && ParseNat(s) == n
    ensures |s| >= 6 && (n < 1000000 ==> |s| == 6)
  {
    ParsePrint(n);
    AtMostSixDigits(n);
    LeadingZeros(6 - |PrintNat(n)|, PrintNat(n));
    Zeros(6 - |PrintNat(n)|) + PrintNat(n)
  }

  lemma AtMostSixDigits(n: nat)
    ensures n < 1000000 ==> |PrintNat(n)| <= 6
  {
    if n < 1000000 {
      assert |PrintNat(n / 100000)| == 1;
      DigitsOfTenth(n / 10000);
      DigitsOfTenth(n / 1000);
      DigitsOfTenth(n / 100);
      DigitsOfTenth(n / 10);
      DigitsOfTenth(n);
    }
  }

  lemma DigitsOfTenth(n: nat)
    ensures |PrintNat(n)| <= |PrintNat(n / 10)| + 1
  {
  }

  function Zeros(k: int): (s: string)
    ensures AllDigits(s) && |s| == if k <= 0 then 0 else k
  {
    if k <= 0 then "" else "0" + Zeros(k - 1)
  }

  lemma {:induction false} LeadingZeros(k: int, s: string)
    requires AllDigits(s)
    ensures ParseNat(Zeros(k) + s) == ParseNat(s)
  {
    if k <= 0 {
      assert Zeros(k) + s == s;
    } else {
      LeadingZeros(k - 1, s);
      LeadingZero(Zeros(k - 1) + s);
      Regroup("0", Zeros(k - 1), s);
    }
  }

  lemma {:induction false} LeadingZero(s: string)
    requires AllDigits(s)
    ensures ParseNat("0" + s) == ParseNat(s)
  {
    if s == [] {
      assert ("0" + s)[..0] == "";
    } else {
      assert ("0" + s)[..|s|] == "0" + s[..|s| - 1];
      LeadingZero(s[..|s| - 1]);
    }
  }

  function SegmentId(n: nat): string {
    "seg-" + PadSix(n)
  }

  function EvidenceObjectKey(dbId: string, segmentId: string, n: nat): string {
    dbId + "/" + segmentId + "/" + PadSix(n) + ".cce.json"
  }

  // ---------- admission ----------

  predicate NonEmpty(o: Option<string>) {
    o.Some? && o.value != ""
  }

  /** Only envelopes with an identity, a source and well-formed hashes are buffered. */
  function Admit(c: Cce): Result<string> {
    if StringOf(Field(c.core, "kind")) != Some("transaction") then Err("not a CCE")
    else if !NonEmpty(DbId(c)) then Err("missing source.db_id")
    else if !NonEmpty(Engine(c)) then Err("missing source.engine")
    else if !NonEmpty(EnvelopeId(c)) then Err("missing envelope_id")
    else if !IsHashToken(c.evidence.eventHash) then Err("missing/invalid evidence.event_hash")
    else if !IsHashToken(c.evidence.rowHash) then Err("missing/invalid evidence.row_hash")
    else if FidelityState(c).None? then Err("missing fidelity.state")
    else if ConsumedOffsetKey(c).None? then Err("missing completeness.consumed_offset_key")
    else Ok(DbId(c).value)
  }

  // ---------- closing a segment ----------

  function CountState(cs: seq<Cce>, state: string): nat {
    if cs == [] then 0
    else CountState(cs[..|cs| - 1], state) + if FidelityState(cs[|cs| - 1]) == Some(state) then 1 else 0
  }

  predicate HasReason(c: Cce) {
    FidelityState(c) != Some("HEALTHY") && NonEmpty(DegradedReason(c))
  }

  /** The reasons of unhealthy envelopes, each once, in order of first occurrence. */
  function Reasons(cs: seq<Cce>): seq<string> {
    if cs == [] then []
    else
      var before, last := Reasons(cs[..|cs| - 1]), cs[|cs| - 1];
      if HasReason(last) && DegradedReason(last).value !in before then before + [DegradedReason(last).value] else before
  }

  predicate AnyGap(cs: seq<Cce>) {
    exists i | 0 <= i < |cs| :: GapDetected(cs[i]) == Some(true)
  }

  function FidelityOf(cs: seq<Cce>): FidelitySummary {
    var degraded, compromised := CountState(cs, "DEGRADED"), CountState(cs, "COMPROMISED");
    FidelitySummary(degraded == 0 && compromised == 0, degraded, compromised, Sort(CompareStrings, Reasons(cs)))
  }

  function RefsOf(dbId: string, segmentId: string, cs: seq<Cce>): seq<ObjectRef> {
    seq(|cs|, i requires 0 <= i < |cs| => ObjectRef(i, OrEmpty(EnvelopeId(cs[i])), EvidenceObjectKey(dbId, segmentId, i)))
  }

  function HashesOf(cs: seq<Cce>): seq<ObjectHash> {
    seq(|cs|, i requires 0 <= i < |cs| => ObjectHash(i, cs[i].evidence.eventHash, cs[i].evidence.rowHash))
  }

  function OffsetsOf(cs: seq<Cce>): OffsetRange
    requires cs != []
  {
    var last := cs[|cs| - 1];
    OffsetRange(OrEmpty(ConsumedOffsetKey(cs[0])), OrEmpty(ConsumedOffsetKey(last)),
                if NonEmpty(ConsumedGtidSet(last)) then ConsumedGtidSet(last) else None)
  }

  /** The segment made of these envelopes, already in the global order. */
  function Describe(seg: OpenSegment, trigger: SealTrigger, closedAt: string, cs: seq<Cce>): SealReady
    requires cs != []
  {
    SealReady(
      seg.dbId, seg.engine, seg.segmentId, seg.segmentSequence, seg.openedAt.text, closedAt, trigger, |cs|,
      OrEmpty(EnvelopeId(cs[0])), OrEmpty(EnvelopeId(cs[|cs| - 1])),
      cs[0].evidence.rowHash, cs[|cs| - 1].evidence.rowHash,
      RefsOf(seg.dbId, seg.segmentId, cs), HashesOf(cs), OffsetsOf(cs), FidelityOf(cs),
      CompletenessSummary(AnyGap(cs), !AnyGap(cs), []), cs)
  }

  /** `seal`: order the buffer and describe it; an error when two of its envelopes cannot be compared. */
  function Close(hex: Hex, seg: OpenSegment, trigger: SealTrigger, closedAt: Instant): Result<SealReady>
    requires seg.objects != []
  {
    OrderIsPermutation(hex, seg.objects);
    var cs :- OrderCces(hex, seg.objects);
    Ok(Describe(seg, trigger, closedAt.text, cs))
  }

  // ---------- the operations ----------

  predicate Aged(caps: Caps, seg: OpenSegment, now: Instant) {
    && now.Parses() && seg.openedAt.Parses()
    && now.millis.value - seg.openedAt.millis.value >= caps.maxAgeMs
  }

  function NextSeq(st: State, db: string): nat {
    if db in st.nextSeq then st.nextSeq[db] else 0
  }

  function Without(keys: seq<string>, db: string): (r: seq<string>)
    ensures forall k :: k in r <==> k in keys && k != db
  {
    if keys == [] then []
    else if keys[0] == db then Without(keys[1..], db)
    else [keys[0]] + Without(keys[1..], db)
  }

  function Drop(st: State, db: string): State {
    st.(order := Without(st.order, db), open := st.open - {db})
  }

  /** The state once the open segment of `db` has been closed and forgotten. */
  function Closed(st: State, db: string): State
    requires db in st.open
  {
    Drop(st, db).(nextSeq := st.nextSeq[db := st.open[db].segmentSequence + 1])
  }

  function Opened(st: State, db: string, engine: string, now: Instant): State {
    var n := NextSeq(st, db);
    st.(order := st.order + [db], open := st.open[db := OpenSegment(db, engine, SegmentId(n), n, now, [])])
  }

  function Pushed(st: State, db: string, c: Cce): State
    requires db in st.open
  {
    st.(open := st.open[db := st.open[db].(objects := st.open[db].objects + [c])])
  }

  /**
   What an operation leaves, the segments it closed on the way, and whether it ended in an
   exception; the caller of an operation that threw never gets the segments.
   */
  datatype Step = Step(state: State, closed: seq<SealReady>, threw: bool)

  /** Close the open segment of `db`; when its buffer cannot be ordered, nothing changes and the operation throws. */
  function CloseStep(hex: Hex, st: State, db: string, trigger: SealTrigger, now: Instant): Step
    requires db in st.open && st.open[db].objects != []
  {
    var s := Close(hex, st.open[db], trigger, now);
    if s.Ok? then Step(Closed(st, db), [s.value], false) else Step(st, [], true)
  }

  /** Close the open segment of `db` if it has objects and its time is up. */
  function CloseIfAged(hex: Hex, caps: Caps, st: State, db: string, now: Instant): Step {
    if db in st.open && st.open[db].objects != [] && Aged(caps, st.open[db], now) then CloseStep(hex, st, db, TimeCap, now)
    else Step(st, [], false)
  }

  function CloseIfFull(hex: Hex, caps: Caps, st: State, db: string, now: Instant): Step {
    if db in st.open && st.open[db].objects != [] && |st.open[db].objects| >= caps.maxEvents
    then CloseStep(hex, st, db, EventCountCap, now)
    else Step(st, [], false)
  }

  function WithOpen(st: State, db: string, engine: string, now: Instant): (r: State)
    ensures db in r.open
  {
    if db in st.open then st else Opened(st, db, engine, now)
  }

  /** `add` of an admitted envelope; the clock is read again when the count cap closes the segment. */
  function Added(hex: Hex, caps: Caps, st: State, db: string, c: Cce, now: Instant, later: Instant): Step {
    var aged := CloseIfAged(hex, caps, st, db, now);
    if aged.threw then aged
    else
      var pushed := Pushed(WithOpen(aged.state, db, OrEmpty(Engine(c)), now), db, c);
      var full := CloseIfFull(hex, caps, pushed, db, later);
      Step(full.state, aged.closed + full.closed, full.threw)
  }

  function Swept(hex: Hex, caps: Caps, st: State, keys: seq<string>, now: Instant): Step
    decreases |keys|
  {
    if keys == [] then Step(st, [], false)
    else
      var first := CloseIfAged(hex, caps, st, keys[0], now);
      if first.threw then first
      else
        var rest := Swept(hex, caps, first.state, keys[1..], now);
        Step(rest.state, first.closed + rest.closed, rest.threw)
  }

  function FlushOne(hex: Hex, st: State, db: string, now: Instant): Step {
    if db in st.open && st.open[db].objects != [] then CloseStep(hex, st, db, Flush, now)
    else Step(Drop(st, db), [], false)
  }

  function Flushed(hex: Hex, st: State, keys: seq<string>, now: Instant): Step
    decreases |keys|
  {
    if keys == [] then Step(st, [], false)
    else
      var first := FlushOne(hex, st, keys[0], now);
      if first.threw then first
      else
        var rest := Flushed(hex, first.state, keys[1..], now);
        Step(rest.state, first.closed + rest.closed, rest.threw)
  }

  // ---------- runs ----------

  datatype Event =
    | Add(c: Cce, now: Instant, later: Instant)
    | Sweep(now: Instant)
    | FlushAll(now: Instant)

  function Apply(hex: Hex, caps: Caps, st: State, e: Event): Step {
    match e
    case Add(c, now, later) =>
      if Admit(c).Ok? then Added(hex, caps, st, Admit(c).value, c, now, later) else Step(st, [], false)
    case Sweep(now) => Swept(hex, caps, st, st.order, now)
    case FlushAll(now) => Flushed(hex, st, st.order, now)
  }

  /** The envelope of this event passes the gate. */
  predicate Arrives(e: Event) {
    e.Add? && Admit(e.c).Ok?
  }

  /** It reaches a buffer, unless the aged segment before it cannot be closed. */
  predicate Reaches(hex: Hex, caps: Caps, st: State, e: Event) {
    Arrives(e) && !CloseIfAged(hex, caps, st, Admit(e.c).value, e.now).threw
  }

  /**
   Everything that has happened: the state; all segments closed, split into those handed to a
   caller and those lost in an exception; and the envelopes that passed the gate, split into those
   that reached a buffer and those refused by an exception.
   */
  datatype History = History(
    state: State, closed: seq<SealReady>, emitted: seq<SealReady>, lost: seq<SealReady>,
    admitted: seq<Cce>, refused: seq<Cce>)

  const NOTHING := History(EMPTY, [], [], [], [], [])

  function Next(hex: Hex, caps: Caps, h: History, e: Event): History {
    var step := Apply(hex, caps, h.state, e);
    History(
      step.state, h.closed + step.closed,
      h.emitted + (if step.threw then [] else step.closed), h.lost + (if step.threw then step.closed else []),
      h.admitted + (if Reaches(hex, caps, h.state, e) then [e.c] else []),
      h.refused + (if Arrives(e) && !Reaches(hex, caps, h.state, e) then [e.c] else []))
  }

  function Run(hex: Hex, caps: Caps, events: seq<Event>): History {
    if events == [] then NOTHING
    else Next(hex, caps, Run(hex, caps, events[..|events| - 1]), events[|events| - 1])
  }

  // ---------- what every run keeps ----------

  function AdmittedTo(admitted: seq<Cce>, db: string): multiset<Cce> {
    if admitted == [] then multiset{}
    else
      var last := admitted[|admitted| - 1];
      AdmittedTo(admitted[..|admitted| - 1], db) + if DbId(last) == Some(db) then multiset{last} else multiset{}
  }

  function SegmentsOf(closed: seq<SealReady>, db: string): seq<SealReady> {
    if closed == [] then []
    else
      var last := closed[|closed| - 1];
      SegmentsOf(closed[..|closed| - 1], db) + if last.dbId == db then [last] else []
  }

  function ObjectsIn(segments: seq<SealReady>): multiset<Cce> {
    if segments == [] then multiset{}
    else ObjectsIn(segments[..|segments| - 1]) + multiset(segments[|segments| - 1].objects)
  }

  function Buffered(st: State, db: string): seq<Cce> {
    if db in st.open then st.open[db].objects else []
  }

  predicate AdmittedFor(c: Cce, db: string) {
    Admit(c) == Ok(db)
  }

  /** A segment as the accumulator hands it over: never empty, never over the cap, lists aligned. */
  ghost predicate WellClosed(caps: Caps, s: SealReady) {
    && s.segmentSequence >= 0 && s.segmentId == SegmentId(s.segmentSequence)
    && 1 <= |s.objects| <= caps.maxEvents
    && Coherent(s)
    && s.objectList == RefsOf(s.dbId, s.segmentId, s.objects)
    && s.offsets == OffsetsOf(s.objects)
    && s.completeness == CompletenessSummary(AnyGap(s.objects), !AnyGap(s.objects), [])
    && forall i | 0 <= i < |s.objects| :: AdmittedFor(s.objects[i], s.dbId)
  }

  /** Over the cap only when the buffer can no longer be ordered. */
  ghost predicate Bounded(hex: Hex, objects: seq<Cce>, most: int) {
    |objects| <= most || !Sortable(hex, objects)
  }

  /** An open segment of `db` that will get number n. */
  ghost predicate WellOpen(hex: Hex, caps: Caps, seg: OpenSegment, db: string, n: nat) {
    && seg.dbId == db && seg.segmentSequence == n && seg.segmentId == SegmentId(n)
    && Bounded(hex, seg.objects, caps.maxEvents)
    && forall i | 0 <= i < |seg.objects| :: AdmittedFor(seg.objects[i], db)
  }

  /** Segments numbered 0, 1, 2, ... */
  ghost predicate CountedOut(mine: seq<SealReady>, next: nat) {
    |mine| == next && forall i | 0 <= i < |mine| :: mine[i].segmentSequence == i
  }

  /** Nothing taken is lost or doubled. */
  ghost predicate Balance(mine: seq<SealReady>, buffered: seq<Cce>, admitted: multiset<Cce>) {
    admitted == ObjectsIn(mine) + multiset(buffered)
  }

  ghost predicate Accounts(h: History, db: string) {
    && CountedOut(SegmentsOf(h.closed, db), NextSeq(h.state, db))
    && Balance(SegmentsOf(h.closed, db), Buffered(h.state, db), AdmittedTo(h.admitted, db))
  }

  ghost predicate AllAccounts(h: History) {
    forall db :: Accounts(h, db)
  }

  ghost predicate Ordered(st: State) {
    && (forall k :: k in st.order <==> k in st.open)
    && forall i, j | 0 <= i < j < |st.order| :: st.order[i] != st.order[j]
  }

  ghost predicate AllWellOpen(hex: Hex, caps: Caps, st: State) {
    forall db | db in st.open :: WellOpen(hex, caps, st.open[db], db, NextSeq(st, db))
  }

  ghost predicate AllWellClosed(caps: Caps, closed: seq<SealReady>) {
    forall s | s in closed :: WellClosed(caps, s)
  }

  /** Invariant: every database's books balance, and what was closed was handed over or lost. */
  ghost predicate Inv(hex: Hex, caps: Caps, h: History) {
    && Ordered(h.state) && AllWellOpen(hex, caps, h.state)
    && AllWellClosed(caps, h.closed) && AllAccounts(h)
    && multiset(h.closed) == multiset(h.emitted) + multiset(h.lost)
  }

  /** Between operations an open segment is full only if it cannot be ordered. */
  ghost predicate Resting(hex: Hex, caps: Caps, st: State) {
    forall db | db in st.open :: Bounded(hex, st.open[db].objects, caps.maxEvents - 1)
  }

  // ---------- closing ----------

  lemma CoherentDescription(seg: OpenSegment, trigger: SealTrigger, closedAt: string, cs: seq<Cce>)
    requires cs != [] && forall i | 0 <= i < |cs| :: AdmittedFor(cs[i], seg.dbId)
    ensures Coherent(Describe(seg, trigger, closedAt, cs))
  {
    var s := Describe(seg, trigger, closedAt, cs);
    forall i | 0 <= i < |cs| ensures Describes(s.objectList, s.objectHashList, s.objects, i) {
      assert AdmittedFor(cs[i], seg.dbId);
    }
  }

  lemma DescribedIsWell(caps: Caps, seg: OpenSegment, trigger: SealTrigger, at: string, cs: seq<Cce>)
    requires multiset(cs) == multiset(seg.objects) && 1 <= |cs| <= caps.maxEvents
    requires seg.segmentId == SegmentId(seg.segmentSequence)
    requires forall i | 0 <= i < |seg.objects| :: AdmittedFor(seg.objects[i], seg.dbId)
    ensures WellClosed(caps, Describe(seg, trigger, at, cs))
  {
    forall i | 0 <= i < |cs| ensures AdmittedFor(cs[i], seg.dbId) {
      InMultiset(seg.objects, cs, cs[i]);
    }
    CoherentDescription(seg, trigger, at, cs);
  }

  /** Closing throws exactly when two envelopes of the buffer cannot be compared. */
  lemma CloseThrowsIff(hex: Hex, seg: OpenSegment, trigger: SealTrigger, at: Instant)
    requires seg.objects != []
    ensures Close(hex, seg, trigger, at).Err? <==> !Sortable(hex, seg.objects)
  {
    OrderIsPermutation(hex, seg.objects);
    OrderThrowsIff(hex, seg.objects);
  }

  lemma ClosedIsWell(hex: Hex, caps: Caps, seg: OpenSegment, db: string, n: nat, trigger: SealTrigger, at: Instant)
    requires seg.objects != [] && WellOpen(hex, caps, seg, db, n) && Close(hex, seg, trigger, at).Ok?
    ensures var s := Close(hex, seg, trigger, at).value;
      WellClosed(caps, s) && s.dbId == db && s.segmentSequence == n && multiset(s.objects) == multiset(seg.objects)
  {
    OrderIsPermutation(hex, seg.objects);
    CloseThrowsIff(hex, seg, trigger, at);
    DescribedIsWell(caps, seg, trigger, at.text, OrderCces(hex, seg.objects).value);
  }

  lemma SegmentsStep(closed: seq<SealReady>, s: SealReady, db: string)
    ensures SegmentsOf(closed + [s], db) == if s.dbId == db then SegmentsOf(closed, db) + [s] else SegmentsOf(closed, db)
  {
    assert (closed + [s])[..|closed|] == closed;
    assert SegmentsOf(closed, db) + [] == SegmentsOf(closed, db);
  }

  lemma ObjectsStep(segments: seq<SealReady>, s: SealReady)
    ensures ObjectsIn(segments + [s]) == ObjectsIn(segments) + multiset(s.objects)
  {
    assert (segments + [s])[..|segments|] == segments;
  }

  lemma AdmittedStep(admitted: seq<Cce>, c: Cce, db: string)
    ensures AdmittedTo(admitted + [c], db) == AdmittedTo(admitted, db) + if DbId(c) == Some(db) then multiset{c} else multiset{}
  {
    assert (admitted + [c])[..|admitted|] == admitted;
  }

  lemma {:induction false} WithoutKeepsOrder(keys: seq<string>, db: string)
    requires forall i, j | 0 <= i < j < |keys| :: keys[i] != keys[j]
    ensures forall i, j | 0 <= i < j < |Without(keys, db)| :: Without(keys, db)[i] != Without(keys, db)[j]
  {
    if keys != [] {
      WithoutKeepsOrder(keys[1..], db);
      assert keys[0] !in keys[1..];
      assert keys[0] !in Without(keys[1..], db);
    }
  }

  lemma DropKeepsOrder(st: State, db: string)
    requires Ordered(st)
    ensures Ordered(Drop(st, db))
  {
    WithoutKeepsOrder(st.order, db);
  }

  /** The history with one more segment closed; who gets it is settled when the operation ends. */
  function Closing(h: History, db: string, s: SealReady): History
    requires db in h.state.open
  {
    h.(state := Closed(h.state, db), closed := h.closed + [s])
  }

  lemma SameBooks(h: History, next: History, k: string)
    requires Accounts(h, k)
    requires SegmentsOf(h.closed, k) == SegmentsOf(next.closed, k) && NextSeq(h.state, k) == NextSeq(next.state, k)
    requires Buffered(h.state, k) == Buffered(next.state, k) && AdmittedTo(h.admitted, k) == AdmittedTo(next.admitted, k)
    ensures Accounts(next, k)
  {
  }

  lemma CloseBalances(mine: seq<SealReady>, s: SealReady, buffered: seq<Cce>, admitted: multiset<Cce>)
    requires Balance(mine, buffered, admitted) && multiset(s.objects) == multiset(buffered)
    ensures Balance(mine + [s], [], admitted)
  {
    ObjectsStep(mine, s);
  }

  lemma CountedStep(mine: seq<SealReady>, s: SealReady)
    requires CountedOut(mine, |mine|) && s.segmentSequence == |mine|
    ensures CountedOut(mine + [s], |mine| + 1)
  {
  }

  lemma CloseAccounts(h: History, db: string, s: SealReady, k: string)
    requires db in h.state.open && s.dbId == db && multiset(s.objects) == multiset(h.state.open[db].objects)
    requires s.segmentSequence == h.state.open[db].segmentSequence == NextSeq(h.state, db)
    requires Accounts(h, k)
    ensures Accounts(Closing(h, db, s), k)
  {
    SegmentsStep(h.closed, s, k);
    if k == db {
      ClosedBooks(h, db, s, SegmentsOf(h.closed, k));
    } else {
      SameBooks(h, Closing(h, db, s), k);
    }
  }

  lemma ClosedBooks(h: History, db: string, s: SealReady, mine: seq<SealReady>)
    requires db in h.state.open && multiset(s.objects) == multiset(h.state.open[db].objects)
    requires s.segmentSequence == h.state.open[db].segmentSequence == NextSeq(h.state, db)
    requires mine == SegmentsOf(h.closed, db) && Accounts(h, db)
    requires SegmentsOf(h.closed + [s], db) == mine + [s]
    ensures Accounts(Closing(h, db, s), db)
  {
    CountedStep(mine, s);
    CloseBalances(mine, s, Buffered(h.state, db), AdmittedTo(h.admitted, db));
    assert Buffered(Closed(h.state, db), db) == [] && NextSeq(Closed(h.state, db), db) == |mine| + 1;
  }

  lemma CloseKeepsBooks(h: History, db: string, s: SealReady)
    requires Ordered(h.state) && AllAccounts(h)
    requires db in h.state.open && s.dbId == db && multiset(s.objects) == multiset(h.state.open[db].objects)
    requires s.segmentSequence == h.state.open[db].segmentSequence == NextSeq(h.state, db)
    ensures Ordered(Closed(h.state, db)) && AllAccounts(Closing(h, db, s))
  {
    DropKeepsOrder(h.state, db);
    forall k ensures Accounts(Closing(h, db, s), k) {
      CloseAccounts(h, db, s, k);
    }
  }

  lemma CloseKeepsOpen(hex: Hex, caps: Caps, st: State, db: string)
    requires AllWellOpen(hex, caps, st) && db in st.open
    ensures AllWellOpen(hex, caps, Closed(st, db))
  {
  }

  /** What an operation keeps while it runs: the invariant without the split of what was closed. */
  ghost predicate Running(hex: Hex, caps: Caps, h: History) {
    Ordered(h.state) && AllWellOpen(hex, caps, h.state) && AllWellClosed(caps, h.closed) && AllAccounts(h)
  }

  function Then(h: History, step: Step): History {
    h.(state := step.state, closed := h.closed + step.closed)
  }

  lemma NothingClosed(h: History, st: State, threw: bool)
    ensures Then(h, Step(st, [], threw)) == h.(state := st)
  {
    assert h.closed + [] == h.closed;
  }

  lemma CloseKeeps(hex: Hex, caps: Caps, h: History, db: string, trigger: SealTrigger, at: Instant)
    requires Running(hex, caps, h) && db in h.state.open && h.state.open[db].objects != []
    ensures Running(hex, caps, Then(h, CloseStep(hex, h.state, db, trigger, at)))
  {
    var seg := h.state.open[db];
    var s := Close(hex, seg, trigger, at);
    NothingClosed(h, h.state, true);
    if s.Ok? {
      assert WellOpen(hex, caps, seg, db, NextSeq(h.state, db));
      ClosedIsWell(hex, caps, seg, db, NextSeq(h.state, db), trigger, at);
      CloseKeepsBooks(h, db, s.value);
      CloseKeepsOpen(hex, caps, h.state, db);
    }
  }

  // ---------- opening, buffering, dropping ----------

  lemma OpenKeepsBooks(h: History, db: string, engine: string, now: Instant)
    requires Ordered(h.state) && db !in h.state.open && AllAccounts(h)
    ensures Ordered(Opened(h.state, db, engine, now))
    ensures AllAccounts(h.(state := Opened(h.state, db, engine, now)))
  {
    forall k ensures Accounts(h.(state := Opened(h.state, db, engine, now)), k) {
      SameBooks(h, h.(state := Opened(h.state, db, engine, now)), k);
    }
  }

  lemma OpenKeeps(hex: Hex, caps: Caps, h: History, db: string, engine: string, now: Instant)
    requires Running(hex, caps, h) && db !in h.state.open
    ensures Running(hex, caps, h.(state := Opened(h.state, db, engine, now)))
  {
    OpenKeepsBooks(h, db, engine, now);
  }

  function Pushing(h: History, db: string, c: Cce): History
    requires db in h.state.open
  {
    h.(state := Pushed(h.state, db, c), admitted := h.admitted + [c])
  }

  lemma PushBalances(mine: seq<SealReady>, buffered: seq<Cce>, c: Cce, admitted: multiset<Cce>)
    requires Balance(mine, buffered, admitted)
    ensures Balance(mine, buffered + [c], admitted + multiset{c})
  {
  }

  lemma PushAccounts(h: History, db: string, c: Cce, k: string)
    requires db in h.state.open && DbId(c) == Some(db) && Accounts(h, k)
    ensures Accounts(Pushing(h, db, c), k)
  {
    if k == db {
      PushedBooks(h, db, c);
    } else {
      AdmittedStep(h.admitted, c, k);
      SameBooks(h, Pushing(h, db, c), k);
    }
  }

  lemma PushedBooks(h: History, db: string, c: Cce)
    requires db in h.state.open && DbId(c) == Some(db) && Accounts(h, db)
    ensures Accounts(Pushing(h, db, c), db)
  {
    var next, mine := Pushing(h, db, c), SegmentsOf(h.closed, db);
    AdmittedStep(h.admitted, c, db);
    PushBalances(mine, Buffered(h.state, db), c, AdmittedTo(h.admitted, db));
    assert Buffered(next.state, db) == Buffered(h.state, db) + [c] && NextSeq(next.state, db) == NextSeq(h.state, db);
  }

  lemma PushKeepsBooks(h: History, db: string, c: Cce)
    requires AllAccounts(h) && db in h.state.open && DbId(c) == Some(db)
    ensures AllAccounts(Pushing(h, db, c))
  {
    forall k ensures Accounts(Pushing(h, db, c), k) {
      PushAccounts(h, db, c, k);
    }
  }

  /** A buffer that cannot be ordered stays one. */
  lemma ClashStays(hex: Hex, objects: seq<Cce>, c: Cce)
    requires Sortable(hex, objects + [c])
    ensures Sortable(hex, objects)
  {
    forall i, j | 0 <= i < j < |objects| ensures !Clashes(hex)(objects[i], objects[j]) {
      assert (objects + [c])[i] == objects[i] && (objects + [c])[j] == objects[j];
    }
  }

  lemma PushKeepsOpen(hex: Hex, caps: Caps, seg: OpenSegment, db: string, n: nat, c: Cce)
    requires WellOpen(hex, caps, seg, db, n) && Bounded(hex, seg.objects, caps.maxEvents - 1) && AdmittedFor(c, db)
    ensures WellOpen(hex, caps, seg.(objects := seg.objects + [c]), db, n)
  {
    if Sortable(hex, seg.objects + [c]) {
      ClashStays(hex, seg.objects, c);
    }
  }

  lemma PushKeeps(hex: Hex, caps: Caps, h: History, db: string, c: Cce)
    requires Running(hex, caps, h) && db in h.state.open && AdmittedFor(c, db)
    requires Bounded(hex, h.state.open[db].objects, caps.maxEvents - 1)
    ensures Running(hex, caps, Pushing(h, db, c))
  {
    PushKeepsBooks(h, db, c);
    PushKeepsOpen(hex, caps, h.state.open[db], db, NextSeq(h.state, db), c);
    PushedAreOpen(hex, caps, h.state, db, c);
  }

  lemma PushedAreOpen(hex: Hex, caps: Caps, st: State, db: string, c: Cce)
    requires AllWellOpen(hex, caps, st) && Ordered(st) && db in st.open
    requires WellOpen(hex, caps, st.open[db].(objects := st.open[db].objects + [c]), db, NextSeq(st, db))
    ensures AllWellOpen(hex, caps, Pushed(st, db, c)) && Ordered(Pushed(st, db, c))
  {
  }

  lemma DropKeepsOpen(hex: Hex, caps: Caps, st: State, db: string)
    requires AllWellOpen(hex, caps, st) && Ordered(st)
    ensures AllWellOpen(hex, caps, Drop(st, db)) && Ordered(Drop(st, db))
  {
    DropKeepsOrder(st, db);
  }

  lemma DropKeeps(hex: Hex, caps: Caps, h: History, db: string)
    requires Running(hex, caps, h) && (db in h.state.open ==> h.state.open[db].objects == [])
    ensures Running(hex, caps, h.(state := Drop(h.state, db)))
  {
    DropKeepsOpen(hex, caps, h.state, db);
    forall k ensures Accounts(h.(state := Drop(h.state, db)), k) {
      SameBooks(h, h.(state := Drop(h.state, db)), k);
    }
  }

  // ---------- the operations keep it ----------

  lemma CloseRests(hex: Hex, caps: Caps, st: State, db: string, trigger: SealTrigger, now: Instant)
    requires Resting(hex, caps, st) && db in st.open && st.open[db].objects != []
    ensures Resting(hex, caps, CloseStep(hex, st, db, trigger, now).state)
  {
  }

  /** Closing a full buffer leaves only buffers with room, or with a clash. */
  lemma CloseFullRests(hex: Hex, caps: Caps, st: State, db: string, now: Instant)
    requires db in st.open && st.open[db].objects != []
    requires forall k | k in st.open && k != db :: Bounded(hex, st.open[k].objects, caps.maxEvents - 1)
    ensures Resting(hex, caps, CloseStep(hex, st, db, EventCountCap, now).state)
  {
    CloseThrowsIff(hex, st.open[db], EventCountCap, now);
  }

  lemma CloseIfAgedKeeps(hex: Hex, caps: Caps, h: History, db: string, now: Instant)
    requires Running(hex, caps, h) && Resting(hex, caps, h.state)
    ensures Running(hex, caps, Then(h, CloseIfAged(hex, caps, h.state, db, now)))
    ensures Resting(hex, caps, CloseIfAged(hex, caps, h.state, db, now).state)
  {
    NothingClosed(h, h.state, false);
    if db in h.state.open && h.state.open[db].objects != [] {
      CloseKeeps(hex, caps, h, db, TimeCap, now);
      CloseRests(hex, caps, h.state, db, TimeCap, now);
    }
  }

  lemma CloseIfFullKeeps(hex: Hex, caps: Caps, h: History, db: string, now: Instant)
    requires Running(hex, caps, h) && caps.maxEvents >= 1 && db in h.state.open
    requires forall k | k in h.state.open && k != db :: Bounded(hex, h.state.open[k].objects, caps.maxEvents - 1)
    ensures Running(hex, caps, Then(h, CloseIfFull(hex, caps, h.state, db, now)))
    ensures Resting(hex, caps, CloseIfFull(hex, caps, h.state, db, now).state)
  {
    NothingClosed(h, h.state, false);
    if h.state.open[db].objects != [] {
      CloseKeeps(hex, caps, h, db, EventCountCap, now);
      CloseFullRests(hex, caps, h.state, db, now);
    }
  }

  /** The state in which the new envelope is pushed. */
  lemma ReadyKeeps(hex: Hex, caps: Caps, h: History, db: string, engine: string, now: Instant)
    requires Running(hex, caps, h) && Resting(hex, caps, h.state) && caps.maxEvents >= 1
    ensures var aged := CloseIfAged(hex, caps, h.state, db, now);
      var ready := WithOpen(aged.state, db, engine, now);
      Running(hex, caps, Then(h, aged).(state := ready)) && Resting(hex, caps, ready)
  {
    var aged := CloseIfAged(hex, caps, h.state, db, now);
    CloseIfAgedKeeps(hex, caps, h, db, now);
    if db !in aged.state.open {
      OpenKeeps(hex, caps, Then(h, aged), db, engine, now);
    }
  }

  lemma PushedOthersRest(hex: Hex, caps: Caps, st: State, db: string, c: Cce)
    requires Resting(hex, caps, st) && db in st.open
    ensures forall k | k in st.open && k != db :: Bounded(hex, Pushed(st, db, c).open[k].objects, caps.maxEvents - 1)
    ensures Bounded(hex, st.open[db].objects, caps.maxEvents - 1)
  {
  }

  lemma PushAndCloseKeeps(hex: Hex, caps: Caps, h: History, db: string, c: Cce, later: Instant)
    requires Running(hex, caps, h) && Resting(hex, caps, h.state) && caps.maxEvents >= 1
    requires db in h.state.open && AdmittedFor(c, db)
    ensures var full := CloseIfFull(hex, caps, Pushed(h.state, db, c), db, later);
      Running(hex, caps, Then(Pushing(h, db, c), full)) && Resting(hex, caps, full.state)
  {
    PushedOthersRest(hex, caps, h.state, db, c);
    PushKeeps(hex, caps, h, db, c);
    CloseIfFullKeeps(hex, caps, Pushing(h, db, c), db, later);
  }

  lemma AddKeeps(hex: Hex, caps: Caps, h: History, db: string, c: Cce, now: Instant, later: Instant)
    requires Running(hex, caps, h) && Resting(hex, caps, h.state) && caps.maxEvents >= 1 && AdmittedFor(c, db)
    ensures var aged, step := CloseIfAged(hex, caps, h.state, db, now), Added(hex, caps, h.state, db, c, now, later);
      && Running(hex, caps, Then(h, step).(admitted := h.admitted + if aged.threw then [] else [c]))
      && Resting(hex, caps, step.state)
  {
    var engine := OrEmpty(Engine(c));
    var aged := CloseIfAged(hex, caps, h.state, db, now);
    CloseIfAgedKeeps(hex, caps, h, db, now);
    if aged.threw {
      assert h.admitted + [] == h.admitted;
    } else {
      var ready := Then(h, aged).(state := WithOpen(aged.state, db, engine, now));
      ReadyKeeps(hex, caps, h, db, engine, now);
      PushAndCloseKeeps(hex, caps, ready, db, c, later);
      Regroup(h.closed, aged.closed, CloseIfFull(hex, caps, Pushed(ready.state, db, c), db, later).closed);
    }
  }

  lemma {:induction false} SweepKeeps(hex: Hex, caps: Caps, h: History, keys: seq<string>, now: Instant)
    requires Running(hex, caps, h) && Resting(hex, caps, h.state)
    ensures Running(hex, caps, Then(h, Swept(hex, caps, h.state, keys, now)))
    ensures Resting(hex, caps, Swept(hex, caps, h.state, keys, now).state)
    decreases |keys|
  {
    NothingClosed(h, h.state, false);
    if keys != [] {
      var first := CloseIfAged(hex, caps, h.state, keys[0], now);
      CloseIfAgedKeeps(hex, caps, h, keys[0], now);
      if !first.threw {
        SweepKeeps(hex, caps, Then(h, first), keys[1..], now);
        Regroup(h.closed, first.closed, Swept(hex, caps, first.state, keys[1..], now).closed);
      }
    }
  }

  lemma FlushOneKeeps(hex: Hex, caps: Caps, h: History, db: string, now: Instant)
    requires Running(hex, caps, h) && Resting(hex, caps, h.state)
    ensures Running(hex, caps, Then(h, FlushOne(hex, h.state, db, now)))
    ensures Resting(hex, caps, FlushOne(hex, h.state, db, now).state)
  {
    NothingClosed(h, Drop(h.state, db), false);
    if db in h.state.open && h.state.open[db].objects != [] {
      CloseKeeps(hex, caps, h, db, Flush, now);
      CloseRests(hex, caps, h.state, db, Flush, now);
    } else {
      DropKeeps(hex, caps, h, db);
    }
  }

  lemma {:induction false} FlushKeeps(hex: Hex, caps: Caps, h: History, keys: seq<string>, now: Instant)
    requires Running(hex, caps, h) && Resting(hex, caps, h.state)
    ensures Running(hex, caps, Then(h, Flushed(hex, h.state, keys, now)))
    ensures Resting(hex, caps, Flushed(hex, h.state, keys, now).state)
    decreases |keys|
  {
    NothingClosed(h, h.state, false);
    if keys != [] {
      var first := FlushOne(hex, h.state, keys[0], now);
      FlushOneKeeps(hex, caps, h, keys[0], now);
      if !first.threw {
        FlushKeeps(hex, caps, Then(h, first), keys[1..], now);
        Regroup(h.closed, first.closed, Flushed(hex, first.state, keys[1..], now).closed);
      }
    }
  }

  lemma RunningNext(hex: Hex, caps: Caps, h: History, e: Event)
    requires Running(hex, caps, h) && Resting(hex, caps, h.state) && caps.maxEvents >= 1
    ensures Running(hex, caps, Next(hex, caps, h, e)) && Resting(hex, caps, Next(hex, caps, h, e).state)
  {
    assert h.admitted + [] == h.admitted;
    NothingClosed(h, h.state, false);
    var next := Next(hex, caps, h, e);
    match e
    case Add(c, now, later) =>
      if Admit(c).Ok? {
        AddKeeps(hex, caps, h, Admit(c).value, c, now, later);
        var after := Then(h, Added(hex, caps, h.state, Admit(c).value, c, now, later)).(admitted := next.admitted);
        SameRunning(hex, caps, after, next);
      } else {
        SameRunning(hex, caps, h, next);
      }
    case Sweep(now) =>
      SweepKeeps(hex, caps, h, h.state.order, now);
      SameRunning(hex, caps, Then(h, Swept(hex, caps, h.state, h.state.order, now)), next);
    case FlushAll(now) =>
      FlushKeeps(hex, caps, h, h.state.order, now);
      SameRunning(hex, caps, Then(h, Flushed(hex, h.state, h.state.order, now)), next);
  }

  /** Who got the segments makes no difference to the books. */
  lemma SameRunning(hex: Hex, caps: Caps, h: History, next: History)
    requires Running(hex, caps, h)
    requires next.state == h.state && next.closed == h.closed && next.admitted == h.admitted
    ensures Running(hex, caps, next)
  {
    forall db ensures Accounts(next, db) {
      assert Accounts(h, db);
    }
  }

  lemma HandedOrLost(hex: Hex, caps: Caps, h: History, e: Event)
    requires multiset(h.closed) == multiset(h.emitted) + multiset(h.lost)
    ensures var next := Next(hex, caps, h, e); multiset(next.closed) == multiset(next.emitted) + multiset(next.lost)
  {
  }

  lemma NextBalances(hex: Hex, caps: Caps, h: History, e: Event)
    requires Inv(hex, caps, h) && Resting(hex, caps, h.state) && caps.maxEvents >= 1
    ensures Inv(hex, caps, Next(hex, caps, h, e)) && Resting(hex, caps, Next(hex, caps, h, e).state)
  {
    RunningNext(hex, caps, h, e);
    HandedOrLost(hex, caps, h, e);
  }

  /**
   In every run, for every database: closed segments are numbered 0, 1, 2, ... without a gap,
   each holds between one and `maxEvents` objects with aligned lists, and the envelopes taken are
   those of the closed segments and the open buffer, none lost or doubled; every closed segment
   was handed to a caller or lost in an exception.
   */
  lemma {:induction false} EveryRunBalances(hex: Hex, caps: Caps, events: seq<Event>)
    requires caps.maxEvents >= 1
    ensures Inv(hex, caps, Run(hex, caps, events)) && Resting(hex, caps, Run(hex, caps, events).state)
  {
    if events == [] {
      forall db ensures Accounts(NOTHING, db) {
        assert SegmentsOf([], db) == [] && ObjectsIn([]) == multiset{} && AdmittedTo([], db) == multiset{};
      }
    } else {
      EveryRunBalances(hex, caps, events[..|events| - 1]);
      NextBalances(hex, caps, Run(hex, caps, events[..|events| - 1]), events[|events| - 1]);
    }
  }

  // ---------- order of arrival ----------

  /** Envelopes of one segment in any order of arrival close to the identical segment, or throw alike. */
  lemma ArrivalOrderIsForgotten(hex: Hex, seg: OpenSegment, arrived: seq<Cce>, trigger: SealTrigger, at: Instant)
    requires seg.objects != [] && DistinctIds(seg.objects) && multiset(arrived) == multiset(seg.objects)
    ensures arrived != []
    ensures var a, b := Close(hex, seg.(objects := arrived), trigger, at), Close(hex, seg, trigger, at);
      (a.Ok? <==> b.Ok?) && (a.Ok? ==> a == b)
  {
    assert |arrived| == |multiset(arrived)|;
    ArrivalOrderIsIrrelevant(hex, seg.objects, arrived);
    OrderIsPermutation(hex, seg.objects);
    OrderIsPermutation(hex, arrived);
  }
}

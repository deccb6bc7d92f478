/** The accumulator itself: its maps change in place, step by step as specified. */
module Accumulator {
  import opened Outcomes
  import opened Instants
  import opened CceModel
  import opened CceOrder
  import opened ManifestModel
  import opened ManifestBuilder
  import opened Accumulation
  import opened AccumulatorSteps
  import opened Sequences
  import opened Sorting
  import opened Texts

  class SegmentAccumulator {
    const hex: Hex
    const caps: Caps
    var order: seq<string>
    var open: map<string, OpenSegment>
    var nextSeq: map<string, nat>

    ghost function Value(): State
      reads this
    {
      State(order, open, nextSeq)
    }

    /** Keys and map agree, and each open segment is filed under its own database. */
    ghost predicate Valid()
      reads this
    {
      && caps.maxEvents >= 1 && Ordered(Value())
      && (forall k | k in open :: open[k].dbId == k)
    }

    constructor (hex: Hex, caps: Caps)
      requires caps.maxEvents >= 1
      ensures Valid() && Value() == EMPTY && this.hex == hex && this.caps == caps
    {
      this.hex, this.caps := hex, caps;
      order, open, nextSeq := [], map[], map[];
    }

    static lemma OneMoreCounted(cs: seq<Cce>, i: nat, state: string)
      requires i < |cs|
      ensures CountState(cs[..i + 1], state) == CountState(cs[..i], state) + if FidelityState(cs[i]) == Some(state) then 1 else 0
    {
      assert cs[..i + 1][..i] == cs[..i] && cs[..i + 1][i] == cs[i];
    }

    static lemma OneMoreGivesReason(cs: seq<Cce>, i: nat)
      requires i < |cs|
      ensures Reasons(cs[..i + 1]) ==
        if HasReason(cs[i]) && DegradedReason(cs[i]).value !in Reasons(cs[..i]) then Reasons(cs[..i]) + [DegradedReason(cs[i]).value]
        else Reasons(cs[..i])
    {
      assert cs[..i + 1][..i] == cs[..i] && cs[..i + 1][i] == cs[i];
    }

    /** The two counters, the reasons and the gap flag, gathered in one pass. */
    method Summarize(cs: seq<Cce>) returns (fidelity: FidelitySummary, gap: bool)
      ensures fidelity == FidelityOf(cs) && gap == AnyGap(cs)
    {
      var degraded, compromised := 0, 0;
      var reasons: seq<string> := [];
      gap := false;
      var i := 0;
      while i < |cs|
        invariant 0 <= i <= |cs|
        invariant degraded == CountState(cs[..i], "DEGRADED") && compromised == CountState(cs[..i], "COMPROMISED")
        invariant reasons == Reasons(cs[..i])
        invariant gap <==> exists j | 0 <= j < i :: GapDetected(cs[j]) == Some(true)
      {
        var c := cs[i];
        OneMoreCounted(cs, i, "DEGRADED");
        OneMoreCounted(cs, i, "COMPROMISED");
        OneMoreGivesReason(cs, i);
        if FidelityState(c) == Some("DEGRADED") {
          degraded := degraded + 1;
          assert FidelityState(c) != Some("COMPROMISED") by { assert |"DEGRADED"| != |"COMPROMISED"|; }
        } else if FidelityState(c) == Some("COMPROMISED") {
          compromised := compromised + 1;
        }
        if HasReason(c) && DegradedReason(c).value !in reasons {
          reasons := reasons + [DegradedReason(c).value];
        }
        if GapDetected(c) == Some(true) {
          gap := true;
        }
        i := i + 1;
      }
      assert cs[..i] == cs;
      fidelity := FidelitySummary(degraded == 0 && compromised == 0, degraded, compromised, Sort(CompareStrings, reasons));
    }

    /** `seal`: describe the ordered buffer and take the next sequence number; throws before it changes anything. */
    method Seal(seg: OpenSegment, trigger: SealTrigger, closedAt: Instant) returns (r: Result<SealReady>)
      requires seg.objects != []
      requires Valid()
      modifies this`nextSeq
      ensures Valid() && r == Close(hex, seg, trigger, closedAt)
      ensures Value() == if r.Ok? then old(Value()).(nextSeq := old(nextSeq)[seg.dbId := seg.segmentSequence + 1])
                         else old(Value())
    {
      OrderIsPermutation(hex, seg.objects);
      var ordered :- OrderCces(hex, seg.objects);
      var first, last := ordered[0], ordered[|ordered| - 1];
      var fidelity, gap := Summarize(ordered);
      nextSeq := nextSeq[seg.dbId := seg.segmentSequence + 1];
      r := Ok(SealReady(
        seg.dbId, seg.engine, seg.segmentId, seg.segmentSequence, seg.openedAt.text, closedAt.text, trigger, |ordered|,
        OrEmpty(EnvelopeId(first)), OrEmpty(EnvelopeId(last)), first.evidence.rowHash, last.evidence.rowHash,
        RefsOf(seg.dbId, seg.segmentId, ordered), HashesOf(ordered), OffsetsOf(ordered), fidelity,
        CompletenessSummary(gap, !gap, []), ordered));
    }

    /** Close the open segment of `db` and forget it. */
    method CloseOpen(db: string, trigger: SealTrigger, at: Instant) returns (closed: seq<SealReady>, threw: bool)
      requires Valid() && db in open && open[db].objects != []
      modifies this
      ensures Valid() && CloseStep(hex, old(Value()), db, trigger, at) == Step(Value(), closed, threw)
    {
      ghost var st := Value();
      var seg := open[db];
      var s := Seal(seg, trigger, at);
      if s.Err? {
        return [], true;
      }
      Remove(db);
      ClosedInTwoSteps(st, db, seg);
      closed, threw := [s.value], false;
    }

    static lemma ClosedInTwoSteps(st: State, db: string, seg: OpenSegment)
      requires db in st.open && seg == st.open[db] && seg.dbId == db
      ensures Drop(st.(nextSeq := st.nextSeq[seg.dbId := seg.segmentSequence + 1]), db) == Closed(st, db)
    {
    }

    /** `open.delete(db)` */
    method Remove(db: string)
      requires Valid()
      modifies this`order, this`open
      ensures Valid() && Value() == Drop(old(Value()), db)
    {
      DropKeepsOrder(Value(), db);
      order, open := Without(order, db), open - {db};
    }

    method CloseAged(db: string, now: Instant) returns (closed: seq<SealReady>, threw: bool)
      requires Valid()
      modifies this
      ensures Valid() && CloseIfAged(hex, caps, old(Value()), db, now) == Step(Value(), closed, threw)
    {
      closed, threw := [], false;
      if db in open && |open[db].objects| > 0 && Aged(caps, open[db], now) {
        closed, threw := CloseOpen(db, TimeCap, now);
      }
    }

    method CloseFull(db: string, now: Instant) returns (closed: seq<SealReady>, threw: bool)
      requires Valid() && db in open
      modifies this
      ensures Valid() && CloseIfFull(hex, caps, old(Value()), db, now) == Step(Value(), closed, threw)
    {
      closed, threw := [], false;
      if |open[db].objects| >= caps.maxEvents {
        closed, threw := CloseOpen(db, EventCountCap, now);
      }
    }

    method OpenIfNone(db: string, engine: string, now: Instant)
      requires Valid()
      modifies this`order, this`open
      ensures Valid() && Value() == WithOpen(old(Value()), db, engine, now)
    {
      if db !in open {
        var n := if db in nextSeq then nextSeq[db] else 0;
        order, open := order + [db], open[db := OpenSegment(db, engine, SegmentId(n), n, now, [])];
      }
    }

    /**
     Admit and buffer one envelope; `later` is the second reading of the clock.  `closed` is what
     the specification counts as closed, also when an exception keeps it from the caller.
     */
    method Add(c: Cce, now: Instant, later: Instant)
      returns (r: Result<seq<SealReady>>, rejected: Option<string>, ghost closed: seq<SealReady>)
      requires Valid()
      modifies this
      ensures Valid()
      ensures Apply(hex, caps, old(Value()), Event.Add(c, now, later)) == Step(Value(), closed, r.Err?)
      ensures r.Ok? ==> r.value == closed
      ensures r.Ok? && Admit(c).Ok? ==>
        AddsExactly(hex, caps, old(Value()), Admit(c).value, c, now, later, Step(Value(), closed, false))
      ensures rejected == if Admit(c).Ok? then None else Some(Admit(c).error)
    {
      ghost var st := Value();
      r, rejected, closed := Take(c, now, later);
      if r.Ok? && rejected.None? {
        AddIsExact(hex, caps, st, Admit(c).value, c, now, later);
      }
    }

    method Take(c: Cce, now: Instant, later: Instant)
      returns (r: Result<seq<SealReady>>, rejected: Option<string>, ghost closed: seq<SealReady>)
      requires Valid()
      modifies this
      ensures Valid()
      ensures Apply(hex, caps, old(Value()), Event.Add(c, now, later)) == Step(Value(), closed, r.Err?)
      ensures r.Ok? ==> r.value == closed
      ensures rejected == if Admit(c).Ok? then None else Some(Admit(c).error)
    {
      var admission := Admit(c);
      if admission.Err? {
        return Ok([]), Some(admission.error), [];
      }
      var db := admission.value;
      rejected := None;
      var aged, threw := CloseAged(db, now);
      closed := aged;
      if threw {
        return Err("not comparable"), None, closed;
      }
      OpenIfNone(db, OrEmpty(Engine(c)), now);
      open := open[db := open[db].(objects := open[db].objects + [c])];
      var full, threwFull := CloseFull(db, later);
      closed := closed + full;
      r := if threwFull then Err("not comparable") else Ok(aged + full);
    }

    method Sweep(now: Instant) returns (r: Result<seq<SealReady>>, ghost closed: seq<SealReady>)
      requires Valid()
      modifies this
      ensures Valid()
      ensures Apply(hex, caps, old(Value()), Event.Sweep(now)) == Step(Value(), closed, r.Err?)
      ensures r.Ok? ==> r.value == closed && SweepsExactly(hex, caps, old(Value()), now, Step(Value(), closed, false))
    {
      ghost var st := Value();
      r, closed := CloseAllAged(now);
      if r.Ok? {
        SweepIsExact(hex, caps, st, now);
      }
    }

    method CloseAllAged(now: Instant) returns (r: Result<seq<SealReady>>, ghost closed: seq<SealReady>)
      requires Valid()
      modifies this
      ensures Valid()
      ensures Apply(hex, caps, old(Value()), Event.Sweep(now)) == Step(Value(), closed, r.Err?)
      ensures r.Ok? ==> r.value == closed
    {
      var sealed: seq<SealReady> := [];
      var rest := order;
      while rest != []
        invariant Valid()
        invariant SweptFrom(Value(), sealed, rest, now) == Swept(hex, caps, old(Value()), old(order), now)
        decreases |rest|
      {
        SweepOneStep(Value(), sealed, rest, now);
        var s, threw := CloseAged(rest[0], now);
        if threw {
          return Err("not comparable"), sealed + s;
        }
        sealed := sealed + s;
        rest := rest[1..];
      }
      r, closed := Ok(sealed), sealed;
      SweptToTheEnd(Value(), sealed, now);
    }

    lemma SweptToTheEnd(st: State, before: seq<SealReady>, now: Instant)
      ensures SweptFrom(st, before, [], now) == Step(st, before, false)
    {
      assert before + [] == before;
    }

    /** What is left to do when the segments so far are already in hand. */
    ghost function SweptFrom(st: State, before: seq<SealReady>, keys: seq<string>, now: Instant): Step {
      Joined(before, Swept(hex, caps, st, keys, now))
    }

    static ghost function Joined(before: seq<SealReady>, step: Step): Step {
      Step(step.state, before + step.closed, step.threw)
    }

    lemma SweepOneStep(st: State, before: seq<SealReady>, keys: seq<string>, now: Instant)
      requires keys != []
      ensures var first := CloseIfAged(hex, caps, st, keys[0], now);
        SweptFrom(st, before, keys, now) ==
          if first.threw then Joined(before, first) else SweptFrom(first.state, before + first.closed, keys[1..], now)
    {
      var first := CloseIfAged(hex, caps, st, keys[0], now);
      Regroup(before, first.closed, Swept(hex, caps, first.state, keys[1..], now).closed);
    }

    method FlushKey(db: string, now: Instant) returns (closed: seq<SealReady>, threw: bool)
      requires Valid()
      modifies this
      ensures Valid() && FlushOne(hex, old(Value()), db, now) == Step(Value(), closed, threw)
    {
      closed, threw := [], false;
      if db in open && |open[db].objects| > 0 {
        closed, threw := CloseOpen(db, Flush, now);
      } else {
        Remove(db);
      }
    }

    method FlushAll(now: Instant) returns (r: Result<seq<SealReady>>, ghost closed: seq<SealReady>)
      requires Valid()
      modifies this
      ensures Valid()
      ensures Apply(hex, caps, old(Value()), Event.FlushAll(now)) == Step(Value(), closed, r.Err?)
      ensures r.Ok? ==> r.value == closed && FlushesExactly(hex, old(Value()), now, Step(Value(), closed, false))
    {
      ghost var st := Value();
      r, closed := FlushKeys(now);
      if r.Ok? {
        FlushIsExact(hex, caps, st, now);
      }
    }

    method FlushKeys(now: Instant) returns (r: Result<seq<SealReady>>, ghost closed: seq<SealReady>)
      requires Valid()
      modifies this
      ensures Valid()
      ensures Apply(hex, caps, old(Value()), Event.FlushAll(now)) == Step(Value(), closed, r.Err?)
      ensures r.Ok? ==> r.value == closed
    {
      var sealed: seq<SealReady> := [];
      var rest := order;
      while rest != []
        invariant Valid()
        invariant FlushedFrom(Value(), sealed, rest, now) == Flushed(hex, old(Value()), old(order), now)
        decreases |rest|
      {
        FlushOneStep(Value(), sealed, rest, now);
        var s, threw := FlushKey(rest[0], now);
        if threw {
          return Err("not comparable"), sealed + s;
        }
        sealed := sealed + s;
        rest := rest[1..];
      }
      r, closed := Ok(sealed), sealed;
      FlushedToTheEnd(Value(), sealed, now);
    }

    lemma FlushedToTheEnd(st: State, before: seq<SealReady>, now: Instant)
      ensures FlushedFrom(st, before, [], now) == Step(st, before, false)
    {
      assert before + [] == before;
    }

    ghost function FlushedFrom(st: State, before: seq<SealReady>, keys: seq<string>, now: Instant): Step {
      Joined(before, Flushed(hex, st, keys, now))
    }

    lemma FlushOneStep(st: State, before: seq<SealReady>, keys: seq<string>, now: Instant)
      requires keys != []
      ensures var first := FlushOne(hex, st, keys[0], now);
        FlushedFrom(st, before, keys, now) ==
          if first.threw then Joined(before, first) else FlushedFrom(first.state, before + first.closed, keys[1..], now)
    {
      var first := FlushOne(hex, st, keys[0], now);
      Regroup(before, first.closed, Flushed(hex, first.state, keys[1..], now).closed);
    }
  }
}

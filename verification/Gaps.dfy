/**
 What a gap is, and when the rules of services/cdc-collector/src/completeness/gtid.ts and watcher.ts
 find it: for every set built by additions, ranges with swapped ends among them.
 */
module Gaps {
  import opened Outcomes
  import opened Intervals
  import opened Gtid

  // ---------- the gap there is ----------

  /** A number the source executed, below some consumed number of the key, that was not consumed. */
  ghost predicate Missing(consumed: GtidMap, source: GtidMap, key: string, n: int) {
    && source.Contains(key, n)
    && !consumed.Contains(key, n)
    && exists c :: c >= n && consumed.Contains(key, c)
  }

  /** An unconsumed number between two consumed ones of the same key. */
  ghost predicate Hole(consumed: GtidMap, key: string, n: int) {
    && !consumed.Contains(key, n)
    && (exists a :: a < n && consumed.Contains(key, a))
    && (exists c :: c > n && consumed.Contains(key, c))
  }

  ghost predicate HasHole(consumed: GtidMap, key: string) {
    exists n :: Hole(consumed, key, n)
  }

  /** Some number is missing: between two consumed ones, or known to the source. */
  ghost predicate GapExists(consumed: GtidMap, known: GtidMap) {
    (exists k :: HasHole(consumed, k)) || (exists k, n :: Missing(consumed, known, k, n))
  }

  // ---------- the gap the code looks for ----------

  /** The end of the key's last interval, if any. */
  function HighWatermark(m: GtidMap, key: string): Option<nat> {
    var ivs := m.For(key);
    if ivs == [] then None else Some(ivs[|ivs| - 1].end)
  }

  /** Executed, at or below the watermark, not consumed. */
  ghost predicate MissingTo(consumed: GtidMap, source: GtidMap, key: string, n: int) {
    && source.Contains(key, n)
    && !consumed.Contains(key, n)
    && HighWatermark(consumed, key).Some? && n <= HighWatermark(consumed, key).value
  }

  ghost predicate GapDetected(consumed: GtidMap, known: GtidMap) {
    (exists k :: |consumed.For(k)| > 1) || (exists k, n :: MissingTo(consumed, known, k, n))
  }

  // ---------- holes ----------

  predicate Ascends(iv: Interval) {
    iv.start <= iv.end
  }

  predicate TwoAscend(ivs: seq<Interval>) {
    exists i, j | 0 <= i < j < |ivs| :: Ascends(ivs[i]) && Ascends(ivs[j])
  }

  lemma AfterAnInterval(ivs: seq<Interval>, i: nat)
    requires Separate(ivs) && i < |ivs| && Ascends(ivs[i])
    ensures !Covers(ivs, ivs[i].end + 1)
  {
    forall l | 0 <= l < |ivs| ensures !ivs[l].Has(ivs[i].end + 1) {
      if l < i {
        assert ivs[l].end + 1 < ivs[i].start;
      }
    }
  }

  lemma OneAscends(ivs: seq<Interval>, a: int, c: int) returns (i: nat)
    requires !TwoAscend(ivs) && Covers(ivs, a) && Covers(ivs, c)
    ensures i < |ivs| && ivs[i].Has(a) && ivs[i].Has(c)
  {
    i :| 0 <= i < |ivs| && ivs[i].Has(a);
    var j :| 0 <= j < |ivs| && ivs[j].Has(c);
    assert Ascends(ivs[i]) && Ascends(ivs[j]);
  }

  lemma NoHoleInOne(m: GtidMap, key: string, n: int)
    requires !TwoAscend(m.For(key))
    ensures !Hole(m, key, n)
  {
    if (exists a :: a < n && m.Contains(key, a)) && (exists c :: c > n && m.Contains(key, c)) {
      var a :| a < n && m.Contains(key, a);
      var c :| c > n && m.Contains(key, c);
      var i := OneAscends(m.For(key), a, c);
      assert m.For(key)[i].Has(n);
    }
  }

  /** A key has a hole exactly when two of its intervals have ascending ends. */
  lemma HoleIff(m: GtidMap, key: string)
    requires m.IsSeparate()
    ensures HasHole(m, key) <==> TwoAscend(m.For(key))
  {
    var ivs := m.For(key);
    if TwoAscend(ivs) {
      var i, j :| 0 <= i < j < |ivs| && Ascends(ivs[i]) && Ascends(ivs[j]);
      AfterAnInterval(ivs, i);
      assert ivs[i].Has(ivs[i].end) && ivs[j].Has(ivs[j].start);
      assert m.Contains(key, ivs[i].end) && m.Contains(key, ivs[j].start);
      assert Hole(m, key, ivs[i].end + 1);
    } else {
      forall n ensures !Hole(m, key, n) {
        NoHoleInOne(m, key, n);
      }
    }
  }

  /** Every key with several intervals has two with ascending ends. */
  predicate HolesShow(m: GtidMap) {
    forall k | k in m.ivs :: |m.For(k)| <= 1 || TwoAscend(m.For(k))
  }

  lemma InternalGapsAreExactIff(m: GtidMap)
    requires m.IsSeparate()
    ensures (forall k :: |m.For(k)| > 1 <==> HasHole(m, k)) <==> HolesShow(m)
  {
    forall k ensures HasHole(m, k) <==> TwoAscend(m.For(k)) {
      HoleIff(m, k);
    }
  }

  // ---------- the watermark ----------

  predicate LastAscending(ivs: seq<Interval>, i: nat) {
    i < |ivs| && Ascends(ivs[i]) && forall j | i < j < |ivs| :: !Ascends(ivs[j])
  }

  /** The end of the last interval lies in, or right before, the last one with ascending ends. */
  predicate WatermarkFits(ivs: seq<Interval>) {
    ivs != [] ==>
      exists i | 0 <= i < |ivs| :: LastAscending(ivs, i) && ivs[i].start <= ivs[|ivs| - 1].end + 1 <= ivs[i].end + 1
  }

  lemma {:induction false} FindLastAscending(ivs: seq<Interval>, n: nat) returns (i: nat)
    requires n <= |ivs| && (exists j :: 0 <= j < n && Ascends(ivs[j])) && forall j | n <= j < |ivs| :: !Ascends(ivs[j])
    ensures LastAscending(ivs, i)
  {
    if Ascends(ivs[n - 1]) {
      i := n - 1;
    } else {
      i := FindLastAscending(ivs, n - 1);
    }
  }

  /** The last interval with ascending ends holds the highest number. */
  lemma LastIsHighest(ivs: seq<Interval>, i: nat)
    requires Separate(ivs) && LastAscending(ivs, i)
    ensures Covers(ivs, ivs[i].end) && forall c | Covers(ivs, c) :: c <= ivs[i].end
    ensures ivs[i].start > 0 ==> !Covers(ivs, ivs[i].start - 1)
  {
    assert ivs[i].Has(ivs[i].end);
    forall l | 0 <= l < |ivs| ensures (forall c | ivs[l].Has(c) :: c <= ivs[i].end) && !ivs[l].Has(ivs[i].start - 1) {
      if l < i {
        assert ivs[l].end + 1 < ivs[i].start;
      }
    }
  }

  /** A source that executed one number. */
  function Only(key: string, n: nat): GtidMap {
    GtidMap([key], map[key := [Interval(n, n)]])
  }

  lemma OnlyContains(key: string, n: nat, x: int)
    ensures Only(key, n).Contains(key, x) <==> x == n
  {
    assert Only(key, n).For(key) == [Interval(n, n)];
    if x == n {
      assert Only(key, n).For(key)[0].Has(n);
    }
  }

  /** Unconsumed numbers lie below the watermark exactly when they lie below the highest one consumed. */
  lemma HighestDecides(ivs: seq<Interval>, i: nat, n: int)
    requires i < |ivs| && ivs[i].start <= ivs[|ivs| - 1].end + 1 <= ivs[i].end + 1 && !Covers(ivs, n)
    ensures n <= ivs[|ivs| - 1].end <==> n <= ivs[i].end
  {
    assert !ivs[i].Has(n);
  }

  lemma FittingList(ivs: seq<Interval>, n: int)
    requires Separate(ivs) && WatermarkFits(ivs) && !Covers(ivs, n)
    ensures (ivs != [] && n <= ivs[|ivs| - 1].end) <==> exists c :: c >= n && Covers(ivs, c)
  {
    if ivs != [] {
      var i :| 0 <= i < |ivs| && LastAscending(ivs, i) && ivs[i].start <= ivs[|ivs| - 1].end + 1 <= ivs[i].end + 1;
      LastIsHighest(ivs, i);
      HighestDecides(ivs, i, n);
    }
  }

  lemma BelowConsumed(m: GtidMap, key: string, n: int)
    ensures (exists c :: c >= n && m.Contains(key, c)) <==> exists c :: c >= n && Covers(m.For(key), c)
  {
    assert forall c :: m.Contains(key, c) <==> Covers(m.For(key), c);
  }

  lemma FittingIsExact(m: GtidMap, source: GtidMap, key: string, n: int)
    requires Separate(m.For(key)) && WatermarkFits(m.For(key))
    ensures MissingTo(m, source, key, n) <==> Missing(m, source, key, n)
  {
    if !m.Contains(key, n) {
      FittingList(m.For(key), n);
      BelowConsumed(m, key, n);
    }
  }

  /** Otherwise one number executed by a source is judged wrongly. */
  lemma NotFittingFails(m: GtidMap, key: string) returns (n: nat)
    requires Separate(m.For(key)) && !WatermarkFits(m.For(key))
    ensures !(MissingTo(m, Only(key, n), key, n) <==> Missing(m, Only(key, n), key, n))
  {
    var ivs := m.For(key);
    var top := ivs[|ivs| - 1].end;
    n := top;
    if exists j :: 0 <= j < |ivs| && Ascends(ivs[j]) {
      var i := FindLastAscending(ivs, |ivs|);
      LastIsHighest(ivs, i);
      if top <= ivs[i].end {
        n := ivs[i].start - 1;
        assert m.Contains(key, ivs[i].end);
      }
    }
    OnlyContains(key, n, n);
  }

  /** What lies below the watermark is what is missing, for every source, exactly when the watermark fits. */
  lemma WatermarkIsExactIff(m: GtidMap, key: string)
    requires m.IsSeparate()
    ensures (forall source: GtidMap, n: int :: MissingTo(m, source, key, n) <==> Missing(m, source, key, n))
      <==> WatermarkFits(m.For(key))
  {
    if WatermarkFits(m.For(key)) {
      forall source: GtidMap, n: int ensures MissingTo(m, source, key, n) <==> Missing(m, source, key, n) {
        FittingIsExact(m, source, key, n);
      }
    } else {
      var n := NotFittingFails(m, key);
    }
  }

  // ---------- the alarm ----------

  lemma SingleIsNotOverlooked(m: GtidMap, source: GtidMap, key: string, n: int)
    requires |m.For(key)| <= 1 && Missing(m, source, key, n)
    ensures MissingTo(m, source, key, n)
  {
    var c :| c >= n && m.Contains(key, c);
    assert m.For(key)[0].Has(c);
  }

  /** No gap is ever overlooked, whatever was consumed. */
  lemma NoGapIsOverlooked(m: GtidMap, known: GtidMap)
    requires m.IsSeparate()
    ensures forall k | HasHole(m, k) :: |m.For(k)| > 1
    ensures forall k, n | Missing(m, known, k, n) :: |m.For(k)| > 1 || MissingTo(m, known, k, n)
    ensures GapExists(m, known) ==> GapDetected(m, known)
  {
    forall k | HasHole(m, k) ensures |m.For(k)| > 1 {
      HoleIff(m, k);
    }
    forall k, n | Missing(m, known, k, n) ensures |m.For(k)| > 1 || MissingTo(m, known, k, n) {
      if |m.For(k)| <= 1 {
        SingleIsNotOverlooked(m, known, k, n);
      }
    }
  }

  lemma CanonicalFits(ivs: seq<Interval>)
    requires Canonical(ivs)
    ensures WatermarkFits(ivs) && (|ivs| <= 1 || TwoAscend(ivs))
  {
    if ivs != [] {
      assert LastAscending(ivs, |ivs| - 1);
    }
    if |ivs| > 1 {
      assert Ascends(ivs[0]) && Ascends(ivs[1]);
    }
  }

  lemma CanonicalIsExact(m: GtidMap, known: GtidMap)
    requires m.IsSeparate() && m.IsCanonical()
    ensures GapDetected(m, known) <==> GapExists(m, known)
  {
    NoGapIsOverlooked(m, known);
    forall k ensures WatermarkFits(m.For(k)) && (|m.For(k)| <= 1 || TwoAscend(m.For(k))) {
      CanonicalFits(m.For(k));
    }
    InternalGapsAreExactIff(m);
    forall k, n ensures MissingTo(m, known, k, n) <==> Missing(m, known, k, n) {
      FittingIsExact(m, known, k, n);
    }
  }

  lemma ManyAreDetected(m: GtidMap, key: string)
    requires |m.For(key)| > 1
    ensures GapDetected(m, EMPTY)
    ensures forall k, n :: !Missing(m, EMPTY, k, n)
  {
    forall k, n ensures !Missing(m, EMPTY, k, n) {
      assert EMPTY.For(k) == [];
    }
  }

  lemma NotCanonicalAt(m: GtidMap) returns (key: string)
    requires m.Valid() && !m.IsCanonical()
    ensures key in m.ivs && !Canonical(m.For(key))
  {
    key :| key in m.ivs && !Canonical(m.ivs[key]);
  }

  /** With a swapped range and no hole some source raises the alarm for nothing. */
  lemma FalseAlarm(m: GtidMap) returns (known: GtidMap)
    requires m.IsSeparate() && !m.IsCanonical() && forall k :: !HasHole(m, k)
    ensures GapDetected(m, known) && !GapExists(m, known)
  {
    var key := NotCanonicalAt(m);
    if |m.For(key)| > 1 {
      known := EMPTY;
      ManyAreDetected(m, key);
    } else {
      known := LoneSwappedMisses(m, key);
    }
  }

  lemma LoneSwappedMisses(m: GtidMap, key: string) returns (known: GtidMap)
    requires m.Valid() && key in m.ivs && |m.For(key)| <= 1 && !Canonical(m.For(key))
    ensures GapDetected(m, known)
    ensures forall k, n :: !Missing(m, known, k, n)
  {
    var top := m.For(key)[0].end;
    known := Only(key, top);
    OnlyContains(key, top, top);
    assert forall c :: !m.Contains(key, c);
    assert MissingTo(m, known, key, top);
    forall k, n ensures !Missing(m, known, k, n) {
      assert k != key ==> known.For(k) == [];
    }
  }

  /** The alarm is right for every source exactly when no swapped range is held, or there is a hole anyway. */
  lemma AlarmIsExactIff(m: GtidMap)
    requires m.IsSeparate()
    ensures (forall known: GtidMap :: GapDetected(m, known) <==> GapExists(m, known))
      <==> m.IsCanonical() || exists k :: HasHole(m, k)
  {
    if m.IsCanonical() {
      forall known: GtidMap ensures GapDetected(m, known) <==> GapExists(m, known) {
        CanonicalIsExact(m, known);
      }
    } else if exists k :: HasHole(m, k) {
      forall known: GtidMap ensures GapDetected(m, known) <==> GapExists(m, known) {
        NoGapIsOverlooked(m, known);
      }
    } else {
      var known := FalseAlarm(m);
    }
  }

  // ---------- inputs on which the rules fail ----------

  /** Two additions for one key, the second far above the first with its ends swapped. */
  function Two(key: string, first: Interval, second: Interval): GtidMap {
    Added(Added(EMPTY, Tagged(key, first)), Tagged(key, second))
  }

  lemma PairIsMerged(first: Interval, second: Interval)
    requires Ascends(first) && first.end + 1 < second.start
    ensures Merge([first]) == [first] && Merge([first, second]) == [first, second]
  {
    SeparateIsMerged([first]);
    SeparateIsMerged([first, second]);
  }

  lemma OneIsHeld(key: string, first: Interval)
    requires Merge([first]) == [first]
    ensures Added(EMPTY, Tagged(key, first)) == GtidMap([key], map[key := [first]])
  {
    assert [] + [first] == [first] && [] + [key] == [key];
  }

  lemma TwoAreHeld(key: string, first: Interval, second: Interval)
    requires Ascends(first) && first.end + 1 < second.start
    ensures Two(key, first, second) == GtidMap([key], map[key := [first, second]])
    ensures Separate([first, second])
  {
    PairIsMerged(first, second);
    OneIsHeld(key, first);
    assert [first] + [second] == [first, second];
  }

  lemma TwoIsSeparate(key: string, first: Interval, second: Interval)
    requires Ascends(first) && first.end + 1 < second.start
    ensures Two(key, first, second).IsSeparate()
  {
    AddedKeepsSeparate(EMPTY, Tagged(key, first));
    AddedKeepsSeparate(Added(EMPTY, Tagged(key, first)), Tagged(key, second));
  }

  lemma PairCovers(first: Interval, second: Interval, n: int)
    ensures Covers([first, second], n) <==> first.Has(n) || second.Has(n)
  {
    assert [first, second][0].Has(n) <==> first.Has(n);
    assert [first, second][1].Has(n) <==> second.Has(n);
  }

  /** 1 alone was consumed, and a hole is reported. */
  lemma SwappedRangeLooksLikeAHole(key: string)
    ensures var m := Two(key, Interval(1, 1), Interval(5, 3)); |m.For(key)| > 1 && !HasHole(m, key)
  {
    var m := Two(key, Interval(1, 1), Interval(5, 3));
    TwoAreHeld(key, Interval(1, 1), Interval(5, 3));
    TwoIsSeparate(key, Interval(1, 1), Interval(5, 3));
    HoleIff(m, key);
  }

  /** 8 to 10 were consumed; the watermark drops to 3, and a missing 5 is not listed any more. */
  lemma SwappedRangeLowersTheWatermark(key: string)
    ensures var m := Two(key, Interval(8, 10), Interval(50, 3));
      Missing(m, Only(key, 5), key, 5) && !MissingTo(m, Only(key, 5), key, 5)
  {
    var m := Two(key, Interval(8, 10), Interval(50, 3));
    TwoAreHeld(key, Interval(8, 10), Interval(50, 3));
    OnlyContains(key, 5, 5);
    PairCovers(Interval(8, 10), Interval(50, 3), 5);
    PairCovers(Interval(8, 10), Interval(50, 3), 10);
    assert m.Contains(key, 10);
  }

  lemma PairFits(first: Interval, second: Interval)
    requires Ascends(first) && !Ascends(second) && first.start <= second.end + 1 <= first.end + 1
    ensures WatermarkFits([first, second])
  {
    assert LastAscending([first, second], 0);
  }

  /** A watermark below the highest number consumed does no harm when everything between was consumed. */
  lemma LowWatermarkCanFit(key: string, source: GtidMap, n: int)
    ensures var m := Two(key, Interval(3, 10), Interval(50, 3));
      && HighWatermark(m, key) == Some(3) && m.Contains(key, 10)
      && (MissingTo(m, source, key, n) <==> Missing(m, source, key, n))
  {
    var m := Two(key, Interval(3, 10), Interval(50, 3));
    TwoAreHeld(key, Interval(3, 10), Interval(50, 3));
    PairCovers(Interval(3, 10), Interval(50, 3), 10);
    PairFits(Interval(3, 10), Interval(50, 3));
    FittingIsExact(m, source, key, n);
  }
}

/**
 The mutable GTID set (services/cdc-collector/src/completeness/gtid.ts) and the completeness
 watcher that detects and alarms gaps (services/cdc-collector/src/completeness/watcher.ts).
 */
module Watcher {
  import opened Outcomes
  import opened Texts
  import opened Intervals
  import opened Gtid
  import opened GtidCodec
  import opened Gaps

  class GtidSet {
    var keys: seq<string>
    var ivs: map<string, seq<Interval>>

    ghost predicate Valid()
      reads this
    {
      Value().IsSeparate()
    }

    function Value(): GtidMap
      reads this
    {
      GtidMap(keys, ivs)
    }

    constructor ()
      ensures Valid() && Value() == EMPTY
    {
      keys, ivs := [], map[];
    }

    method Add(t: Tagged)
      requires Valid()
      modifies this
      ensures Valid() && Value() == Added(old(Value()), t)
      ensures t.iv.start <= t.iv.end && old(Value().IsCanonical()) ==> Value().IsCanonical()
    {
      AddedKeepsValid(Value(), t);
      AddedKeepsSeparate(Value(), t);
      var cur := if t.key in ivs then ivs[t.key] else [];
      var merged := MergeIntervals(cur + [t.iv]);
      if t.key !in ivs {
        keys := keys + [t.key];
      }
      ivs := ivs[t.key := merged];
    }

    method AddAll(ts: seq<Tagged>)
      requires Valid()
      modifies this
      ensures Valid() && Value() == AddedAll(old(Value()), ts)
    {
      for i := 0 to |ts|
        invariant Valid() && Value() == AddedAll(old(Value()), ts[..i])
      {
        assert ts[..i + 1][..i] == ts[..i];
        Add(ts[i]);
      }
      assert ts[..|ts|] == ts;
    }

    method AddToken(engine: Engine, token: string)
      requires Valid()
      modifies this
      ensures Valid() && Value() == AddedAll(old(Value()), ParseToken(engine, token))
    {
      AddAll(ParseToken(engine, token));
    }

    method ContainsNumber(key: string, n: nat) returns (b: bool)
      requires Valid()
      ensures b <==> Value().Contains(key, n)
    {
      var list := if key in ivs then ivs[key] else [];
      for i := 0 to |list|
        invariant !Covers(list[..i], n)
      {
        if list[i].start <= n <= list[i].end {
          assert list[i].Has(n);
          return true;
        }
        assert list[..i + 1] == list[..i] + [list[i]];
        CoversAppend(list[..i], list[i], n);
      }
      assert list[..|list|] == list;
      return false;
    }

    /** `count()`: never more than the numbers held, and just as many exactly when no range is swapped by more than one. */
    method Count() returns (total: int)
      requires Valid()
      ensures total == WidthTotal(Value(), keys) <= PointSum(Value(), keys)
      ensures total == PointSum(Value(), keys) <==> NoneNegativeIn(Value(), keys)
    {
      total := 0;
      for k := 0 to |keys|
        invariant total == WidthTotal(Value(), keys[..k])
      {
        assert keys[k] in keys;
        var width := CountOf(ivs[keys[k]]);
        assert keys[..k + 1][..k] == keys[..k];
        total := total + width;
      }
      assert keys[..|keys|] == keys;
      WidthTotalCounts(Value(), keys);
    }

    /** The keys with several intervals: every key with a hole, and no other exactly when `HolesShow`. */
    method InternalGapKeys() returns (gaps: seq<string>)
      requires Valid()
      ensures forall k :: k in gaps <==> |Value().For(k)| > 1
      ensures forall k | HasHole(Value(), k) :: k in gaps
      ensures (forall k | k in gaps :: HasHole(Value(), k)) <==> HolesShow(Value())
    {
      gaps := [];
      for k := 0 to |keys|
        invariant forall g :: g in gaps <==> g in keys[..k] && |ivs[g]| > 1
      {
        assert keys[k] in keys;
        if |ivs[keys[k]]| > 1 {
          gaps := gaps + [keys[k]];
        }
        assert keys[..k + 1] == keys[..k] + [keys[k]];
      }
      assert keys[..|keys|] == keys;
      NoGapIsOverlooked(Value(), EMPTY);
      InternalGapsAreExactIff(Value());
    }

    method MissingOfKey(key: string, sivs: seq<Interval>) returns (out: seq<Tagged>)
      requires Valid() && key in ivs
      ensures AllWellFormed(out)
      ensures forall k, n :: WasAdded(out, k, n) <==>
        k == key && Covers(sivs, n) && n <= HighWatermark(Value(), key).value && !Covers(ivs[key], n)
    {
      var hw := ivs[key][|ivs[key]| - 1].end;
      out := [];
      for i := 0 to |sivs|
        invariant AllWellFormed(out)
        invariant forall k, n :: WasAdded(out, k, n) <==> k == key && Covers(sivs[..i], n) && n <= hw && !Covers(ivs[key], n)
      {
        var more := MissingOfRange(key, sivs[i], hw, ivs[key]);
        assert sivs[..i + 1] == sivs[..i] + [sivs[i]];
        forall k, n ensures WasAdded(out + more, k, n) <==> k == key && Covers(sivs[..i + 1], n) && n <= hw && !Covers(ivs[key], n) {
          CoversAppend(sivs[..i], sivs[i], n);
          WasAddedConcat(out, more, k, n);
        }
        out := out + more;
      }
      assert sivs[..|sivs|] == sivs;
    }

    /** Executed by the source, at or below our watermark, not consumed: for a key whose watermark fits, what is missing. */
    method MissingBelowWatermark(source: GtidMap) returns (out: seq<Tagged>)
      requires Valid() && source.Valid()
      ensures AllWellFormed(out)
      ensures forall k, n :: WasAdded(out, k, n) <==> MissingTo(Value(), source, k, n)
      ensures forall k, n | WatermarkFits(Value().For(k)) :: WasAdded(out, k, n) <==> Missing(Value(), source, k, n)
    {
      out := [];
      for s := 0 to |source.keys|
        invariant AllWellFormed(out)
        invariant forall k, n :: WasAdded(out, k, n) <==> k in source.keys[..s] && MissingTo(Value(), source, k, n)
      {
        var key := source.keys[s];
        assert key in source.keys;
        var more: seq<Tagged> := [];
        if key in ivs {
          more := MissingOfKey(key, source.ivs[key]);
        }
        assert forall k, n :: WasAdded(more, k, n) <==> k == key && MissingTo(Value(), source, key, n);
        assert source.keys[..s + 1] == source.keys[..s] + [key];
        forall k, n ensures WasAdded(out + more, k, n) <==> k in source.keys[..s + 1] && MissingTo(Value(), source, k, n) {
          WasAddedConcat(out, more, k, n);
        }
        out := out + more;
      }
      assert source.keys[..|source.keys|] == source.keys;
      forall k, n | WatermarkFits(Value().For(k)) ensures MissingTo(Value(), source, k, n) <==> Missing(Value(), source, k, n) {
        WatermarkIsExactIff(Value(), k);
      }
    }
  }

  /** One source interval, cut at the watermark, less what was consumed. */
  method MissingOfRange(key: string, siv: Interval, hw: nat, covers: seq<Interval>) returns (out: seq<Tagged>)
    ensures AllWellFormed(out)
    ensures forall k, n :: WasAdded(out, k, n) <==> k == key && siv.Has(n) && n <= hw && !Covers(covers, n)
  {
    var hi := if siv.end < hw then siv.end else hw;
    if siv.start > hi {
      return [];
    }
    var parts := SubtractRange(Interval(siv.start, hi), covers);
    out := TagAll(key, parts);
    forall k, n ensures WasAdded(out, k, n) <==> k == key && siv.Has(n) && n <= hw && !Covers(covers, n) {
      TaggedCover(key, parts, k, n);
    }
  }

  method CountOf(list: seq<Interval>) returns (total: int)
    ensures total == WidthSum(list)
  {
    total := 0;
    for i := 0 to |list|
      invariant total == WidthSum(list[..i])
    {
      assert list[..i + 1][..i] == list[..i];
      total := total + (list[i].end - list[i].start + 1);
    }
    assert list[..|list|] == list;
  }

  ghost function PointSum(m: GtidMap, keys: seq<string>): int {
    if keys == [] then 0 else PointSum(m, keys[..|keys| - 1]) + |Points(m.For(keys[|keys| - 1]))|
  }

  ghost function WidthTotal(m: GtidMap, keys: seq<string>): int {
    if keys == [] then 0 else WidthTotal(m, keys[..|keys| - 1]) + WidthSum(m.For(keys[|keys| - 1]))
  }

  predicate NoneNegativeIn(m: GtidMap, keys: seq<string>) {
    forall i | 0 <= i < |keys| :: NoneNegative(m.For(keys[i]))
  }

  /** At most as much as there are numbers, and as much exactly when no range is negative. */
  ghost predicate Counts(m: GtidMap, keys: seq<string>) {
    && WidthTotal(m, keys) <= PointSum(m, keys)
    && (WidthTotal(m, keys) == PointSum(m, keys) <==> NoneNegativeIn(m, keys))
  }

  lemma {:induction false} WidthTotalCounts(m: GtidMap, keys: seq<string>)
    requires m.IsSeparate()
    ensures Counts(m, keys)
  {
    if keys != [] {
      WidthTotalCounts(m, keys[..|keys| - 1]);
      NoneNegativeStep(m, keys);
      WidthsCountPoints(m.For(keys[|keys| - 1]));
    }
  }

  lemma NoneNegativeStep(m: GtidMap, keys: seq<string>)
    requires keys != []
    ensures NoneNegativeIn(m, keys) <==> NoneNegativeIn(m, keys[..|keys| - 1]) && NoneNegative(m.For(keys[|keys| - 1]))
  {
    assert forall i | 0 <= i < |keys| - 1 :: keys[..|keys| - 1][i] == keys[i];
  }

  // ---------- the watcher ----------

  datatype GapResult = GapResult(gapDetected: bool, internalGapKeys: seq<string>, missing: seq<Tagged>)

  /** What a check can report: a key with several intervals, or a range that was never consumed. */
  datatype Finding = Hole(key: string) | Range(range: Tagged)

  predicate Reports(r: GapResult, f: Finding) {
    match f
    case Hole(key) => key in r.internalGapKeys
    case Range(t) => t in r.missing
  }

  function Signature(f: Finding): string {
    match f
    case Hole(key) => "internal:" + key
    case Range(t) => "missing:" + t.key + ":" + PrintNat(t.iv.start) + "-" + PrintNat(t.iv.end)
  }

  /** Internal keys first, then the missing ranges, each in the order of the result. */
  function Findings(r: GapResult): (fs: seq<Finding>)
    ensures |fs| == |r.internalGapKeys| + |r.missing|
  {
    seq(|r.internalGapKeys|, i requires 0 <= i < |r.internalGapKeys| => Hole(r.internalGapKeys[i]))
    + seq(|r.missing|, i requires 0 <= i < |r.missing| => Range(r.missing[i]))
  }

  function Signatures(r: GapResult): seq<string> {
    var fs := Findings(r);
    seq(|fs|, i requires 0 <= i < |fs| => Signature(fs[i]))
  }

  lemma FindingsAreReported(r: GapResult, f: Finding)
    ensures f in Findings(r) <==> Reports(r, f)
  {
    var n := |r.internalGapKeys|;
    if f.Hole? && f.key in r.internalGapKeys {
      var i :| 0 <= i < n && r.internalGapKeys[i] == f.key;
      assert Findings(r)[i] == f;
    }
    if f.Range? && f.range in r.missing {
      var i :| 0 <= i < |r.missing| && r.missing[i] == f.range;
      assert Findings(r)[n + i] == f;
    }
  }

  lemma SepIsLast(a: string, b: string, sep: char)
    requires sep !in b
    ensures (a + [sep] + b)[|a|] == sep
    ensures forall k | |a| < k <= |a| + |b| :: (a + [sep] + b)[k] != sep
  {
    forall k | |a| < k <= |a| + |b| ensures (a + [sep] + b)[k] != sep {
      assert (a + [sep] + b)[k] == b[k - |a| - 1];
    }
  }

  lemma CutAtLast(a: string, b: string, c: string, d: string, sep: char)
    requires a + [sep] + b == c + [sep] + d
    requires sep !in b && sep !in d
    ensures a == c && b == d
  {
    var s := a + [sep] + b;
    SepIsLast(a, b, sep);
    SepIsLast(c, d, sep);
    assert |a| == |c|;
    assert a == s[..|a|] && b == s[|a| + 1..] && c == s[..|c|] && d == s[|c| + 1..];
  }

  /** Signatures tell findings apart, whatever characters a key is made of. */
  lemma SignaturesTellApart(f: Finding, g: Finding)
    ensures Signature(f) == Signature(g) <==> f == g
  {
    if Signature(f) == Signature(g) {
      var s := Signature(f);
      assert s[0] == if f.Hole? then 'i' else 'm';
      assert s[0] == if g.Hole? then 'i' else 'm';
      if f.Hole? {
        assert f.key == s[9..] && g.key == s[9..];
      } else {
        NumeralIsPlain(f.range.iv.start);
        NumeralIsPlain(f.range.iv.end);
        NumeralIsPlain(g.range.iv.start);
        NumeralIsPlain(g.range.iv.end);
        var k, l := "missing:" + f.range.key, "missing:" + g.range.key;
        var a, b := PrintNat(f.range.iv.start), PrintNat(g.range.iv.start);
        assert s == (k + ":" + a) + ['-'] + PrintNat(f.range.iv.end);
        assert s == (l + ":" + b) + ['-'] + PrintNat(g.range.iv.end);
        CutAtLast(k + ":" + a, PrintNat(f.range.iv.end), l + ":" + b, PrintNat(g.range.iv.end), '-');
        CutAtLast(k, a, l, b, ':');
        PrintNatInjective(f.range.iv.start, g.range.iv.start);
        PrintNatInjective(f.range.iv.end, g.range.iv.end);
        assert k[8..] == f.range.key && l[8..] == g.range.key;
      }
    }
  }

  /** A check's signatures are those of what it reports. */
  lemma SignaturesAreReported(r: GapResult, f: Finding)
    ensures Signature(f) in Signatures(r) <==> Reports(r, f)
  {
    FindingsAreReported(r, f);
    if Signature(f) in Signatures(r) {
      var i :| 0 <= i < |Signatures(r)| && Signatures(r)[i] == Signature(f);
      SignaturesTellApart(f, Findings(r)[i]);
    }
    if f in Findings(r) {
      var i :| 0 <= i < |Findings(r)| && Findings(r)[i] == f;
      assert Signatures(r)[i] == Signature(f);
    }
  }

  function ToSet(s: seq<string>): set<string> {
    set x | x in s
  }

  /** The signatures not alarmed before, each once, in order. */
  function Fresh(seen: set<string>, sigs: seq<string>): seq<string>
    decreases |sigs|
  {
    if sigs == [] then []
    else if sigs[0] in seen then Fresh(seen, sigs[1..])
    else [sigs[0]] + Fresh(seen + {sigs[0]}, sigs[1..])
  }

  lemma {:induction false} FreshIsOnce(seen: set<string>, sigs: seq<string>)
    ensures NoDuplicates(Fresh(seen, sigs))
    ensures ToSet(Fresh(seen, sigs)) == ToSet(sigs) - seen
    decreases |sigs|
  {
    if sigs != [] {
      var rest := if sigs[0] in seen then seen else seen + {sigs[0]};
      FreshIsOnce(rest, sigs[1..]);
      assert sigs == [sigs[0]] + sigs[1..];
      assert ToSet(sigs) == {sigs[0]} + ToSet(sigs[1..]);
      var tail := Fresh(rest, sigs[1..]);
      assert ToSet([sigs[0]] + tail) == {sigs[0]} + ToSet(tail);
      forall i | 0 <= i < |tail| ensures tail[i] in ToSet(sigs[1..]) - rest {
        assert tail[i] in ToSet(tail);
      }
    }
  }

  /** Every alarm of a run of checks, given the signatures each check found. */
  function AlarmsOfRun(seen: set<string>, checks: seq<seq<string>>): seq<string>
    decreases |checks|
  {
    if checks == [] then []
    else Fresh(seen, checks[0]) + AlarmsOfRun(seen + ToSet(checks[0]), checks[1..])
  }

  function AllSignatures(checks: seq<seq<string>>): set<string> {
    if checks == [] then {} else ToSet(checks[0]) + AllSignatures(checks[1..])
  }

  /** Over any run, each signature ever found is alarmed exactly once. */
  lemma {:induction false} EachSignatureAlarmsOnce(seen: set<string>, checks: seq<seq<string>>)
    ensures NoDuplicates(AlarmsOfRun(seen, checks))
    ensures ToSet(AlarmsOfRun(seen, checks)) == AllSignatures(checks) - seen
    decreases |checks|
  {
    if checks != [] {
      var first, rest := Fresh(seen, checks[0]), AlarmsOfRun(seen + ToSet(checks[0]), checks[1..]);
      FreshIsOnce(seen, checks[0]);
      EachSignatureAlarmsOnce(seen + ToSet(checks[0]), checks[1..]);
      forall i, j | 0 <= i < |first| && 0 <= j < |rest| ensures first[i] != rest[j] {
        assert first[i] in ToSet(first) && rest[j] in ToSet(rest);
      }
      assert ToSet(first + rest) == ToSet(first) + ToSet(rest);
    }
  }

  /** The signatures alarmed after a run of checks. */
  ghost function AlarmedAfter(checks: seq<GapResult>): set<string> {
    if checks == [] then {} else AlarmedAfter(checks[..|checks| - 1]) + ToSet(Signatures(checks[|checks| - 1]))
  }

  /** The alarms a check raises after the given earlier ones: one for each finding no earlier check reported. */
  ghost predicate RaisesTheNew(earlier: seq<GapResult>, r: GapResult, alarms: seq<string>) {
    && (forall f: Finding ::
          multiset(alarms)[Signature(f)] == if Reports(r, f) && !ReportedBy(earlier, f) then 1 else 0)
    && (forall a | a in alarms :: exists f :: Reports(r, f) && a == Signature(f))
  }

  ghost predicate ReportedBy(checks: seq<GapResult>, f: Finding) {
    exists i | 0 <= i < |checks| :: Reports(checks[i], f)
  }

  lemma {:induction false} AlarmedIsReported(checks: seq<GapResult>, f: Finding)
    ensures Signature(f) in AlarmedAfter(checks) <==> ReportedBy(checks, f)
  {
    if checks != [] {
      var most, last := checks[..|checks| - 1], checks[|checks| - 1];
      AlarmedIsReported(most, f);
      SignaturesAreReported(last, f);
      assert forall i | 0 <= i < |most| :: checks[i] == most[i];
    }
  }

  lemma {:induction false} CountOnce(s: seq<string>, x: string)
    requires NoDuplicates(s)
    ensures multiset(s)[x] == if x in s then 1 else 0
  {
    if s != [] {
      assert s == [s[0]] + s[1..];
      assert forall i | 0 <= i < |s[1..]| :: s[1..][i] == s[i + 1];
      CountOnce(s[1..], x);
    }
  }

  lemma FreshSignature(earlier: seq<GapResult>, r: GapResult, f: Finding)
    ensures multiset(Fresh(AlarmedAfter(earlier), Signatures(r)))[Signature(f)]
         == if Reports(r, f) && !ReportedBy(earlier, f) then 1 else 0
  {
    var alarms := Fresh(AlarmedAfter(earlier), Signatures(r));
    FreshIsOnce(AlarmedAfter(earlier), Signatures(r));
    CountOnce(alarms, Signature(f));
    assert Signature(f) in alarms <==> Signature(f) in ToSet(alarms);
    AlarmedIsReported(earlier, f);
    SignaturesAreReported(r, f);
  }

  /** What is not alarmed yet is what no earlier check reported. */
  lemma FreshRaisesTheNew(earlier: seq<GapResult>, r: GapResult)
    ensures RaisesTheNew(earlier, r, Fresh(AlarmedAfter(earlier), Signatures(r)))
  {
    var alarms := Fresh(AlarmedAfter(earlier), Signatures(r));
    forall f: Finding
      ensures multiset(alarms)[Signature(f)] == if Reports(r, f) && !ReportedBy(earlier, f) then 1 else 0
    {
      FreshSignature(earlier, r, f);
    }
    forall a | a in alarms ensures exists f :: Reports(r, f) && a == Signature(f) {
      FreshIsOnce(AlarmedAfter(earlier), Signatures(r));
      assert a in ToSet(alarms);
      var i :| 0 <= i < |Signatures(r)| && Signatures(r)[i] == a;
      FindingsAreReported(r, Findings(r)[i]);
    }
  }

  /** The alarms of each check of a run. */
  ghost function RunAlarms(checks: seq<GapResult>): seq<seq<string>> {
    seq(|checks|, i requires 0 <= i < |checks| => Fresh(AlarmedAfter(checks[..i]), Signatures(checks[i])))
  }

  /**
   Over any run of checks: a finding is alarmed by the first check that reports it, once, and by no
   other; and nothing else is alarmed.
   */
  lemma EachFindingAlarmsOnce(checks: seq<GapResult>)
    ensures |RunAlarms(checks)| == |checks|
    ensures forall i | 0 <= i < |checks| :: RaisesTheNew(checks[..i], checks[i], RunAlarms(checks)[i])
  {
    forall i | 0 <= i < |checks| ensures RaisesTheNew(checks[..i], checks[i], RunAlarms(checks)[i]) {
      FreshRaisesTheNew(checks[..i], checks[i]);
    }
  }

  /** The result as the code defines it, for any consumed set. */
  ghost predicate IsComputedFrom(consumed: GtidMap, known: GtidMap, r: GapResult) {
    && (forall k :: k in r.internalGapKeys <==> |consumed.For(k)| > 1)
    && AllWellFormed(r.missing)
    && (forall k, n :: WasAdded(r.missing, k, n) <==> MissingTo(consumed, known, k, n))
    && (r.gapDetected <==> GapDetected(consumed, known))
    && (r.gapDetected <==> Signatures(r) != [])
  }

  /**
   What it says about the gap there is: none is overlooked; the keys named are exactly those with a
   hole if and only if `HolesShow`; the numbers listed for a key are exactly the missing ones where
   the watermark fits; and with no swapped range, or a hole, the alarm is right.
   */
  ghost predicate Tells(consumed: GtidMap, known: GtidMap, r: GapResult) {
    && (GapExists(consumed, known) ==> r.gapDetected)
    && (forall k | HasHole(consumed, k) :: k in r.internalGapKeys)
    && ((forall k | k in r.internalGapKeys :: HasHole(consumed, k)) <==> HolesShow(consumed))
    && (forall k, n | Missing(consumed, known, k, n) :: k in r.internalGapKeys || WasAdded(r.missing, k, n))
    && (forall k, n | WatermarkFits(consumed.For(k)) :: WasAdded(r.missing, k, n) <==> Missing(consumed, known, k, n))
    && (consumed.IsCanonical() || (exists k :: HasHole(consumed, k)) ==> (r.gapDetected <==> GapExists(consumed, known)))
  }

  lemma DetectedShows(consumed: GtidMap, known: GtidMap, internal: seq<string>, missing: seq<Tagged>)
    requires forall k :: k in internal <==> |consumed.For(k)| > 1
    requires AllWellFormed(missing)
    requires forall k, n :: WasAdded(missing, k, n) <==> MissingTo(consumed, known, k, n)
    ensures IsComputedFrom(consumed, known, GapResult(|internal| > 0 || |missing| > 0, internal, missing))
  {
    if internal != [] {
      assert internal[0] in internal;
    }
    if missing != [] {
      assert missing[0].iv.Has(missing[0].iv.start);
      assert WasAdded(missing, missing[0].key, missing[0].iv.start);
    }
  }

  lemma ComputedTells(consumed: GtidMap, known: GtidMap, r: GapResult)
    requires consumed.IsSeparate() && IsComputedFrom(consumed, known, r)
    ensures Tells(consumed, known, r)
  {
    NoGapIsOverlooked(consumed, known);
    InternalGapsAreExactIff(consumed);
    AlarmIsExactIff(consumed);
    forall k, n | WatermarkFits(consumed.For(k)) ensures MissingTo(consumed, known, k, n) <==> Missing(consumed, known, k, n) {
      WatermarkIsExactIff(consumed, k);
    }
  }

  class CompletenessWatcher {
    const engine: Engine
    const consumed: GtidSet
    var consumedOffsetKey: Option<string>
    var alarmedGaps: set<string>
    ghost var checks: seq<GapResult>

    ghost predicate Valid()
      reads this, consumed
    {
      consumed.Valid() && alarmedGaps == AlarmedAfter(checks)
    }

    constructor (engine: Engine)
      ensures Valid() && fresh(consumed) && consumed.Value() == EMPTY && alarmedGaps == {} && consumedOffsetKey == None
      ensures this.engine == engine && checks == []
    {
      this.engine := engine;
      consumed := new GtidSet();
      consumedOffsetKey, alarmedGaps := None, {};
      checks := [];
    }

    /** A null or empty GTID (snapshot reads) is skipped. */
    method ObserveConsumed(gtid: Option<string>)
      requires Valid()
      modifies consumed, this`consumedOffsetKey
      ensures Valid()
      ensures consumedOffsetKey == if gtid.Some? && gtid.value != "" then gtid else old(consumedOffsetKey)
      ensures consumed.Value() ==
        if gtid.Some? && gtid.value != "" then AddedAll(old(consumed.Value()), ParseToken(engine, gtid.value))
        else old(consumed.Value())
    {
      if gtid.Some? && gtid.value != "" {
        consumed.AddToken(engine, gtid.value);
        consumedOffsetKey := gtid;
      }
    }

    /** The numbers the source has executed, as far as it told. */
    ghost function Known(sourceExecuted: Option<string>): GtidMap {
      if sourceExecuted.Some? && sourceExecuted.value != "" then Parse(engine, sourceExecuted.value) else EMPTY
    }

    ghost predicate IsGap(r: GapResult, sourceExecuted: Option<string>)
      reads this, consumed
    {
      && IsComputedFrom(consumed.Value(), Known(sourceExecuted), r)
      && Tells(consumed.Value(), Known(sourceExecuted), r)
    }

    method ComputeGap(sourceExecuted: Option<string>) returns (r: GapResult)
      requires Valid()
      ensures IsGap(r, sourceExecuted)
    {
      var internal := consumed.InternalGapKeys();
      var missing := MissingFrom(sourceExecuted);
      DetectedShows(consumed.Value(), Known(sourceExecuted), internal, missing);
      r := GapResult(|internal| > 0 || |missing| > 0, internal, missing);
      ComputedTells(consumed.Value(), Known(sourceExecuted), r);
    }

    /** Nothing is missing from a source that told nothing. */
    method MissingFrom(sourceExecuted: Option<string>) returns (missing: seq<Tagged>)
      requires Valid()
      ensures AllWellFormed(missing)
      ensures forall k, n :: WasAdded(missing, k, n) <==> MissingTo(consumed.Value(), Known(sourceExecuted), k, n)
    {
      missing := [];
      if sourceExecuted.Some? && sourceExecuted.value != "" {
        AddedAllKeepsValid(EMPTY, ParseExecuted(engine, sourceExecuted.value));
        missing := consumed.MissingBelowWatermark(Parse(engine, sourceExecuted.value));
      }
    }

    /** An alarm for each finding that no earlier check of this watcher reported, and no other. */
    method CheckGap(sourceExecuted: Option<string>) returns (r: GapResult, alarms: seq<string>)
      requires Valid()
      modifies this`alarmedGaps, this`checks
      ensures Valid() && IsGap(r, sourceExecuted)
      ensures checks == old(checks) + [r] && RaisesTheNew(old(checks), r, alarms)
      ensures alarms == RunAlarms(checks)[|old(checks)|]
    {
      r := ComputeGap(sourceExecuted);
      FreshRaisesTheNew(checks, r);
      checks := checks + [r];
      assert checks[..|checks| - 1] == old(checks);
      if !r.gapDetected {
        return r, [];
      }
      alarms := RaiseNew(Signatures(r));
    }

    method RaiseNew(signatures: seq<string>) returns (alarms: seq<string>)
      modifies this`alarmedGaps
      ensures alarms == Fresh(old(alarmedGaps), signatures)
      ensures alarmedGaps == old(alarmedGaps) + ToSet(signatures)
    {
      alarms := [];
      for i := 0 to |signatures|
        invariant alarms + Fresh(alarmedGaps, signatures[i..]) == Fresh(old(alarmedGaps), signatures)
        invariant alarmedGaps == old(alarmedGaps) + ToSet(signatures[..i])
      {
        var sig := signatures[i];
        assert signatures[i..][1..] == signatures[i + 1..];
        assert signatures[..i + 1] == signatures[..i] + [sig];
        if sig !in alarmedGaps {
          alarmedGaps := alarmedGaps + {sig};
          alarms := alarms + [sig];
        }
      }
      assert signatures[..|signatures|] == signatures;
    }
  }
}

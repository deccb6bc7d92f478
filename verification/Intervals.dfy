/**
 Interval lists of services/cdc-collector/src/completeness/gtid.ts: merging and subtracting,
 measured against the plain set of numbers a list covers.
 */
module Intervals {
  import opened Sequences
  import opened Sorting

  datatype Interval = Interval(start: nat, end: nat) {
    predicate Has(n: int) {
      start <= n <= end
    }
  }

  ghost predicate Covers(ivs: seq<Interval>, n: int) {
    exists i | 0 <= i < |ivs| :: ivs[i].Has(n)
  }

  ghost predicate WellFormed(ivs: seq<Interval>) {
    forall i | 0 <= i < |ivs| :: ivs[i].start <= ivs[i].end
  }

  /** Sorted, disjoint and not even adjacent. */
  ghost predicate Canonical(ivs: seq<Interval>) {
    && WellFormed(ivs)
    && forall i, j | 0 <= i < j < |ivs| :: ivs[i].end + 1 < ivs[j].start
  }

  ghost predicate SameCover(a: seq<Interval>, b: seq<Interval>) {
    forall n :: Covers(a, n) <==> Covers(b, n)
  }

  // ---------- one canonical list per set ----------

  lemma CoversTail(ivs: seq<Interval>, n: int)
    requires ivs != []
    ensures Covers(ivs, n) <==> ivs[0].Has(n) || Covers(ivs[1..], n)
  {
    if Covers(ivs, n) && !ivs[0].Has(n) {
      var i :| 0 <= i < |ivs| && ivs[i].Has(n);
      assert ivs[1..][i - 1].Has(n);
    }
  }

  lemma CanonicalHead(ivs: seq<Interval>)
    requires ivs != [] && Canonical(ivs)
    ensures Canonical(ivs[1..])
    ensures forall n | Covers(ivs[1..], n) :: ivs[0].end + 1 < n
    ensures Covers(ivs, ivs[0].start) && Covers(ivs, ivs[0].end) && !Covers(ivs, ivs[0].end + 1)
  {
    CoversTail(ivs, ivs[0].start);
    CoversTail(ivs, ivs[0].end);
    CoversTail(ivs, ivs[0].end + 1);
  }

  lemma {:induction false} CanonicalHeadsAgree(a: seq<Interval>, b: seq<Interval>)
    requires Canonical(a) && Canonical(b) && SameCover(a, b) && a != [] && b != []
    ensures a[0] == b[0]
  {
    CanonicalHead(a);
    CanonicalHead(b);
    assert Covers(b, a[0].start) && Covers(a, b[0].start);
    CoversTail(b, a[0].start);
    CoversTail(a, b[0].start);
    CoversTail(b, a[0].end + 1);
    CoversTail(a, b[0].end + 1);
  }

  lemma {:induction false} CanonicalIsUnique(a: seq<Interval>, b: seq<Interval>)
    requires Canonical(a) && Canonical(b) && SameCover(a, b)
    ensures a == b
  {
    if a == [] {
      if b != [] { CanonicalHead(b); }
    } else {
      CanonicalHead(a);
      assert Covers(b, a[0].start);
      CanonicalHeadsAgree(a, b);
      CanonicalHead(b);
      forall n ensures Covers(a[1..], n) <==> Covers(b[1..], n) {
        CoversTail(a, n);
        CoversTail(b, n);
      }
      CanonicalIsUnique(a[1..], b[1..]);
      assert a == [a[0]] + a[1..] && b == [b[0]] + b[1..];
    }
  }

  // ---------- merging ----------

  function CompareIntervals(a: Interval, b: Interval): int {
    if a.start != b.start then a.start - b.start else a.end - b.end
  }

  /** n, extended as far as t reaches. */
  function Grown(n: Interval, t: Interval): Interval {
    Interval(n.start, if t.end > n.end then t.end else n.end)
  }

  /** One turn of the merge loop: extend the last interval or open a new one. */
  function Absorb(out: seq<Interval>, cur: Interval): seq<Interval> {
    if out == [] then [cur]
    else
      var last := out[|out| - 1];
      if cur.start <= last.end + 1
      then out[..|out| - 1] + [Grown(last, cur)]
      else out + [cur]
  }

  function MergeSorted(sorted: seq<Interval>): seq<Interval> {
    if sorted == [] then [] else Absorb(MergeSorted(sorted[..|sorted| - 1]), sorted[|sorted| - 1])
  }

  function Merge(ivs: seq<Interval>): seq<Interval> {
    MergeSorted(Sort(CompareIntervals, ivs))
  }

  lemma AbsorbInPlace(out: seq<Interval>, cur: Interval)
    requires out != [] && cur.start <= out[|out| - 1].end + 1
    ensures Absorb(out, cur) == out[|out| - 1 := Grown(out[|out| - 1], cur)]
  {
  }

  lemma MergeNext(sorted: seq<Interval>, i: nat)
    requires i < |sorted|
    ensures MergeSorted(sorted[..i + 1]) == Absorb(MergeSorted(sorted[..i]), sorted[i])
  {
    assert sorted[..i + 1][..i] == sorted[..i];
  }

  method MergeIntervals(ivs: seq<Interval>) returns (out: seq<Interval>)
    ensures out == Merge(ivs)
  {
    if |ivs| == 0 {
      return [];
    }
    var sorted := Sort(CompareIntervals, ivs);
    MergeNext(sorted, 0);
    out := [sorted[0]];
    for i := 1 to |sorted|
      invariant out != [] && out == MergeSorted(sorted[..i])
    {
      var last, cur := out[|out| - 1], sorted[i];
      MergeNext(sorted, i);
      if cur.start <= last.end + 1 {
        AbsorbInPlace(out, cur);
        out := out[|out| - 1 := Grown(last, cur)];
      } else {
        out := out + [cur];
      }
    }
    assert sorted[..|sorted|] == sorted;
  }

  lemma CoversAppend(ivs: seq<Interval>, iv: Interval, n: int)
    ensures Covers(ivs + [iv], n) <==> Covers(ivs, n) || iv.Has(n)
  {
    var all := ivs + [iv];
    if Covers(ivs, n) {
      var i :| 0 <= i < |ivs| && ivs[i].Has(n);
      assert all[i].Has(n);
    }
    if iv.Has(n) {
      assert all[|ivs|].Has(n);
    }
  }

  lemma {:induction false} AbsorbCovers(out: seq<Interval>, cur: Interval, n: int)
    requires out != [] ==> out[|out| - 1].start <= cur.start
    ensures Covers(Absorb(out, cur), n) <==> Covers(out, n) || cur.Has(n)
  {
    CoversAppend(out, cur, n);
    if out != [] {
      var last := out[|out| - 1];
      assert out == out[..|out| - 1] + [last];
      CoversAppend(out[..|out| - 1], last, n);
      CoversAppend(out[..|out| - 1], Grown(last, cur), n);
    }
  }

  lemma AbsorbIsCanonical(out: seq<Interval>, cur: Interval)
    requires Canonical(out) && cur.start <= cur.end
    requires out != [] ==> out[|out| - 1].start <= cur.start
    ensures Canonical(Absorb(out, cur))
    ensures Absorb(out, cur) != [] && Absorb(out, cur)[|Absorb(out, cur)| - 1].start <= cur.start
  {
  }

  lemma AbsorbKeepsCover(out: seq<Interval>, most: seq<Interval>, cur: Interval)
    requires SameCover(out, most)
    requires out != [] ==> out[|out| - 1].start <= cur.start
    ensures SameCover(Absorb(out, cur), most + [cur])
  {
    forall n ensures Covers(Absorb(out, cur), n) <==> Covers(most + [cur], n) {
      AbsorbCovers(out, cur, n);
      CoversAppend(most, cur, n);
    }
  }

  ghost predicate StartsAscend(ivs: seq<Interval>) {
    forall i, j | 0 <= i < j < |ivs| :: ivs[i].start <= ivs[j].start
  }

  lemma AscendingPrefix(ivs: seq<Interval>)
    requires ivs != [] && StartsAscend(ivs)
    ensures var most, cur := ivs[..|ivs| - 1], ivs[|ivs| - 1];
      StartsAscend(most) && ivs == most + [cur] && (most != [] ==> most[|most| - 1].start <= cur.start)
  {
  }

  /** `out` covers what `ivs` does and its last interval starts no later. */
  ghost predicate Tracks(out: seq<Interval>, ivs: seq<Interval>) {
    && SameCover(out, ivs)
    && (out == [] <==> ivs == [])
    && (ivs != [] ==> out[|out| - 1].start <= ivs[|ivs| - 1].start)
  }

  lemma {:induction false} MergeSortedTracks(ivs: seq<Interval>)
    requires StartsAscend(ivs)
    ensures Tracks(MergeSorted(ivs), ivs)
  {
    if ivs != [] {
      AscendingPrefix(ivs);
      MergeSortedTracks(ivs[..|ivs| - 1]);
      AbsorbKeepsCover(MergeSorted(ivs[..|ivs| - 1]), ivs[..|ivs| - 1], ivs[|ivs| - 1]);
    }
  }

  lemma {:induction false} MergeSortedIsCanonical(ivs: seq<Interval>)
    requires WellFormed(ivs) && StartsAscend(ivs)
    ensures Canonical(MergeSorted(ivs))
  {
    if ivs != [] {
      AscendingPrefix(ivs);
      MergeSortedIsCanonical(ivs[..|ivs| - 1]);
      MergeSortedTracks(ivs[..|ivs| - 1]);
      AbsorbIsCanonical(MergeSorted(ivs[..|ivs| - 1]), ivs[|ivs| - 1]);
    }
  }

  lemma CompareIntervalsSorts(ivs: seq<Interval>)
    ensures Consistent(CompareIntervals) && TellsApart(CompareIntervals, ivs)
  {
  }

  lemma {:induction false} CoverOfPermutation(a: seq<Interval>, b: seq<Interval>)
    requires multiset(a) == multiset(b)
    ensures SameCover(a, b) && (WellFormed(a) ==> WellFormed(b))
  {
    forall x ensures x in a <==> x in b {
      InMultiset(a, b, x);
    }
    forall n ensures Covers(a, n) <==> Covers(b, n) {
      if Covers(a, n) {
        var i :| 0 <= i < |a| && a[i].Has(n);
        assert a[i] in b;
      }
      if Covers(b, n) {
        var i :| 0 <= i < |b| && b[i].Has(n);
        assert b[i] in a;
      }
    }
    if WellFormed(a) {
      forall i | 0 <= i < |b| ensures b[i].start <= b[i].end {
        assert b[i] in a;
      }
    }
  }

  lemma SortedAscends(ivs: seq<Interval>)
    ensures StartsAscend(Sort(CompareIntervals, ivs)) && Sorted(CompareIntervals, Sort(CompareIntervals, ivs))
  {
    var sorted := Sort(CompareIntervals, ivs);
    CompareIntervalsSorts(ivs);
    SortSorts(CompareIntervals, ivs);
    forall i, j | 0 <= i < j < |sorted| ensures sorted[i].start <= sorted[j].start {
      assert CompareIntervals(sorted[i], sorted[j]) <= 0;
    }
  }

  /** Merging changes nothing about the covered numbers, not even when ends are swapped. */
  lemma {:induction false} MergeCovers(ivs: seq<Interval>)
    ensures SameCover(Merge(ivs), ivs)
  {
    SortedAscends(ivs);
    CoverOfPermutation(ivs, Sort(CompareIntervals, ivs));
    MergeSortedTracks(Sort(CompareIntervals, ivs));
  }

  /** Merging gives the one canonical list that covers the same numbers. */
  lemma {:induction false} MergeIsCanonical(ivs: seq<Interval>)
    requires WellFormed(ivs)
    ensures Canonical(Merge(ivs)) && SameCover(Merge(ivs), ivs)
  {
    SortedAscends(ivs);
    CoverOfPermutation(ivs, Sort(CompareIntervals, ivs));
    MergeSortedIsCanonical(Sort(CompareIntervals, ivs));
    MergeCovers(ivs);
  }

  // ---------- merging again and again ----------

  /** Two absorbed intervals that touch are absorbed like the one they make. */
  lemma AbsorbTwice(out: seq<Interval>, n: Interval, t: Interval)
    requires t.start <= n.end + 1
    ensures Absorb(Absorb(out, n), t) == Absorb(out, Grown(n, t))
  {
    if out != [] {
      assert (out[..|out| - 1] + [Absorb(out, n)[|out| - 1]])[..|out| - 1] == out[..|out| - 1];
      assert (out + [n])[..|out|] == out;
    }
  }

  /** No interval reaches the start of a later one. */
  ghost predicate Separate(ivs: seq<Interval>) {
    forall i, j | 0 <= i < j < |ivs| :: ivs[i].end + 1 < ivs[j].start
  }

  lemma {:induction false} SeparateMergesToItself(ivs: seq<Interval>)
    requires Separate(ivs)
    ensures MergeSorted(ivs) == ivs
  {
    if ivs != [] {
      SeparateMergesToItself(ivs[..|ivs| - 1]);
      AbsorbApart(ivs[..|ivs| - 1], ivs[|ivs| - 1]);
      InitAndLast(ivs);
    }
  }

  /** What a sorted list merges to: sorted, separate, and ending no later in the order. */
  ghost predicate Shaped(out: seq<Interval>, ivs: seq<Interval>) {
    && Separate(out) && Sorted(CompareIntervals, out)
    && (out == [] <==> ivs == [])
    && (ivs != [] ==> CompareIntervals(out[|out| - 1], ivs[|ivs| - 1]) <= 0)
  }

  lemma ExtendsShape(out: seq<Interval>, t: Interval)
    requires Separate(out) && Sorted(CompareIntervals, out)
    requires out != [] ==> out[|out| - 1].end + 1 < t.start && CompareIntervals(out[|out| - 1], t) <= 0
    ensures Separate(out + [t]) && Sorted(CompareIntervals, out + [t])
  {
    forall i | 0 <= i < |out| ensures out[i].end + 1 < t.start && CompareIntervals(out[i], t) <= 0 {
      if i < |out| - 1 {
        assert out[i].end + 1 < out[|out| - 1].start && CompareIntervals(out[i], out[|out| - 1]) <= 0;
      }
    }
  }

  lemma AbsorbKeepsShape(out: seq<Interval>, ivs: seq<Interval>, t: Interval)
    requires Shaped(out, ivs) && (ivs != [] ==> CompareIntervals(ivs[|ivs| - 1], t) <= 0)
    ensures Shaped(Absorb(out, t), ivs + [t])
  {
    if out == [] || t.start > out[|out| - 1].end + 1 {
      AbsorbApart(out, t);
      ExtendsShape(out, t);
    } else {
      var most, n := out[..|out| - 1], out[|out| - 1];
      assert most != [] ==> most[|most| - 1] == out[|most| - 1];
      ExtendsShape(most, Grown(n, t));
    }
  }

  lemma {:induction false} MergedIsShaped(ivs: seq<Interval>)
    requires Sorted(CompareIntervals, ivs)
    ensures Shaped(MergeSorted(ivs), ivs)
  {
    if ivs != [] {
      MergedIsShaped(ivs[..|ivs| - 1]);
      AbsorbKeepsShape(MergeSorted(ivs[..|ivs| - 1]), ivs[..|ivs| - 1], ivs[|ivs| - 1]);
      InitAndLast(ivs);
    }
  }

  lemma {:induction false} InsertBeforeLast(x: Interval, s: seq<Interval>, t: Interval)
    requires CompareIntervals(x, t) <= 0
    ensures Insert(CompareIntervals, x, s + [t]) == Insert(CompareIntervals, x, s) + [t]
  {
    if s != [] {
      assert (s + [t])[1..] == s[1..] + [t];
      InsertBeforeLast(x, s[1..], t);
      Regroup([s[0]], Insert(CompareIntervals, x, s[1..]), [t]);
    }
    Regroup([x], s, [t]);
  }

  lemma {:induction false} InsertAtEnd(x: Interval, s: seq<Interval>)
    requires forall i | 0 <= i < |s| :: CompareIntervals(x, s[i]) > 0
    ensures Insert(CompareIntervals, x, s) == s + [x]
  {
    if s != [] {
      InsertAtEnd(x, s[1..]);
      assert s == [s[0]] + s[1..];
    }
  }

  /** The sorted list up to its last interval, and beyond. */
  lemma InsertAfterAll(x: Interval, s: seq<Interval>)
    requires Sorted(CompareIntervals, s) && (s != [] ==> CompareIntervals(x, s[|s| - 1]) > 0)
    ensures Insert(CompareIntervals, x, s) == s + [x]
  {
    forall i | 0 <= i < |s| ensures CompareIntervals(x, s[i]) > 0 {
      assert i < |s| - 1 ==> CompareIntervals(s[i], s[|s| - 1]) <= 0;
    }
    InsertAtEnd(x, s);
  }

  /** n can follow these intervals in a merged list. */
  ghost predicate Follows(most: seq<Interval>, n: Interval) {
    && Separate(most) && Sorted(CompareIntervals, most)
    && (most != [] ==> most[|most| - 1].end + 1 < n.start && CompareIntervals(most[|most| - 1], n) <= 0)
  }

  lemma ShapedFollows(out: seq<Interval>, ivs: seq<Interval>)
    requires Shaped(out, ivs) && out != []
    ensures Follows(out[..|out| - 1], out[|out| - 1])
  {
  }

  lemma FollowingMerges(most: seq<Interval>, n: Interval)
    requires Follows(most, n)
    ensures MergeSorted(most) == most && MergeSorted(most + [n]) == most + [n]
  {
    SeparateMergesToItself(most);
    AbsorbApart(most, n);
    MergeSortedLast(most, n);
  }

  lemma InsertBeyond(most: seq<Interval>, n: Interval, x: Interval)
    requires Follows(most, n) && CompareIntervals(x, n) > 0
    ensures Insert(CompareIntervals, x, most) == most + [x] && Insert(CompareIntervals, x, most + [n]) == most + [n] + [x]
  {
    ExtendsShape(most, n);
    InsertAfterAll(x, most + [n]);
    InsertAfterAll(x, most);
  }

  /** The last held interval swallows t; x comes no later than t. */
  lemma InsertIntoGrown(most: seq<Interval>, n: Interval, t: Interval, x: Interval)
    requires Follows(most, n) && n.start <= t.start <= n.end + 1 && CompareIntervals(x, t) <= 0
    ensures MergeSorted(Insert(CompareIntervals, x, most + [Grown(n, t)]))
      == Absorb(MergeSorted(Insert(CompareIntervals, x, most + [n])), t)
  {
    if CompareIntervals(x, n) <= 0 {
      InsertBelowGrown(most, n, t, x);
    } else if CompareIntervals(x, Grown(n, t)) <= 0 {
      InsertBetweenGrown(most, n, t, x);
    } else {
      InsertAboveGrown(most, n, t, x);
    }
  }

  lemma InsertBelowGrown(most: seq<Interval>, n: Interval, t: Interval, x: Interval)
    requires n.start <= t.start <= n.end + 1 && CompareIntervals(x, n) <= 0
    ensures MergeSorted(Insert(CompareIntervals, x, most + [Grown(n, t)]))
      == Absorb(MergeSorted(Insert(CompareIntervals, x, most + [n])), t)
  {
    var q := Insert(CompareIntervals, x, most);
    InsertBeforeLast(x, most, n);
    InsertBeforeLast(x, most, Grown(n, t));
    MergeSortedLast(q, n);
    MergeSortedLast(q, Grown(n, t));
    AbsorbTwice(MergeSorted(q), n, t);
  }

  lemma InsertAboveLast(most: seq<Interval>, n: Interval, x: Interval)
    requires Follows(most, n) && CompareIntervals(x, n) > 0 && x.start <= n.end + 1
    ensures MergeSorted(Insert(CompareIntervals, x, most + [n])) == most + [Grown(n, x)]
  {
    FollowingMerges(most, n);
    InsertBeyond(most, n, x);
    MergeSortedLast(most + [n], x);
    AbsorbLast(most, n, x);
  }

  lemma MergeBelowGrown(most: seq<Interval>, n: Interval, g: Interval, x: Interval)
    requires Follows(most, n) && x.start == n.start == g.start <= x.end + 1
    ensures MergeSorted(most + [x] + [g]) == most + [Grown(x, g)]
  {
    SeparateMergesToItself(most);
    AbsorbApart(most, x);
    MergeSortedLast(most, x);
    MergeSortedLast(most + [x], g);
    AbsorbLast(most, x, g);
  }

  lemma InsertBetweenGrown(most: seq<Interval>, n: Interval, t: Interval, x: Interval)
    requires Follows(most, n) && n.start <= t.start <= n.end + 1
    requires CompareIntervals(x, n) > 0 && CompareIntervals(x, Grown(n, t)) <= 0
    ensures MergeSorted(Insert(CompareIntervals, x, most + [Grown(n, t)]))
      == Absorb(MergeSorted(Insert(CompareIntervals, x, most + [n])), t)
  {
    InsertBeyond(most, n, x);
    InsertBeforeLast(x, most, Grown(n, t));
    MergeBelowGrown(most, n, Grown(n, t), x);
    InsertAboveLast(most, n, x);
    AbsorbLast(most, Grown(n, x), t);
  }

  lemma GrownFollows(most: seq<Interval>, n: Interval, t: Interval)
    requires Follows(most, n)
    ensures Follows(most, Grown(n, t)) && CompareIntervals(n, Grown(n, t)) <= 0
  {
  }

  lemma InsertAboveGrown(most: seq<Interval>, n: Interval, t: Interval, x: Interval)
    requires Follows(most, n) && n.start <= t.start <= n.end + 1
    requires CompareIntervals(x, Grown(n, t)) > 0 && CompareIntervals(x, t) <= 0
    ensures MergeSorted(Insert(CompareIntervals, x, most + [Grown(n, t)]))
      == Absorb(MergeSorted(Insert(CompareIntervals, x, most + [n])), t)
  {
    GrownFollows(most, n, t);
    InsertAboveLast(most, n, x);
    InsertAboveLast(most, Grown(n, t), x);
    AbsorbLast(most, Grown(n, x), t);
  }

  lemma AbsorbLast(most: seq<Interval>, n: Interval, t: Interval)
    requires t.start <= n.end + 1
    ensures Absorb(most + [n], t) == most + [Grown(n, t)]
  {
    assert (most + [n])[..|most|] == most;
  }

  lemma MergeAfterInsertLast(s: seq<Interval>, merged: seq<Interval>, x: Interval)
    requires Sorted(CompareIntervals, s) && Shaped(merged, s) && merged == MergeSorted(s)
    requires s != [] && CompareIntervals(x, s[|s| - 1]) > 0
    ensures MergeSorted(Insert(CompareIntervals, x, merged)) == MergeSorted(Insert(CompareIntervals, x, s))
  {
    InsertAfterAll(x, s);
    InsertAfterAll(x, merged);
    SeparateMergesToItself(merged);
    MergeSortedLast(s, x);
    MergeSortedLast(merged, x);
  }

  /** x goes before t, the last of a sorted list; `merged` is what the rest merges to. */
  lemma MergeAfterInsertStep(most: seq<Interval>, merged: seq<Interval>, t: Interval, x: Interval)
    requires Shaped(merged, most) && (most != [] ==> CompareIntervals(most[|most| - 1], t) <= 0)
    requires CompareIntervals(x, t) <= 0
    ensures MergeSorted(Insert(CompareIntervals, x, Absorb(merged, t)))
      == Absorb(MergeSorted(Insert(CompareIntervals, x, merged)), t)
  {
    if merged == [] || t.start > merged[|merged| - 1].end + 1 {
      AbsorbApart(merged, t);
      InsertBeforeLast(x, merged, t);
      MergeSortedLast(Insert(CompareIntervals, x, merged), t);
    } else {
      ShapedFollows(merged, most);
      InitAndLast(merged);
      InsertIntoGrown(merged[..|merged| - 1], merged[|merged| - 1], t, x);
    }
  }

  /** Inserting into the merged list and merging is inserting into the list itself and merging. */
  lemma {:induction false} MergeAfterInsert(s: seq<Interval>, x: Interval)
    requires Sorted(CompareIntervals, s)
    ensures MergeSorted(Insert(CompareIntervals, x, MergeSorted(s))) == MergeSorted(Insert(CompareIntervals, x, s))
  {
    if s != [] {
      var most, t := s[..|s| - 1], s[|s| - 1];
      if CompareIntervals(x, t) > 0 {
        MergedIsShaped(s);
        MergeAfterInsertLast(s, MergeSorted(s), x);
      } else {
        MergedIsShaped(most);
        MergeAfterInsert(most, x);
        MergeAfterInsertStep(most, MergeSorted(most), t, x);
        InitAndLast(s);
        InsertBeforeLast(x, most, t);
        MergeSortedLast(Insert(CompareIntervals, x, most), t);
      }
    }
  }

  /** Merging what was merged before with one more interval is merging everything at once. */
  lemma {:induction false} MergeOnceMore(ivs: seq<Interval>, x: Interval)
    ensures Merge(Merge(ivs) + [x]) == Merge(ivs + [x])
  {
    var sorted := Sort(CompareIntervals, ivs);
    SortedAscends(ivs);
    MergedIsShaped(sorted);
    SortOfAppended(ivs, x);
    CompareIntervalsSorts(Merge(ivs));
    SortOfSorted(CompareIntervals, Merge(ivs));
    SortOfAppended(Merge(ivs), x);
    MergeAfterInsert(sorted, x);
  }

  /** What is merged stays as it is. */
  lemma MergeTwice(ivs: seq<Interval>)
    ensures Merge(Merge(ivs)) == Merge(ivs)
  {
    SortedAscends(ivs);
    MergedIsShaped(Sort(CompareIntervals, ivs));
    CompareIntervalsSorts(Merge(ivs));
    SortOfSorted(CompareIntervals, Merge(ivs));
    SeparateMergesToItself(Merge(ivs));
  }

  /** Merging leaves no two intervals that touch, swapped ends or not. */
  lemma MergeIsSeparate(ivs: seq<Interval>)
    ensures Separate(Merge(ivs))
  {
    SortedAscends(ivs);
    MergedIsShaped(Sort(CompareIntervals, ivs));
  }

  lemma SeparateIsMerged(ivs: seq<Interval>)
    requires Separate(ivs) && Sorted(CompareIntervals, ivs)
    ensures Merge(ivs) == ivs
  {
    CompareIntervalsSorts(ivs);
    SortOfSorted(CompareIntervals, ivs);
    SeparateMergesToItself(ivs);
  }

  lemma CanonicalIsMerged(ivs: seq<Interval>)
    requires Canonical(ivs)
    ensures Merge(ivs) == ivs
  {
    MergeIsCanonical(ivs);
    CanonicalIsUnique(Merge(ivs), ivs);
  }

  lemma SortOfAppended(ivs: seq<Interval>, x: Interval)
    ensures Sort(CompareIntervals, ivs + [x]) == Insert(CompareIntervals, x, Sort(CompareIntervals, ivs))
  {
    SortedAscends(ivs);
    CompareIntervalsSorts(ivs);
    InsertKeepsSorted(CompareIntervals, x, Sort(CompareIntervals, ivs));
    assert multiset(ivs + [x]) == multiset{x} + multiset(ivs);
    SortIsTheSortedOne(ivs + [x], Insert(CompareIntervals, x, Sort(CompareIntervals, ivs)));
  }

  /** The order of the intervals is irrelevant, swapped ends or not. */
  lemma MergeForgetsOrder(a: seq<Interval>, b: seq<Interval>)
    requires multiset(a) == multiset(b)
    ensures Merge(a) == Merge(b)
  {
    SortedAscends(b);
    SortIsTheSortedOne(a, Sort(CompareIntervals, b));
  }

  // ---------- an interval whose ends are swapped ----------

  /** The new interval, though empty, touches one already held: the source then drops it. */
  ghost predicate Swallowed(cur: seq<Interval>, iv: Interval) {
    exists i | 0 <= i < |cur| ::
      cur[i].start < iv.start <= cur[i].end + 1 || (cur[i].start == iv.start == iv.end + 1)
  }

  lemma CutIsApart(cur: seq<Interval>, p: nat)
    requires Canonical(cur) && p <= |cur|
    ensures Canonical(cur[..p]) && Apart(cur[..p], cur[p..]) && cur == cur[..p] + cur[p..]
  {
    CutAt(cur, p);
  }

  ghost predicate StartBelow(ivs: seq<Interval>, x: nat) {
    forall i | 0 <= i < |ivs| :: ivs[i].start < x
  }

  ghost predicate StartFrom(ivs: seq<Interval>, x: nat) {
    forall i | 0 <= i < |ivs| :: x <= ivs[i].start
  }

  /** Behind the last interval that starts below x. */
  function StartPoint(cur: seq<Interval>, x: nat): (p: nat)
    ensures p <= |cur| && (p > 0 ==> cur[p - 1].start < x)
  {
    if cur == [] || cur[|cur| - 1].start < x then |cur| else StartPoint(cur[..|cur| - 1], x)
  }

  lemma {:induction false} FromStartPoint(cur: seq<Interval>, x: nat)
    ensures StartFrom(cur[StartPoint(cur, x)..], x)
  {
    var p := StartPoint(cur, x);
    if p < |cur| {
      FromStartPoint(cur[..|cur| - 1], x);
      assert cur[p..] == cur[..|cur| - 1][p..] + [cur[|cur| - 1]];
    }
  }

  lemma BelowStartPoint(cur: seq<Interval>, p: nat, x: nat)
    requires Canonical(cur) && p <= |cur| && (p > 0 ==> cur[p - 1].start < x)
    ensures StartBelow(cur[..p], x)
  {
    forall i | 0 <= i < p ensures cur[i].start < x {
      assert i < p - 1 ==> cur[i].end + 1 < cur[p - 1].start;
    }
  }

  lemma AbsorbApart(out: seq<Interval>, cur: Interval)
    requires out != [] ==> out[|out| - 1].end + 1 < cur.start
    ensures Absorb(out, cur) == out + [cur]
  {
  }

  lemma MergeSortedLast(s: seq<Interval>, cur: Interval)
    ensures MergeSorted(s + [cur]) == Absorb(MergeSorted(s), cur)
  {
    assert (s + [cur])[..|s|] == s;
  }

  ghost predicate Apart(out: seq<Interval>, rest: seq<Interval>) {
    Canonical(rest) && (rest != [] && out != [] ==> out[|out| - 1].end + 1 < rest[0].start)
  }

  lemma ApartPrefix(out: seq<Interval>, rest: seq<Interval>)
    requires rest != [] && Apart(out, rest)
    ensures Apart(out, rest[..|rest| - 1])
    ensures Absorb(out + rest[..|rest| - 1], rest[|rest| - 1]) == out + rest
  {
    AbsorbApart(out + rest[..|rest| - 1], rest[|rest| - 1]);
    assert out + rest[..|rest| - 1] + [rest[|rest| - 1]] == out + rest;
  }

  /** Intervals that lie apart from everything merged so far are appended unchanged. */
  lemma {:induction false} MergeAppendsApart(s: seq<Interval>, out: seq<Interval>, rest: seq<Interval>)
    requires Apart(out, rest) && out == MergeSorted(s)
    ensures MergeSorted(s + rest) == out + rest
  {
    if rest == [] {
      assert s + rest == s;
    } else {
      ApartPrefix(out, rest);
      MergeAppendsApart(s, out, rest[..|rest| - 1]);
      MergeSortedLast(s + rest[..|rest| - 1], rest[|rest| - 1]);
      InitAndLast(rest);
      Regroup(s, rest[..|rest| - 1], [rest[|rest| - 1]]);
    }
  }

  lemma PlacedIsPermuted(below: seq<Interval>, iv: Interval, above: seq<Interval>)
    ensures multiset(below + [iv] + above) == multiset(below + above + [iv])
  {
    assert multiset(below + [iv] + above) == multiset(below) + multiset{iv} + multiset(above);
  }

  lemma PlacedIsSorted(below: seq<Interval>, iv: Interval, above: seq<Interval>)
    requires Canonical(below) && Apart(below, above) && iv.start > iv.end
    requires StartBelow(below, iv.start)
    requires StartFrom(above, iv.start)
    ensures Sorted(CompareIntervals, below + [iv] + above)
  {
    forall i, j | 0 <= i < |below| && 0 <= j < |above| ensures CompareIntervals(below[i], above[j]) <= 0 {
      assert below[i].start < iv.start <= above[j].start;
    }
    forall j | 0 <= j < |above| ensures CompareIntervals(iv, above[j]) <= 0 {
      assert above[j].start <= above[j].end;
    }
  }

  lemma SortIsTheSortedOne(a: seq<Interval>, b: seq<Interval>)
    requires multiset(a) == multiset(b) && Sorted(CompareIntervals, b)
    ensures Sort(CompareIntervals, a) == b
  {
    CompareIntervalsSorts(b);
    SortSorts(CompareIntervals, a);
    SortedIsUnique(CompareIntervals, b, Sort(CompareIntervals, a));
  }

  lemma {:induction false} MergeBelow(below: seq<Interval>, iv: Interval)
    requires Canonical(below)
    ensures MergeSorted(below + [iv]) == Absorb(below, iv)
  {
    MergeAppendsApart([], [], below);
    assert [] + below == below;
    MergeSortedLast(below, iv);
  }

  /** The swapped interval starts inside, or right after, the interval before it. */
  lemma {:induction false} MergeOfCaught(below: seq<Interval>, iv: Interval, above: seq<Interval>)
    requires Canonical(below) && Apart(below, above) && below != [] && iv.start > iv.end
    requires iv.start <= below[|below| - 1].end + 1
    ensures MergeSorted(below + [iv] + above) == below + above
  {
    MergeBelow(below, iv);
    assert Absorb(below, iv) == below;
    MergeAppendsApart(below + [iv], below, above);
  }

  /** The swapped interval is the empty one just before the interval after it. */
  lemma {:induction false} MergeOfEmptyBefore(below: seq<Interval>, iv: Interval, next: Interval, above: seq<Interval>)
    requires Canonical(below) && Apart(below + [next], above)
    requires next.start == iv.start == iv.end + 1 <= next.end + 1
    requires below != [] ==> below[|below| - 1].end + 1 < iv.start
    ensures MergeSorted(below + [iv] + [next] + above) == below + [next] + above
  {
    MergeBelow(below, iv);
    AbsorbApart(below, iv);
    MergeSortedLast(below + [iv], next);
    assert (below + [iv])[..|below|] == below;
    MergeAppendsApart(below + [iv] + [next], below + [next], above);
  }

  /** Otherwise it stays in the list as it is. */
  lemma {:induction false} MergeOfStray(below: seq<Interval>, iv: Interval, above: seq<Interval>)
    requires Canonical(below) && Canonical(above)
    requires below != [] ==> below[|below| - 1].end + 1 < iv.start
    requires above != [] ==> iv.end + 1 < above[0].start
    ensures MergeSorted(below + [iv] + above) == below + [iv] + above
  {
    MergeBelow(below, iv);
    AbsorbApart(below, iv);
    MergeAppendsApart(below + [iv], below + [iv], above);
  }

  predicate Caught(below: seq<Interval>, iv: Interval) {
    below != [] && iv.start <= below[|below| - 1].end + 1
  }

  predicate EmptyBefore(iv: Interval, above: seq<Interval>) {
    above != [] && above[0].start == iv.start == iv.end + 1
  }

  lemma SwallowedHow(below: seq<Interval>, iv: Interval, above: seq<Interval>)
    requires Canonical(below) && Apart(below, above) && iv.start > iv.end
    requires StartBelow(below, iv.start)
    requires StartFrom(above, iv.start)
    ensures Swallowed(below + above, iv) <==> Caught(below, iv) || EmptyBefore(iv, above)
  {
    var cur := below + above;
    if Caught(below, iv) {
      assert cur[|below| - 1].start < iv.start <= cur[|below| - 1].end + 1;
    } else if EmptyBefore(iv, above) {
      assert cur[|below|].start == iv.start;
    }
  }

  lemma {:induction false} MergeOfEmptyFirst(below: seq<Interval>, iv: Interval, above: seq<Interval>)
    requires Canonical(below) && Apart(below, above) && EmptyBefore(iv, above) && !Caught(below, iv)
    ensures MergeSorted(below + [iv] + above) == below + above
  {
    HeadAndTail(above);
    Regroup(below + [iv], [above[0]], above[1..]);
    Regroup(below, [above[0]], above[1..]);
    MergeOfEmptyBefore(below, iv, above[0], above[1..]);
  }

  lemma {:induction false} MergeOfSwapped(below: seq<Interval>, iv: Interval, above: seq<Interval>)
    requires Canonical(below) && Apart(below, above) && iv.start > iv.end
    requires StartFrom(above, iv.start)
    ensures MergeSorted(below + [iv] + above) ==
            if Caught(below, iv) || EmptyBefore(iv, above) then below + above else below + [iv] + above
  {
    if Caught(below, iv) {
      MergeOfCaught(below, iv, above);
    } else if EmptyBefore(iv, above) {
      MergeOfEmptyFirst(below, iv, above);
    } else {
      MergeOfStray(below, iv, above);
    }
  }

  /** Where the swapped interval is placed, and whether it is dropped there. */
  lemma {:induction false} SwappedIn(cur: seq<Interval>, below: seq<Interval>, iv: Interval, above: seq<Interval>)
    requires cur == below + above && Canonical(below) && Apart(below, above) && iv.start > iv.end
    requires StartBelow(below, iv.start)
    requires StartFrom(above, iv.start)
    ensures Swallowed(cur, iv) ==> Merge(cur + [iv]) == cur
    ensures !Swallowed(cur, iv) ==> iv in Merge(cur + [iv])
  {
    PlacedIsSorted(below, iv, above);
    PlacedIsPermuted(below, iv, above);
    SortIsTheSortedOne(cur + [iv], below + [iv] + above);
    SwallowedHow(below, iv, above);
    MergeOfSwapped(below, iv, above);
    assert (below + [iv] + above)[|below|] == iv;
  }

  ghost predicate SplitsAt(cur: seq<Interval>, below: seq<Interval>, above: seq<Interval>, x: nat) {
    && cur == below + above && Canonical(below) && Apart(below, above)
    && StartBelow(below, x) && StartFrom(above, x)
  }

  lemma {:induction false} CanBeSplit(cur: seq<Interval>, x: nat)
    requires Canonical(cur)
    ensures exists below, above :: SplitsAt(cur, below, above, x)
  {
    var p := StartPoint(cur, x);
    BelowStartPoint(cur, p, x);
    FromStartPoint(cur, x);
    CutIsApart(cur, p);
    assert SplitsAt(cur, cur[..p], cur[p..], x);
  }

  lemma {:induction false} MergeWithSwapped(cur: seq<Interval>, iv: Interval)
    requires Canonical(cur) && iv.start > iv.end
    ensures Swallowed(cur, iv) ==> Merge(cur + [iv]) == cur
    ensures !Swallowed(cur, iv) ==> iv in Merge(cur + [iv])
  {
    CanBeSplit(cur, iv.start);
    var below, above :| SplitsAt(cur, below, above, iv.start);
    SwappedIn(cur, below, iv, above);
  }

  lemma NotCanonical(ivs: seq<Interval>, iv: Interval)
    requires iv in ivs && iv.start > iv.end
    ensures !Canonical(ivs)
  {
    var i :| 0 <= i < |ivs| && ivs[i] == iv;
  }

  /** Adding keeps the list canonical exactly when the ends ascend or the swapped interval is swallowed. */
  lemma {:induction false} MergeIsCanonicalIff(cur: seq<Interval>, iv: Interval)
    requires Canonical(cur)
    ensures Canonical(Merge(cur + [iv])) <==> iv.start <= iv.end || Swallowed(cur, iv)
    ensures iv.start > iv.end && Swallowed(cur, iv) ==> Merge(cur + [iv]) == cur
  {
    if iv.start <= iv.end {
      MergeIsCanonical(cur + [iv]);
    } else {
      MergeWithSwapped(cur, iv);
      if !Swallowed(cur, iv) {
        NotCanonical(Merge(cur + [iv]), iv);
      }
    }
  }

  // ---------- subtracting ----------

  method SubtractRange(range: Interval, covers: seq<Interval>) returns (out: seq<Interval>)
    ensures forall n :: Covers(out, n) <==> range.Has(n) && !Covers(covers, n)
    ensures WellFormed(out)
  {
    var segments := [range];
    assert forall n :: Covers(segments, n) <==> range.Has(n) by {
      assert segments[0] == range;
    }
    for c := 0 to |covers|
      invariant forall n :: Covers(segments, n) <==> range.Has(n) && !Covers(covers[..c], n)
    {
      var next := CutAll(segments, covers[c]);
      forall n ensures Covers(next, n) <==> range.Has(n) && !Covers(covers[..c + 1], n) {
        assert covers[..c + 1] == covers[..c] + [covers[c]];
        CoversAppend(covers[..c], covers[c], n);
      }
      segments := next;
    }
    assert covers[..|covers|] == covers;
    out := KeepWellFormed(segments);
  }

  /** The body of the source's outer loop: one cover cut out of every segment. */
  method CutAll(segments: seq<Interval>, cover: Interval) returns (next: seq<Interval>)
    ensures forall n :: Covers(next, n) <==> Covers(segments, n) && !cover.Has(n)
  {
    next := [];
    for i := 0 to |segments|
      invariant forall n :: Covers(next, n) <==> Covers(segments[..i], n) && !cover.Has(n)
    {
      var seg := segments[i];
      assert segments[..i + 1] == segments[..i] + [seg];
      ghost var before := next;
      ghost var cut: seq<Interval> := [];
      if cover.end < seg.start || cover.start > seg.end {
        next := next + [seg];
        cut := [seg];
      } else {
        if cover.start > seg.start {
          next := next + [Interval(seg.start, cover.start - 1)];
          cut := [Interval(seg.start, cover.start - 1)];
        }
        if cover.end < seg.end {
          next := next + [Interval(cover.end + 1, seg.end)];
          cut := cut + [Interval(cover.end + 1, seg.end)];
        }
      }
      forall n ensures Covers(next, n) <==> Covers(segments[..i + 1], n) && !cover.Has(n) {
        CoversAppend(segments[..i], seg, n);
        CutCovers(seg, cover, cut, n);
        assert next == before + cut;
        CoversConcat(before, cut, n);
      }
    }
    assert segments[..|segments|] == segments;
  }

  lemma CoversConcat(a: seq<Interval>, b: seq<Interval>, n: int)
    ensures Covers(a + b, n) <==> Covers(a, n) || Covers(b, n)
  {
    var all := a + b;
    if Covers(a, n) {
      var i :| 0 <= i < |a| && a[i].Has(n);
      assert all[i].Has(n);
    }
    if Covers(b, n) {
      var i :| 0 <= i < |b| && b[i].Has(n);
      assert all[|a| + i].Has(n);
    }
  }

  /** What one cut leaves of a segment; a cover whose ends are swapped is empty and leaves all of it. */
  lemma CutCovers(seg: Interval, cover: Interval, cut: seq<Interval>, n: int)
    requires
      if cover.end < seg.start || cover.start > seg.end then cut == [seg]
      else cut == (if cover.start > seg.start then [Interval(seg.start, cover.start - 1)] else [])
                + (if cover.end < seg.end then [Interval(cover.end + 1, seg.end)] else [])
    ensures Covers(cut, n) <==> seg.Has(n) && !cover.Has(n)
  {
    if seg.Has(n) && !cover.Has(n) {
      assert |cut| > 0 && (cut[0].Has(n) || cut[|cut| - 1].Has(n));
    }
  }

  /** `segments.filter(([s, e]) => s <= e)` */
  function KeepWellFormed(segments: seq<Interval>): (out: seq<Interval>)
    ensures WellFormed(out)
    ensures SameCover(out, segments)
  {
    if segments == [] then []
    else
      var rest := KeepWellFormed(segments[1..]);
      assert forall n :: Covers(segments, n) <==> segments[0].Has(n) || Covers(rest, n) by {
        forall n ensures Covers(segments, n) <==> segments[0].Has(n) || Covers(rest, n) { CoversTail(segments, n); }
      }
      if segments[0].start <= segments[0].end then
        assert forall n :: Covers([segments[0]] + rest, n) <==> segments[0].Has(n) || Covers(rest, n) by {
          forall n ensures Covers([segments[0]] + rest, n) <==> segments[0].Has(n) || Covers(rest, n) {
            CoversTail([segments[0]] + rest, n);
          }
        }
        [segments[0]] + rest
      else rest
  }

  // ---------- counting ----------

  function Width(iv: Interval): int {
    iv.end - iv.start + 1
  }

  function WidthSum(ivs: seq<Interval>): int {
    if ivs == [] then 0 else WidthSum(ivs[..|ivs| - 1]) + Width(ivs[|ivs| - 1])
  }

  /** The numbers a list covers. */
  ghost function Points(ivs: seq<Interval>): set<int> {
    if ivs == [] then {} else Points(ivs[..|ivs| - 1]) + PointsOf(ivs[|ivs| - 1])
  }

  ghost function PointsOf(iv: Interval): (s: set<int>)
    ensures forall n :: n in s <==> iv.Has(n)
  {
    if iv.start <= iv.end then Run(iv.start, iv.end + 1) else {}
  }

  /** The numbers from lo up to but not including hi. */
  function Run(lo: int, hi: int): (s: set<int>)
    requires lo <= hi
    ensures forall n :: n in s <==> lo <= n < hi
    ensures |s| == hi - lo
    decreases hi - lo
  {
    if lo == hi then {} else Run(lo, hi - 1) + {hi - 1}
  }

  lemma {:induction false} PointsAreCovered(ivs: seq<Interval>, n: int)
    ensures n in Points(ivs) <==> Covers(ivs, n)
  {
    if ivs != [] {
      var most, last := ivs[..|ivs| - 1], ivs[|ivs| - 1];
      PointsAreCovered(most, n);
      assert ivs == most + [last];
      CoversAppend(most, last, n);
    }
  }

  /** No range is swapped by more than one. */
  predicate NoneNegative(ivs: seq<Interval>) {
    forall i | 0 <= i < |ivs| :: ivs[i].start <= ivs[i].end + 1
  }

  lemma NoneNegativeInit(ivs: seq<Interval>)
    requires ivs != []
    ensures NoneNegative(ivs) <==> NoneNegative(ivs[..|ivs| - 1]) && ivs[|ivs| - 1].start <= ivs[|ivs| - 1].end + 1
  {
    var most := ivs[..|ivs| - 1];
    assert forall i | 0 <= i < |most| :: most[i] == ivs[i];
  }

  /** The widths of a merged list add up to the number of covered numbers, less what swapped ranges take off. */
  lemma {:induction false} WidthsCountPoints(ivs: seq<Interval>)
    requires Separate(ivs)
    ensures WidthSum(ivs) <= |Points(ivs)|
    ensures WidthSum(ivs) == |Points(ivs)| <==> NoneNegative(ivs)
  {
    if ivs != [] {
      var most, last := ivs[..|ivs| - 1], ivs[|ivs| - 1];
      WidthsCountPoints(most);
      NoneNegativeInit(ivs);
      forall n | n in Points(most) ensures n !in PointsOf(last) {
        PointsAreCovered(most, n);
      }
      assert Points(most) !! PointsOf(last);
      assert |Points(ivs)| == |Points(most)| + |PointsOf(last)|;
    }
  }
}

/** Checks 4 to 6 across segments (packages/verifier/src/verify-continuity.ts). */
module Continuity {
  import opened Outcomes
  import opened Digests
  import Canonical
  import opened CceModel
  import opened ManifestModel
  import opened CrossSegment
  import opened Sorting
  import opened Verifier

  function Sequence(s: VerifierSegment): int {
    s.manifest.core.segmentSequence
  }

  function Id(s: VerifierSegment): string {
    s.manifest.core.segmentId
  }

  function BySequence(a: VerifierSegment, b: VerifierSegment): int {
    Sequence(a) - Sequence(b)
  }

  function SortBySequence(segments: seq<VerifierSegment>): seq<VerifierSegment> {
    Sort(BySequence, segments)
  }

  function SeqId(n: int): string {
    "seq:" + Canonical.PrintInt(n)
  }

  /** First occurrences only: a `Set` filled in order. */
  function Dedupe(ids: seq<string>): (r: seq<string>)
    ensures forall id :: id in r <==> id in ids
    ensures forall i, j | 0 <= i < j < |r| :: r[i] != r[j]
  {
    if ids == [] then []
    else
      var init := Dedupe(ids[..|ids| - 1]);
      var last := ids[|ids| - 1];
      assert ids == ids[..|ids| - 1] + [last];
      if last in init then init else init + [last]
  }

  function OutcomeOf(offending: seq<string>): CheckOutcome {
    if |offending| > 0 then FAIL(Dedupe(offending)) else PASS
  }

  // ---------- check 5: no missing segment ----------

  ghost predicate Occurs(segments: seq<VerifierSegment>, n: int) {
    exists i | 0 <= i < |segments| :: Sequence(segments[i]) == n
  }

  ghost predicate NoDuplicate(segments: seq<VerifierSegment>) {
    forall i, j | 0 <= i < j < |segments| :: Sequence(segments[i]) != Sequence(segments[j])
  }

  /** Every sequence of the scope occurs once and no other occurs. */
  ghost predicate Contiguous(segments: seq<VerifierSegment>, first: int, last: int) {
    && first <= last
    && NoDuplicate(segments)
    && (forall n | first <= n <= last :: Occurs(segments, n))
    && (forall i | 0 <= i < |segments| :: first <= Sequence(segments[i]) <= last)
  }

  /** The ids of the segments with this sequence, in order. */
  function IdsOf(segments: seq<VerifierSegment>, n: int): seq<string> {
    if segments == [] then []
    else
      var last := segments[|segments| - 1];
      IdsOf(segments[..|segments| - 1], n) + if Sequence(last) == n then [Id(last)] else []
  }

  lemma IdsStep(done: seq<VerifierSegment>, s: VerifierSegment, n: int)
    ensures IdsOf(done + [s], n) == if Sequence(s) == n then IdsOf(done, n) + [Id(s)] else IdsOf(done, n)
  {
    assert (done + [s])[..|done|] == done;
    assert IdsOf(done, n) + [] == IdsOf(done, n);
  }

  /** A segment with this sequence has this id. */
  ghost predicate Carries(segments: seq<VerifierSegment>, n: int, id: string) {
    exists i :: 0 <= i < |segments| && Sequence(segments[i]) == n && Id(segments[i]) == id
  }

  lemma CarriesStep(done: seq<VerifierSegment>, s: VerifierSegment, n: int, id: string)
    ensures Carries(done + [s], n, id) <==> Carries(done, n, id) || (Sequence(s) == n && Id(s) == id)
  {
    var all := done + [s];
    assert all[|done|] == s;
    if Carries(done, n, id) {
      var i :| 0 <= i < |done| && Sequence(done[i]) == n && Id(done[i]) == id;
      assert all[i] == done[i];
    }
  }

  lemma {:induction false} IdsAre(segments: seq<VerifierSegment>, n: int)
    ensures forall id :: id in IdsOf(segments, n) <==> Carries(segments, n, id)
    ensures IdsOf(segments, n) != [] <==> Occurs(segments, n)
  {
    if segments != [] {
      var most, last := segments[..|segments| - 1], segments[|segments| - 1];
      IdsAre(most, n);
      assert segments == most + [last];
      OccursStep(most, last, n);
      forall id ensures id in IdsOf(segments, n) <==> Carries(segments, n, id) {
        CarriesStep(most, last, n, id);
      }
    }
  }

  lemma OccursStep(done: seq<VerifierSegment>, s: VerifierSegment, m: int)
    ensures Occurs(done + [s], m) <==> m == Sequence(s) || Occurs(done, m)
  {
    var all := done + [s];
    assert all[|done|] == s;
    if Occurs(done, m) {
      var i :| 0 <= i < |done| && Sequence(done[i]) == m;
      assert Sequence(all[i]) == m;
    }
  }

  /** Two segments have this sequence. */
  ghost predicate Twice(segments: seq<VerifierSegment>, n: int) {
    exists i, j :: 0 <= i < j < |segments| && Sequence(segments[i]) == n && Sequence(segments[j]) == n
  }

  lemma {:induction false} SharedIds(segments: seq<VerifierSegment>, n: int)
    ensures |IdsOf(segments, n)| > 1 <==> Twice(segments, n)
  {
    if segments != [] {
      var most, last := segments[..|segments| - 1], |segments| - 1;
      SharedIds(most, n);
      IdsAre(most, n);
      if Twice(most, n) {
        var i, j :| 0 <= i < j < |most| && Sequence(most[i]) == n && Sequence(most[j]) == n;
        assert Sequence(segments[i]) == n && Sequence(segments[j]) == n;
      }
      if Sequence(segments[last]) == n && Occurs(most, n) {
        var i :| 0 <= i < |most| && Sequence(most[i]) == n;
        assert Sequence(segments[i]) == n;
      }
      if Twice(segments, n) {
        var i, j :| 0 <= i < j < |segments| && Sequence(segments[i]) == n && Sequence(segments[j]) == n;
        assert Sequence(most[i]) == n;
        assert j < last ==> Sequence(most[j]) == n;
      }
    }
  }

  lemma NoneTwice(segments: seq<VerifierSegment>)
    ensures NoDuplicate(segments) <==> forall n :: !Twice(segments, n)
  {
    if forall n :: !Twice(segments, n) {
      forall i, j | 0 <= i < j < |segments| ensures Sequence(segments[i]) != Sequence(segments[j]) {
        assert !Twice(segments, Sequence(segments[i]));
      }
    }
  }

  /** `bySeq`: the segments seen with each sequence, and its keys in the order they first appeared. */
  datatype Index = Index(keys: seq<int>, ids: map<int, seq<string>>) {
    function At(n: int): seq<string> {
      if n in ids then ids[n] else []
    }

    function With(n: int, id: string): Index {
      Index(if n in ids then keys else keys + [n], ids[n := At(n) + [id]])
    }
  }

  ghost predicate EntryHolds(x: Index, segments: seq<VerifierSegment>, n: int) {
    (n in x.keys <==> n in x.ids) && (n in x.ids <==> x.At(n) != []) && x.At(n) == IdsOf(segments, n)
  }

  ghost predicate Indexes(x: Index, segments: seq<VerifierSegment>) {
    forall n :: EntryHolds(x, segments, n)
  }

  lemma EntryStep(x: Index, done: seq<VerifierSegment>, s: VerifierSegment, n: int)
    requires EntryHolds(x, done, n) && EntryHolds(x, done, Sequence(s))
    ensures EntryHolds(x.With(Sequence(s), Id(s)), done + [s], n)
  {
    IdsStep(done, s, n);
  }

  method BuildIndex(segments: seq<VerifierSegment>) returns (x: Index)
    ensures Indexes(x, segments)
  {
    x := Index([], map[]);
    assert forall n :: EntryHolds(x, [], n);
    var i := 0;
    while i < |segments|
      invariant 0 <= i <= |segments|
      invariant Indexes(x, segments[..i])
    {
      forall n ensures EntryHolds(x.With(Sequence(segments[i]), Id(segments[i])), segments[..i] + [segments[i]], n) {
        assert EntryHolds(x, segments[..i], n) && EntryHolds(x, segments[..i], Sequence(segments[i]));
        EntryStep(x, segments[..i], segments[i], n);
      }
      x := x.With(Sequence(segments[i]), Id(segments[i]));
      assert segments[..i + 1] == segments[..i] + [segments[i]];
      i := i + 1;
    }
    assert segments[..i] == segments;
  }

  /** The segments that share a sequence with another one. */
  method FindDuplicates(x: Index) returns (offending: seq<string>)
    ensures forall id :: id in offending <==> exists j :: 0 <= j < |x.keys| && |x.At(x.keys[j])| > 1 && id in x.At(x.keys[j])
    ensures offending == [] <==> forall j | 0 <= j < |x.keys| :: |x.At(x.keys[j])| <= 1
  {
    offending := [];
    var k := 0;
    while k < |x.keys|
      invariant 0 <= k <= |x.keys|
      invariant forall id :: id in offending <==> exists j :: 0 <= j < k && |x.At(x.keys[j])| > 1 && id in x.At(x.keys[j])
      invariant offending == [] <==> forall j | 0 <= j < k :: |x.At(x.keys[j])| <= 1
    {
      var ids := x.At(x.keys[k]);
      if |ids| > 1 {
        offending := offending + ids;
      }
      k := k + 1;
    }
  }

  /** Sequences of the scope that no segment has. */
  method FindMissing(x: Index, first: int, last: int) returns (offending: seq<string>)
    ensures forall id :: id in offending <==> exists m :: first <= m <= last && m !in x.ids && id == SeqId(m)
    ensures offending == [] <==> forall m | first <= m <= last :: m in x.ids
  {
    offending := [];
    var n := first;
    while n <= last
      invariant first <= n <= if first <= last then last + 1 else first
      invariant forall id :: id in offending <==> exists m :: first <= m < n && m !in x.ids && id == SeqId(m)
      invariant offending == [] <==> forall m | first <= m < n :: m in x.ids
      decreases last - n
    {
      if n !in x.ids {
        offending := offending + [SeqId(n)];
      }
      n := n + 1;
    }
  }

  /** The texts of the bad ones among the first k keys. */
  ghost predicate Found(bad: int -> bool, text: int -> string, keys: seq<int>, k: nat, offending: seq<string>)
    requires k <= |keys|
  {
    && (offending == [] <==> forall j | 0 <= j < k :: !bad(keys[j]))
    && forall id :: id in offending <==> exists j :: 0 <= j < k && bad(keys[j]) && id == text(keys[j])
  }

  lemma FoundStep(bad: int -> bool, text: int -> string, keys: seq<int>, k: nat, offending: seq<string>)
    requires k < |keys| && Found(bad, text, keys, k, offending)
    ensures bad(keys[k]) ==> Found(bad, text, keys, k + 1, offending + [text(keys[k])])
    ensures !bad(keys[k]) ==> Found(bad, text, keys, k + 1, offending)
  {
  }

  /** Sequences that lie outside the scope. */
  method FindOutside(x: Index, first: int, last: int) returns (offending: seq<string>)
    ensures Found(n => !(first <= n <= last), SeqId, x.keys, |x.keys|, offending)
  {
    ghost var bad := (n: int) => !(first <= n <= last);
    offending := [];
    var k := 0;
    while k < |x.keys|
      invariant 0 <= k <= |x.keys| && Found(bad, SeqId, x.keys, k, offending)
    {
      FoundStep(bad, SeqId, x.keys, k, offending);
      if x.keys[k] < first || x.keys[k] > last {
        offending := offending + [SeqId(x.keys[k])];
      }
      k := k + 1;
    }
  }

  lemma IndexReads(x: Index, segments: seq<VerifierSegment>, n: int)
    requires Indexes(x, segments)
    ensures (n in x.keys <==> Occurs(segments, n)) && (n in x.ids <==> Occurs(segments, n))
    ensures |x.At(n)| > 1 <==> Twice(segments, n)
    ensures forall id :: id in x.At(n) <==> Carries(segments, n, id)
    ensures Twice(segments, n) ==> Occurs(segments, n)
  {
    assert EntryHolds(x, segments, n);
    IdsAre(segments, n);
    SharedIds(segments, n);
  }

  /** What check 5 reports: ids of segments that share a sequence, and sequences missing or out of scope. */
  ghost predicate MissingFault(segments: seq<VerifierSegment>, first: int, last: int, id: string) {
    || (exists n :: Twice(segments, n) && Carries(segments, n, id))
    || (exists n :: first <= n <= last && !Occurs(segments, n) && id == SeqId(n))
    || (exists n :: Occurs(segments, n) && !(first <= n <= last) && id == SeqId(n))
  }

  /** The loops over the index find exactly these faults. */
  lemma IndexFaults(x: Index, segments: seq<VerifierSegment>, first: int, last: int, id: string)
    requires Indexes(x, segments)
    ensures (exists j :: 0 <= j < |x.keys| && |x.At(x.keys[j])| > 1 && id in x.At(x.keys[j]))
      <==> exists n :: Twice(segments, n) && Carries(segments, n, id)
    ensures (exists m :: first <= m <= last && m !in x.ids && id == SeqId(m))
      <==> exists n :: first <= n <= last && !Occurs(segments, n) && id == SeqId(n)
    ensures (exists j :: 0 <= j < |x.keys| && !(first <= x.keys[j] <= last) && id == SeqId(x.keys[j]))
      <==> exists n :: Occurs(segments, n) && !(first <= n <= last) && id == SeqId(n)
  {
    forall n
      ensures (n in x.keys <==> Occurs(segments, n)) && (n in x.ids <==> Occurs(segments, n))
      ensures (|x.At(n)| > 1 <==> Twice(segments, n)) && (id in x.At(n) <==> Carries(segments, n, id))
      ensures Twice(segments, n) ==> Occurs(segments, n)
    {
      IndexReads(x, segments, n);
    }
    if n :| Twice(segments, n) && Carries(segments, n, id) {
      var j :| 0 <= j < |x.keys| && x.keys[j] == n;
    }
    if n :| Occurs(segments, n) && !(first <= n <= last) && id == SeqId(n) {
      var j :| 0 <= j < |x.keys| && x.keys[j] == n;
    }
    forall j | 0 <= j < |x.keys| ensures Occurs(segments, x.keys[j]) {
      assert x.keys[j] in x.keys;
    }
  }

  lemma ScopeReads(segments: seq<VerifierSegment>, first: int, last: int)
    ensures (forall i | 0 <= i < |segments| :: first <= Sequence(segments[i]) <= last)
      <==> forall n | Occurs(segments, n) :: first <= n <= last
  {
    forall i | 0 <= i < |segments| ensures Occurs(segments, Sequence(segments[i])) {
    }
  }

  lemma IndexScope(x: Index, segments: seq<VerifierSegment>, first: int, last: int)
    requires Indexes(x, segments)
    ensures Contiguous(segments, first, last) <==>
      && first <= last && (forall j | 0 <= j < |x.keys| :: |x.At(x.keys[j])| <= 1)
      && (forall n | first <= n <= last :: n in x.ids) && (forall j | 0 <= j < |x.keys| :: first <= x.keys[j] <= last)
  {
    NoneTwice(segments);
    ScopeReads(segments, first, last);
    forall n
      ensures (n in x.keys <==> Occurs(segments, n)) && (n in x.ids <==> Occurs(segments, n))
      ensures (|x.At(n)| > 1 <==> Twice(segments, n)) && (Twice(segments, n) ==> Occurs(segments, n))
    {
      IndexReads(x, segments, n);
    }
    forall j | 0 <= j < |x.keys| ensures Occurs(segments, x.keys[j]) {
      assert x.keys[j] in x.keys;
    }
    forall n | Occurs(segments, n) ensures exists j :: 0 <= j < |x.keys| && x.keys[j] == n {
    }
  }

  method RecomputeNoMissingSegment(segments: seq<VerifierSegment>, first: int, last: int) returns (r: CheckOutcome)
    ensures r.PASS? <==> Contiguous(segments, first, last)
    ensures r.FAIL? ==> forall id :: id in r.offending <==> MissingFault(segments, first, last, id)
  {
    var x := BuildIndex(segments);
    var shared := FindDuplicates(x);
    var missing := FindMissing(x, first, last);
    var outside := FindOutside(x, first, last);
    IndexScope(x, segments, first, last);
    var offending := shared + missing + outside;
    forall id ensures id in offending <==> MissingFault(segments, first, last, id) {
      IndexFaults(x, segments, first, last, id);
    }
    r := if |offending| > 0 || first > last then FAIL(Dedupe(offending)) else PASS;
  }

  // ---------- sorting a contiguous set ----------

  /** Segments in order, numbered from `first` without a hole. */
  ghost predicate Numbered(sorted: seq<VerifierSegment>, first: int) {
    forall i | 0 <= i < |sorted| :: Sequence(sorted[i]) == first + i
  }

  lemma BySequenceIsConsistent()
    ensures Consistent(BySequence)
  {
  }

  lemma {:induction false} OccursSorted(segments: seq<VerifierSegment>, n: int)
    ensures Occurs(segments, n) <==> Occurs(SortBySequence(segments), n)
  {
    var sorted := SortBySequence(segments);
    if i :| 0 <= i < |segments| && Sequence(segments[i]) == n {
      InMultiset(segments, sorted, segments[i]);
      var j :| 0 <= j < |sorted| && sorted[j] == segments[i];
    }
    if j :| 0 <= j < |sorted| && Sequence(sorted[j]) == n {
      InMultiset(segments, sorted, sorted[j]);
      var i :| 0 <= i < |segments| && segments[i] == sorted[j];
    }
  }

  /** A contiguous set is, once sorted, the scope counted out. */
  lemma {:induction false} SortedIsNumbered(segments: seq<VerifierSegment>, first: int, last: int)
    requires Contiguous(segments, first, last)
    ensures Numbered(SortBySequence(segments), first) && |segments| == last - first + 1
  {
    var sorted := SortBySequence(segments);
    BySequenceIsConsistent();
    SortSorts(BySequence, segments);
    forall i | 0 <= i < |sorted| ensures first <= Sequence(sorted[i]) <= last {
      InMultiset(segments, sorted, sorted[i]);
    }
    forall n | first <= n <= last ensures Occurs(sorted, n) {
      OccursSorted(segments, n);
    }
    NoDuplicatePermuted(segments, sorted);
    CountOut(sorted, first, last);
  }

  lemma {:induction false} NoDuplicatePermuted(a: seq<VerifierSegment>, b: seq<VerifierSegment>)
    requires NoDuplicate(a) && multiset(a) == multiset(b)
    ensures NoDuplicate(b)
  {
    forall i, j | 0 <= i < j < |b| ensures Sequence(b[i]) != Sequence(b[j]) {
      InMultiset(a, b, b[i]);
      InMultiset(a, b, b[j]);
      TwoPlaces(b, i, j);
      OncePerSequence(a, b[i]);
    }
  }

  lemma {:induction false} OncePerSequence(segments: seq<VerifierSegment>, s: VerifierSegment)
    requires NoDuplicate(segments)
    ensures multiset(segments)[s] <= 1
  {
    if segments != [] {
      OncePerSequence(segments[1..], s);
      assert segments == [segments[0]] + segments[1..];
      assert forall i | 0 <= i < |segments[1..]| :: Sequence(segments[1..][i]) != Sequence(segments[0]);
    }
  }

  lemma {:induction false} CountOut(sorted: seq<VerifierSegment>, first: int, last: int)
    requires first <= last && Sorted(BySequence, sorted) && NoDuplicate(sorted)
    requires forall i | 0 <= i < |sorted| :: first <= Sequence(sorted[i]) <= last
    requires forall n | first <= n <= last :: Occurs(sorted, n)
    ensures Numbered(sorted, first) && |sorted| == last - first + 1
    decreases last - first
  {
    forall i, j | 0 <= i < j < |sorted| ensures Sequence(sorted[i]) < Sequence(sorted[j]) {
      assert BySequence(sorted[i], sorted[j]) <= 0;
    }
    assert Occurs(sorted, first);
    assert Sequence(sorted[0]) == first;
    assert |sorted| > 1 ==> Sequence(sorted[0]) < Sequence(sorted[1]);
    if first < last {
      assert Occurs(sorted, last);
      var rest := sorted[1..];
      forall n | first + 1 <= n <= last ensures Occurs(rest, n) {
        assert Occurs(sorted, n);
        var i :| 0 <= i < |sorted| && Sequence(sorted[i]) == n;
        assert rest[i - 1] == sorted[i];
      }
      CountOut(rest, first + 1, last);
      assert forall i | 1 <= i < |sorted| :: sorted[i] == rest[i - 1];
    }
  }

  // ---------- check 4: cross-segment continuity ----------

  function FirstPrevRowHash(s: VerifierSegment): HashText {
    if s.objects != [] && s.objects[0].evidence.prevRowHash.Some? then s.objects[0].evidence.prevRowHash.value
    else Malformed("")
  }

  /** The segment with this sequence; among several the last wins, as when filling a map. */
  function Find(sorted: seq<VerifierSegment>, n: int): Option<VerifierSegment> {
    if sorted == [] then None
    else if Sequence(sorted[|sorted| - 1]) == n then Some(sorted[|sorted| - 1])
    else Find(sorted[..|sorted| - 1], n)
  }

  function PreviousManifest(sorted: seq<VerifierSegment>, i: nat): Option<Manifest>
    requires i < |sorted|
  {
    var p := Find(sorted, Sequence(sorted[i]) - 1);
    if p.Some? then Some(p.value.manifest) else None
  }

  ghost predicate LinkedAt(sorted: seq<VerifierSegment>, i: nat)
    requires i < |sorted|
  {
    Linked(sorted[i].manifest.core, FirstPrevRowHash(sorted[i]), PreviousManifest(sorted, i))
  }

  ghost predicate ThrowsAt(sorted: seq<VerifierSegment>, i: nat)
    requires i < |sorted|
  {
    Throws(sorted[i].manifest.core, PreviousManifest(sorted, i))
  }

  method SequenceMap(sorted: seq<VerifierSegment>) returns (bySeq: map<int, VerifierSegment>)
    ensures forall n :: n in bySeq <==> Find(sorted, n).Some?
    ensures forall n | n in bySeq :: Find(sorted, n) == Some(bySeq[n])
  {
    bySeq := map[];
    var i := 0;
    while i < |sorted|
      invariant 0 <= i <= |sorted|
      invariant forall n :: n in bySeq <==> Find(sorted[..i], n).Some?
      invariant forall n | n in bySeq :: Find(sorted[..i], n) == Some(bySeq[n])
    {
      bySeq := bySeq[Sequence(sorted[i]) := sorted[i]];
      assert sorted[..i + 1][..i] == sorted[..i];
      i := i + 1;
    }
    assert sorted[..i] == sorted;
  }

  /** What check 4 makes of one place: the link holds or not, or looking at it throws. */
  datatype Link = Link(holds: bool, throws: bool)

  ghost function LinkAt(sorted: seq<VerifierSegment>, i: nat): Link
    requires i < |sorted|
  {
    Link(LinkedAt(sorted, i), ThrowsAt(sorted, i))
  }

  ghost predicate AreLinks(links: seq<Link>, sorted: seq<VerifierSegment>) {
    |links| == |sorted| && forall j {:trigger LinkAt(sorted, j)} | 0 <= j < |sorted| :: links[j] == LinkAt(sorted, j)
  }

  /** One turn of the loop: the verdict on a segment and its predecessor in the map, or an exception. */
  method CheckLinkAt(sorted: seq<VerifierSegment>, bySeq: map<int, VerifierSegment>, i: nat, ghost link: Link)
    returns (r: Result<bool>)
    requires i < |sorted| && link == LinkAt(sorted, i)
    requires forall n :: n in bySeq <==> Find(sorted, n).Some?
    requires forall n | n in bySeq :: Find(sorted, n) == Some(bySeq[n])
    ensures r.Err? <==> link.throws
    ensures r.Ok? ==> r.value == link.holds
  {
    var n := Sequence(sorted[i]) - 1;
    var previous := if n in bySeq then Some(bySeq[n].manifest) else None;
    assert previous == PreviousManifest(sorted, i);
    var v :- VerifyCrossSegment(sorted[i].manifest.core, FirstPrevRowHash(sorted[i]), previous);
    r := Ok(v.ok);
  }

  /** The ids of the segments among the first i that are not linked. */
  ghost predicate Reports(links: seq<Link>, sorted: seq<VerifierSegment>, i: nat, offending: seq<string>)
    requires i <= |sorted| == |links|
  {
    && (offending == [] <==> forall j | 0 <= j < i :: links[j].holds)
    && forall id :: id in offending <==> exists j :: 0 <= j < i && !links[j].holds && id == Id(sorted[j])
  }

  lemma ReportStep(links: seq<Link>, sorted: seq<VerifierSegment>, i: nat, offending: seq<string>)
    requires i < |sorted| == |links| && Reports(links, sorted, i, offending)
    ensures links[i].holds ==> Reports(links, sorted, i + 1, offending)
    ensures !links[i].holds ==> Reports(links, sorted, i + 1, offending + [Id(sorted[i])])
  {
  }

  method CollectUnlinked(sorted: seq<VerifierSegment>, bySeq: map<int, VerifierSegment>, ghost links: seq<Link>)
    returns (r: Result<seq<string>>)
    requires AreLinks(links, sorted)
    requires forall n :: n in bySeq <==> Find(sorted, n).Some?
    requires forall n | n in bySeq :: Find(sorted, n) == Some(bySeq[n])
    ensures r.Err? <==> exists j | 0 <= j < |links| :: links[j].throws
    ensures r.Ok? ==> Reports(links, sorted, |sorted|, r.value)
  {
    var offending: seq<string> := [];
    var i := 0;
    while i < |sorted|
      invariant 0 <= i <= |sorted|
      invariant forall j | 0 <= j < i :: !links[j].throws
      invariant Reports(links, sorted, i, offending)
    {
      ReportStep(links, sorted, i, offending);
      var linked :- CheckLinkAt(sorted, bySeq, i, links[i]);
      if !linked {
        offending := offending + [Id(sorted[i])];
      }
      i := i + 1;
    }
    r := Ok(offending);
  }

  ghost function Links(sorted: seq<VerifierSegment>): (links: seq<Link>)
    ensures AreLinks(links, sorted)
  {
    seq(|sorted|, j requires 0 <= j < |sorted| => LinkAt(sorted, j))
  }

  /** What check 4 reports: the ids of the segments that are not linked. */
  ghost predicate LinkFault(sorted: seq<VerifierSegment>, id: string) {
    exists i :: 0 <= i < |sorted| && !LinkedAt(sorted, i) && id == Id(sorted[i])
  }

  lemma LinksMean(links: seq<Link>, sorted: seq<VerifierSegment>)
    requires AreLinks(links, sorted)
    ensures (exists j | 0 <= j < |links| :: links[j].throws) <==> exists i | 0 <= i < |sorted| :: ThrowsAt(sorted, i)
    ensures (forall j | 0 <= j < |links| :: links[j].holds) <==> forall i | 0 <= i < |sorted| :: LinkedAt(sorted, i)
    ensures forall id :: LinkFault(sorted, id) <==> exists j :: 0 <= j < |sorted| && !links[j].holds && id == Id(sorted[j])
  {
    forall j | 0 <= j < |sorted| ensures links[j].holds == LinkedAt(sorted, j) && links[j].throws == ThrowsAt(sorted, j) {
      assert links[j] == LinkAt(sorted, j);
    }
  }

  method RecomputeCrossSegment(segments: seq<VerifierSegment>) returns (r: Result<CheckOutcome>)
    ensures var sorted := SortBySequence(segments);
      && (r.Err? <==> exists i | 0 <= i < |sorted| :: ThrowsAt(sorted, i))
      && (r.Ok? ==> (r.value.PASS? <==> forall i | 0 <= i < |sorted| :: LinkedAt(sorted, i)))
      && (r.Ok? && r.value.FAIL? ==> forall id :: id in r.value.offending <==> LinkFault(sorted, id))
  {
    var sorted := SortBySequence(segments);
    var bySeq := SequenceMap(sorted);
    ghost var links := Links(sorted);
    LinksMean(links, sorted);
    var offending :- CollectUnlinked(sorted, bySeq, links);
    r := Ok(OutcomeOf(offending));
  }

  lemma {:induction false} NothingBelow(sorted: seq<VerifierSegment>, n: int)
    requires forall i | 0 <= i < |sorted| :: Sequence(sorted[i]) > n
    ensures Find(sorted, n).None?
  {
    if sorted != [] {
      NothingBelow(sorted[..|sorted| - 1], n);
    }
  }

  /** Check 4 passes only on sets that start at the genesis segment. */
  lemma OnlyGenesisCanStart(segments: seq<VerifierSegment>)
    requires segments != [] && forall i | 0 <= i < |SortBySequence(segments)| :: LinkedAt(SortBySequence(segments), i)
    ensures Sequence(SortBySequence(segments)[0]) == 0
  {
    var sorted := SortBySequence(segments);
    BySequenceIsConsistent();
    SortSorts(BySequence, segments);
    forall i | 0 <= i < |sorted| ensures Sequence(sorted[i]) > Sequence(sorted[0]) - 1 {
      assert i > 0 ==> BySequence(sorted[0], sorted[i]) <= 0;
    }
    NothingBelow(sorted, Sequence(sorted[0]) - 1);
    assert LinkedAt(sorted, 0);
  }

  /** So a complete scope that starts anywhere else never passes. */
  lemma PartialScopeNeverPasses(segments: seq<VerifierSegment>, first: int, last: int)
    requires Contiguous(segments, first, last) && first != 0
    ensures exists i :: 0 <= i < |segments| && !LinkedAt(SortBySequence(segments), i)
  {
    SortedIsNumbered(segments, first, last);
    var sorted := SortBySequence(segments);
    assert Sequence(sorted[0]) == first;
    if forall i | 0 <= i < |sorted| :: LinkedAt(sorted, i) {
      OnlyGenesisCanStart(segments);
    }
  }

  // ---------- check 6: no missing event ----------

  /** The summary of the segment claims that nothing is missing. */
  predicate SummaryClear(s: VerifierSegment) {
    !s.manifest.core.completeness.gapDetected && s.manifest.core.completeness.expectedContinuous
  }

  predicate ObjectClear(c: Cce) {
    GapDetected(c) == Some(false)
  }

  /** The offset range is that of the first and last object. */
  predicate OffsetsBound(s: VerifierSegment) {
    && s.objects != []
    && ConsumedOffsetKey(s.objects[0]) == Some(s.manifest.core.offsets.firstOffsetKey)
    && ConsumedOffsetKey(s.objects[|s.objects| - 1]) == Some(s.manifest.core.offsets.lastOffsetKey)
  }

  /** One segment's completeness claims hold up and its offset range is that of its objects. */
  ghost predicate Corroborated(s: VerifierSegment) {
    SummaryClear(s) && OffsetsBound(s) && forall i | 0 <= i < |s.objects| :: ObjectClear(s.objects[i])
  }

  /** What check 6 reports of one segment: its own id, or those of its objects that do not deny a gap. */
  ghost predicate EventFault(s: VerifierSegment, id: string) {
    || (id == Id(s) && !(SummaryClear(s) && OffsetsBound(s)))
    || exists i :: 0 <= i < |s.objects| && !ObjectClear(s.objects[i]) && id == OrEmpty(EnvelopeId(s.objects[i]))
  }

  predicate ReusesOffset(sorted: seq<VerifierSegment>, i: nat)
    requires 1 <= i < |sorted|
  {
    sorted[i].manifest.core.offsets.firstOffsetKey == sorted[i - 1].manifest.core.offsets.lastOffsetKey
  }

  /** The objects that do not deny a gap. */
  method FindGaps(objects: seq<Cce>) returns (offending: seq<string>)
    ensures offending == [] <==> forall i | 0 <= i < |objects| :: ObjectClear(objects[i])
    ensures forall id :: id in offending <==>
      exists i :: 0 <= i < |objects| && !ObjectClear(objects[i]) && id == OrEmpty(EnvelopeId(objects[i]))
  {
    offending := [];
    var i := 0;
    while i < |objects|
      invariant 0 <= i <= |objects|
      invariant offending == [] <==> forall j | 0 <= j < i :: ObjectClear(objects[j])
      invariant forall id :: id in offending <==>
        exists j :: 0 <= j < i && !ObjectClear(objects[j]) && id == OrEmpty(EnvelopeId(objects[j]))
    {
      if GapDetected(objects[i]) != Some(false) {
        offending := offending + [OrEmpty(EnvelopeId(objects[i]))];
      }
      i := i + 1;
    }
  }

  method CorroborateSegment(s: VerifierSegment) returns (offending: seq<string>)
    ensures offending == [] <==> Corroborated(s)
    ensures forall id :: id in offending <==> EventFault(s, id)
  {
    var m := s.manifest.core;
    var own: seq<string> := [];
    if m.completeness.gapDetected { own := own + [Id(s)]; }
    if !m.completeness.expectedContinuous { own := own + [Id(s)]; }
    var gaps := FindGaps(s.objects);
    if |s.objects| == 0 {
      own := own + [Id(s)];
    } else {
      if Some(m.offsets.firstOffsetKey) != ConsumedOffsetKey(s.objects[0]) { own := own + [Id(s)]; }
      if Some(m.offsets.lastOffsetKey) != ConsumedOffsetKey(s.objects[|s.objects| - 1]) { own := own + [Id(s)]; }
    }
    offending := own + gaps;
  }

  method CorroborateAll(sorted: seq<VerifierSegment>) returns (offending: seq<string>)
    ensures offending == [] <==> forall i | 0 <= i < |sorted| :: Corroborated(sorted[i])
    ensures forall id :: id in offending <==> exists i :: 0 <= i < |sorted| && EventFault(sorted[i], id)
  {
    offending := [];
    var i := 0;
    while i < |sorted|
      invariant 0 <= i <= |sorted|
      invariant offending == [] <==> forall j | 0 <= j < i :: Corroborated(sorted[j])
      invariant forall id :: id in offending <==> exists j :: 0 <= j < i && EventFault(sorted[j], id)
    {
      var here := CorroborateSegment(sorted[i]);
      offending := offending + here;
      i := i + 1;
    }
  }

  ghost predicate OverlapFault(sorted: seq<VerifierSegment>, id: string) {
    exists i {:trigger ReusesOffset(sorted, i)} :: 1 <= i < |sorted| && ReusesOffset(sorted, i) && id == Id(sorted[i])
  }

  method FindOverlaps(sorted: seq<VerifierSegment>) returns (offending: seq<string>)
    ensures offending == [] <==> forall i | 1 <= i < |sorted| :: !ReusesOffset(sorted, i)
    ensures forall id :: id in offending <==> OverlapFault(sorted, id)
  {
    offending := [];
    var i := 1;
    while i < |sorted|
      invariant 1 <= i && (|sorted| >= 1 ==> i <= |sorted|)
      invariant offending == [] <==> forall j | 1 <= j < i && j < |sorted| :: !ReusesOffset(sorted, j)
      invariant forall id :: id in offending <==> exists j {:trigger ReusesOffset(sorted, j)} ::
        1 <= j < i && j < |sorted| && ReusesOffset(sorted, j) && id == Id(sorted[j])
    {
      if ReusesOffset(sorted, i) { offending := offending + [Id(sorted[i])]; }
      i := i + 1;
    }
  }

  ghost predicate NoMissingEvent(sorted: seq<VerifierSegment>) {
    && (forall i | 0 <= i < |sorted| :: Corroborated(sorted[i]))
    && (forall i | 1 <= i < |sorted| :: !ReusesOffset(sorted, i))
  }

  method RecomputeNoMissingEvent(segments: seq<VerifierSegment>) returns (r: CheckOutcome)
    ensures r.PASS? <==> NoMissingEvent(SortBySequence(segments))
    ensures r.FAIL? ==> forall id :: id in r.offending <==>
      (exists s :: s in segments && EventFault(s, id)) || OverlapFault(SortBySequence(segments), id)
  {
    var sorted := SortBySequence(segments);
    var broken := CorroborateAll(sorted);
    var overlaps := FindOverlaps(sorted);
    forall s ensures s in segments <==> s in sorted {
      InMultiset(segments, sorted, s);
    }
    r := OutcomeOf(broken + overlaps);
  }
}

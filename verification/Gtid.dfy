/**
 The GTID set of services/cdc-collector/src/completeness/gtid.ts: a map from key to interval
 list, its codecs and its printed form.  Sequence numbers are unbounded.
 */
module Gtid {
  import opened Sorting
  import opened Texts
  import opened Intervals

  // ---------- the set as a value ----------

  /** A JavaScript `Map`: its keys in insertion order, and the interval list of each. */
  datatype GtidMap = GtidMap(keys: seq<string>, ivs: map<string, seq<Interval>>) {
    ghost predicate Valid() {
      && (forall k :: k in keys <==> k in ivs)
      && (forall i, j | 0 <= i < j < |keys| :: keys[i] != keys[j])
      && (forall k | k in ivs :: ivs[k] != [])
    }

    ghost predicate IsCanonical() {
      Valid() && forall k | k in ivs :: Canonical(ivs[k])
    }

    /** No two intervals of a key touch; so it is with every set built by additions. */
    ghost predicate IsSeparate() {
      Valid() && forall k | k in ivs :: Separate(ivs[k])
    }

    /** Merging again would change nothing; so it is with every set built by additions. */
    ghost predicate IsMerged() {
      Valid() && forall k | k in ivs :: Merge(ivs[k]) == ivs[k]
    }

    function For(key: string): seq<Interval> {
      if key in ivs then ivs[key] else []
    }

    ghost predicate Contains(key: string, n: int) {
      Covers(For(key), n)
    }
  }

  const EMPTY: GtidMap := GtidMap([], map[])

  datatype Tagged = Tagged(key: string, iv: Interval)

  function Added(m: GtidMap, t: Tagged): GtidMap {
    GtidMap(if t.key in m.ivs then m.keys else m.keys + [t.key], m.ivs[t.key := Merge(m.For(t.key) + [t.iv])])
  }

  function AddedAll(m: GtidMap, ts: seq<Tagged>): GtidMap {
    if ts == [] then m else Added(AddedAll(m, ts[..|ts| - 1]), ts[|ts| - 1])
  }

  ghost predicate AllWellFormed(ts: seq<Tagged>) {
    forall i | 0 <= i < |ts| :: ts[i].iv.start <= ts[i].iv.end
  }

  /** The plain set: number n of a key was added by some interval. */
  ghost predicate WasAdded(ts: seq<Tagged>, key: string, n: int) {
    exists i | 0 <= i < |ts| :: ts[i].key == key && ts[i].iv.Has(n)
  }

  lemma MergeIsNotEmpty(ivs: seq<Interval>)
    requires ivs != []
    ensures Merge(ivs) != []
  {
    assert |Sort(CompareIntervals, ivs)| == |ivs|;
  }

  lemma AddedKeepsValid(m: GtidMap, t: Tagged)
    requires m.Valid()
    ensures Added(m, t).Valid()
    ensures t.iv.start <= t.iv.end && m.IsCanonical() ==> Added(m, t).IsCanonical()
  {
    MergeIsNotEmpty(m.For(t.key) + [t.iv]);
    if t.iv.start <= t.iv.end && m.IsCanonical() {
      MergeIsCanonical(m.For(t.key) + [t.iv]);
    }
  }

  lemma AddedKeepsSeparate(m: GtidMap, t: Tagged)
    requires m.IsSeparate()
    ensures Added(m, t).IsSeparate()
  {
    AddedKeepsValid(m, t);
    MergeIsSeparate(m.For(t.key) + [t.iv]);
  }

  lemma {:induction false} AddedAllKeepsValid(m: GtidMap, ts: seq<Tagged>)
    requires m.Valid()
    ensures AddedAll(m, ts).Valid()
    ensures m.IsCanonical() && AllWellFormed(ts) ==> AddedAll(m, ts).IsCanonical()
  {
    if ts != [] {
      AddedAllKeepsValid(m, ts[..|ts| - 1]);
      AddedKeepsValid(AddedAll(m, ts[..|ts| - 1]), ts[|ts| - 1]);
    }
  }

  lemma AddedContains(m: GtidMap, t: Tagged, key: string, n: int)
    ensures Added(m, t).Contains(key, n) <==> m.Contains(key, n) || (key == t.key && t.iv.Has(n))
  {
    if key == t.key {
      MergeCovers(m.For(key) + [t.iv]);
      CoversAppend(m.For(key), t.iv, n);
      assert Added(m, t).For(key) == Merge(m.For(key) + [t.iv]);
    } else {
      assert Added(m, t).For(key) == m.For(key);
    }
  }

  lemma WasAddedLast(ts: seq<Tagged>, t: Tagged, key: string, n: int)
    ensures WasAdded(ts + [t], key, n) <==> WasAdded(ts, key, n) || (key == t.key && t.iv.Has(n))
  {
    var all := ts + [t];
    if WasAdded(ts, key, n) {
      var i :| 0 <= i < |ts| && ts[i].key == key && ts[i].iv.Has(n);
      assert all[i].iv.Has(n);
    }
    if key == t.key && t.iv.Has(n) {
      assert all[|ts|].iv.Has(n);
    }
  }

  ghost predicate HasKey(ts: seq<Tagged>, key: string) {
    exists i | 0 <= i < |ts| :: ts[i].key == key
  }

  /** The map denotes exactly what was added. */
  ghost predicate Denotes(m: GtidMap, ts: seq<Tagged>) {
    && m.Valid()
    && (forall key, n :: m.Contains(key, n) <==> WasAdded(ts, key, n))
    && (forall key :: key in m.ivs <==> HasKey(ts, key))
  }

  lemma AddedDenotes(m: GtidMap, ts: seq<Tagged>, t: Tagged)
    requires Denotes(m, ts)
    ensures Denotes(Added(m, t), ts + [t])
  {
    AddedKeepsValid(m, t);
    forall key, n ensures Added(m, t).Contains(key, n) <==> WasAdded(ts + [t], key, n) {
      AddedContains(m, t, key, n);
      WasAddedLast(ts, t, key, n);
    }
    forall key ensures key in Added(m, t).ivs <==> HasKey(ts + [t], key) {
      assert (ts + [t])[|ts|].key == t.key;
      assert forall i | 0 <= i < |ts| :: ts[i].key == (ts + [t])[i].key;
    }
  }

  lemma NothingDenotesNothing()
    ensures Denotes(EMPTY, [])
  {
    assert forall key, n :: !EMPTY.Contains(key, n) && !WasAdded([], key, n);
  }

  lemma {:induction false} AdditionsDenote(ts: seq<Tagged>)
    ensures Denotes(AddedAll(EMPTY, ts), ts)
  {
    if ts == [] {
      NothingDenotesNothing();
      assert AddedAll(EMPTY, ts) == EMPTY && ts == [];
    } else {
      var most, t := ts[..|ts| - 1], ts[|ts| - 1];
      AdditionsDenote(most);
      AddedDenotes(AddedAll(EMPTY, most), most, t);
      assert ts == most + [t] && AddedAll(EMPTY, ts) == Added(AddedAll(EMPTY, most), t);
    }
  }

  /**
   Refinement: after any run of additions, with swapped ends or not, the map denotes the union
   added; and it is canonical when no ends are swapped.
   */
  lemma AdditionsDenoteTheirUnion(ts: seq<Tagged>)
    ensures Denotes(AddedAll(EMPTY, ts), ts)
    ensures AllWellFormed(ts) ==> AddedAll(EMPTY, ts).IsCanonical()
  {
    AdditionsDenote(ts);
    AddedAllKeepsValid(EMPTY, ts);
  }

  // ---------- the held lists ----------

  /** The intervals added for a key, in order. */
  function Of(ts: seq<Tagged>, key: string): seq<Interval> {
    if ts == [] then []
    else Of(ts[..|ts| - 1], key) + if ts[|ts| - 1].key == key then [ts[|ts| - 1].iv] else []
  }

  /** However the additions interleave, the list held for a key is the merge of all that was added for it. */
  lemma {:induction false} HeldIsTheMerge(ts: seq<Tagged>, key: string)
    ensures AddedAll(EMPTY, ts).For(key) == Merge(Of(ts, key))
    ensures key in AddedAll(EMPTY, ts).ivs <==> Of(ts, key) != []
  {
    if ts != [] {
      var most, t := ts[..|ts| - 1], ts[|ts| - 1];
      HeldIsTheMerge(most, key);
      if t.key == key {
        MergeOnceMore(Of(most, key), t.iv);
      } else {
        assert Of(ts, key) == Of(most, key);
      }
    }
  }

  /** Every canonical set is one that merging again would not change. */
  lemma CanonicalMapsAreMerged(m: GtidMap)
    requires m.IsCanonical()
    ensures m.IsMerged()
  {
    forall k | k in m.ivs ensures Merge(m.ivs[k]) == m.ivs[k] {
      CanonicalIsMerged(m.ivs[k]);
    }
  }

  /** Whatever was added, no two intervals held for a key touch. */
  lemma {:induction false} AdditionsAreSeparate(ts: seq<Tagged>)
    ensures AddedAll(EMPTY, ts).IsSeparate()
  {
    if ts != [] {
      AdditionsAreSeparate(ts[..|ts| - 1]);
      AddedKeepsSeparate(AddedAll(EMPTY, ts[..|ts| - 1]), ts[|ts| - 1]);
    }
  }

  lemma AdditionsAreMerged(ts: seq<Tagged>)
    ensures AddedAll(EMPTY, ts).IsMerged()
  {
    var m := AddedAll(EMPTY, ts);
    AddedAllKeepsValid(EMPTY, ts);
    forall k | k in m.ivs ensures Merge(m.ivs[k]) == m.ivs[k] {
      HeldIsTheMerge(ts, k);
      MergeTwice(Of(ts, k));
    }
  }

  lemma {:induction false} OfCounts(ts: seq<Tagged>, key: string, iv: Interval)
    ensures multiset(Of(ts, key))[iv] == multiset(ts)[Tagged(key, iv)]
  {
    if ts != [] {
      OfCounts(ts[..|ts| - 1], key, iv);
      assert ts == ts[..|ts| - 1] + [ts[|ts| - 1]];
    }
  }

  /** Maps with the same list under every key hold the same lists. */
  lemma SameListsSameMap(a: GtidMap, b: GtidMap)
    requires a.Valid() && b.Valid() && forall key :: a.For(key) == b.For(key)
    ensures a.ivs == b.ivs
  {
    forall key ensures key in a.ivs <==> key in b.ivs {
      assert a.For(key) == b.For(key);
    }
    forall key | key in a.ivs ensures a.ivs[key] == b.ivs[key] {
      assert a.For(key) == b.For(key);
    }
  }

  // ---------- printing ----------

  function RangeText(iv: Interval): string {
    if iv.start == iv.end then PrintNat(iv.start) else PrintNat(iv.start) + "-" + PrintNat(iv.end)
  }

  function RangeTexts(ivs: seq<Interval>): seq<string> {
    seq(|ivs|, i requires 0 <= i < |ivs| => RangeText(ivs[i]))
  }

  function EntryText(key: string, ivs: seq<Interval>): string {
    key + ":" + JoinWith(RangeTexts(ivs), ':')
  }

  function EntryTexts(m: GtidMap, keys: seq<string>): seq<string> {
    seq(|keys|, i requires 0 <= i < |keys| => EntryText(keys[i], m.For(keys[i])))
  }

  function ToText(m: GtidMap): string {
    JoinWith(EntryTexts(m, Sort(CompareStrings, m.keys)), ',')
  }

  ghost predicate NoDuplicates(s: seq<string>) {
    forall i, j | 0 <= i < j < |s| :: s[i] != s[j]
  }

  lemma {:induction false} CountInDistinct(s: seq<string>, x: string)
    requires NoDuplicates(s)
    ensures multiset(s)[x] == if x in s then 1 else 0
  {
    if s != [] {
      CountInDistinct(s[1..], x);
      assert s == [s[0]] + s[1..];
      assert multiset(s) == multiset{s[0]} + multiset(s[1..]);
      assert s[0] !in s[1..];
    }
  }

  lemma {:induction false} DistinctArePermuted(a: seq<string>, b: seq<string>)
    requires NoDuplicates(a) && NoDuplicates(b) && (forall x :: x in a <==> x in b)
    ensures multiset(a) == multiset(b)
  {
    forall x ensures multiset(a)[x] == multiset(b)[x] {
      CountInDistinct(a, x);
      CountInDistinct(b, x);
    }
  }

  /** The printed form depends on the lists only, not on the order keys came in. */
  lemma {:induction false} TextForgetsKeyOrder(a: GtidMap, b: GtidMap)
    requires a.Valid() && b.Valid() && a.ivs == b.ivs
    ensures ToText(a) == ToText(b)
  {
    assert forall k :: k in a.keys <==> k in b.keys;
    SortedKeysAgree(a.keys, b.keys);
    EntryTextsAgree(a, b, Sort(CompareStrings, a.keys));
  }

  lemma EntryTextsAgree(a: GtidMap, b: GtidMap, keys: seq<string>)
    requires a.ivs == b.ivs
    ensures EntryTexts(a, keys) == EntryTexts(b, keys)
  {
    forall i | 0 <= i < |keys| ensures EntryTexts(a, keys)[i] == EntryTexts(b, keys)[i] {
      assert a.For(keys[i]) == b.For(keys[i]);
    }
  }

  lemma SortedKeysAgree(a: seq<string>, b: seq<string>)
    requires NoDuplicates(a) && NoDuplicates(b) && (forall x :: x in a <==> x in b)
    ensures Sort(CompareStrings, a) == Sort(CompareStrings, b)
  {
    DistinctArePermuted(a, b);
    CompareStringsSorts(a);
    SortForgetsOrder(CompareStrings, a, b);
  }

  lemma {:induction false} HeldForgetsOrder(a: seq<Tagged>, b: seq<Tagged>, key: string)
    requires multiset(a) == multiset(b)
    ensures AddedAll(EMPTY, a).For(key) == AddedAll(EMPTY, b).For(key)
  {
    HeldIsTheMerge(a, key);
    HeldIsTheMerge(b, key);
    forall iv ensures multiset(Of(a, key))[iv] == multiset(Of(b, key))[iv] {
      OfCounts(a, key, iv);
      OfCounts(b, key, iv);
    }
    MergeForgetsOrder(Of(a, key), Of(b, key));
  }

  /** Reordering the additions changes neither a list nor the printed form, swapped ends or not. */
  lemma {:induction false} AdditionOrderIsIrrelevant(a: seq<Tagged>, b: seq<Tagged>)
    requires multiset(a) == multiset(b)
    ensures AddedAll(EMPTY, a).ivs == AddedAll(EMPTY, b).ivs
    ensures ToText(AddedAll(EMPTY, a)) == ToText(AddedAll(EMPTY, b))
  {
    AddedAllKeepsValid(EMPTY, a);
    AddedAllKeepsValid(EMPTY, b);
    forall key ensures AddedAll(EMPTY, a).For(key) == AddedAll(EMPTY, b).For(key) {
      HeldForgetsOrder(a, b, key);
    }
    SameListsSameMap(AddedAll(EMPTY, a), AddedAll(EMPTY, b));
    TextForgetsKeyOrder(AddedAll(EMPTY, a), AddedAll(EMPTY, b));
  }
}

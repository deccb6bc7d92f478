/**
 `Array.prototype.sort` with a comparator, as a stable insertion sort.  When the comparator
 tells all elements apart the result depends on the elements only, so the algorithm behind
 the source's library sort is irrelevant.
 */
module Sorting {
  import opened Outcomes

  type Comparator<!T> = (T, T) -> int

  /** A consistent comparator: total, and "not after" is transitive. */
  ghost predicate Consistent<T(!new)>(cmp: Comparator<T>) {
    && (forall a, b :: cmp(a, b) <= 0 || cmp(b, a) <= 0)
    && (forall a, b, c :: cmp(a, b) <= 0 && cmp(b, c) <= 0 ==> cmp(a, c) <= 0)
  }

  ghost predicate Sorted<T>(cmp: Comparator<T>, s: seq<T>) {
    forall i, j | 0 <= i < j < |s| :: cmp(s[i], s[j]) <= 0
  }

  ghost predicate TellsApart<T>(cmp: Comparator<T>, s: seq<T>) {
    forall i, j | 0 <= i < |s| && 0 <= j < |s| :: cmp(s[i], s[j]) <= 0 && cmp(s[j], s[i]) <= 0 ==> s[i] == s[j]
  }

  function Insert<T>(cmp: Comparator<T>, x: T, s: seq<T>): (r: seq<T>)
    ensures multiset(r) == multiset{x} + multiset(s)
    ensures |r| == |s| + 1
  {
    if s == [] then [x]
    else if cmp(x, s[0]) <= 0 then [x] + s
    else
      assert s == [s[0]] + s[1..];
      [s[0]] + Insert(cmp, x, s[1..])
  }

  function Sort<T>(cmp: Comparator<T>, s: seq<T>): (r: seq<T>)
    ensures multiset(r) == multiset(s)
    ensures |r| == |s|
  {
    if s == [] then []
    else
      assert s == [s[0]] + s[1..];
      Insert(cmp, s[0], Sort(cmp, s[1..]))
  }

  lemma InMultiset<T>(a: seq<T>, b: seq<T>, x: T)
    requires multiset(a) == multiset(b)
    ensures x in a <==> x in b
  {
    assert x in multiset(a) <==> x in multiset(b);
  }

  lemma TwoPlaces<T>(s: seq<T>, i: nat, j: nat)
    requires i < j < |s|
    ensures s[i] == s[j] ==> multiset(s)[s[i]] >= 2
  {
    assert s == (s[..i] + [s[i]]) + s[i + 1..];
    assert s[i + 1..][j - i - 1] == s[j];
  }

  lemma {:induction false} FindTwo<T>(s: seq<T>, x: T) returns (i: nat, j: nat)
    requires multiset(s)[x] >= 2
    ensures i < j < |s| && s[i] == x && s[j] == x
  {
    assert s == [s[0]] + s[1..];
    if s[0] == x {
      assert x in multiset(s[1..]);
      j :| 0 <= j < |s[1..]| && s[1..][j] == x;
      i, j := 0, j + 1;
    } else {
      i, j := FindTwo(s[1..], x);
      i, j := i + 1, j + 1;
    }
  }

  lemma {:induction false} InsertKeepsSorted<T(!new)>(cmp: Comparator<T>, x: T, s: seq<T>)
    requires Consistent(cmp) && Sorted(cmp, s)
    ensures Sorted(cmp, Insert(cmp, x, s))
  {
    if s != [] && cmp(x, s[0]) > 0 {
      InsertKeepsSorted(cmp, x, s[1..]);
      var rest := Insert(cmp, x, s[1..]);
      forall j | 0 <= j < |rest| ensures cmp(s[0], rest[j]) <= 0 {
        InMultiset(rest, [x] + s[1..], rest[j]);
      }
    }
  }

  lemma {:induction false} SortSorts<T(!new)>(cmp: Comparator<T>, s: seq<T>)
    requires Consistent(cmp)
    ensures Sorted(cmp, Sort(cmp, s))
  {
    if s != [] {
      SortSorts(cmp, s[1..]);
      InsertKeepsSorted(cmp, s[0], Sort(cmp, s[1..]));
    }
  }

  lemma {:induction false} SortedHeadsAgree<T(!new)>(cmp: Comparator<T>, a: seq<T>, b: seq<T>)
    requires Consistent(cmp) && Sorted(cmp, a) && Sorted(cmp, b) && TellsApart(cmp, a)
    requires a != [] && b != [] && multiset(a) == multiset(b)
    ensures a[0] == b[0]
  {
    InMultiset(a, b, a[0]);
    InMultiset(a, b, b[0]);
    var i :| 0 <= i < |b| && b[i] == a[0];
    var j :| 0 <= j < |a| && a[j] == b[0];
    assert cmp(a[0], a[0]) <= 0 && cmp(b[0], b[0]) <= 0;
    assert cmp(a[0], a[j]) <= 0 && cmp(b[0], b[i]) <= 0;
  }

  lemma {:induction false} SortedIsUnique<T(!new)>(cmp: Comparator<T>, a: seq<T>, b: seq<T>)
    requires Consistent(cmp) && Sorted(cmp, a) && Sorted(cmp, b) && TellsApart(cmp, a)
    requires multiset(a) == multiset(b)
    ensures a == b
  {
    assert |a| == |multiset(a)| == |multiset(b)| == |b|;
    if a != [] {
      SortedHeadsAgree(cmp, a, b);
      SortedTail(cmp, a);
      SortedTail(cmp, b);
      TellsApartTail(cmp, a);
      SortedIsUnique(cmp, a[1..], b[1..]);
    }
  }

  lemma SortedTail<T>(cmp: Comparator<T>, a: seq<T>)
    requires a != [] && Sorted(cmp, a)
    ensures Sorted(cmp, a[1..])
    ensures a == [a[0]] + a[1..] && multiset(a[1..]) == multiset(a) - multiset{a[0]}
  {
    assert a == [a[0]] + a[1..];
  }

  lemma TellsApartTail<T>(cmp: Comparator<T>, a: seq<T>)
    requires a != [] && TellsApart(cmp, a)
    ensures TellsApart(cmp, a[1..])
  {
  }

  lemma {:induction false} TellsApartPermuted<T(!new)>(cmp: Comparator<T>, a: seq<T>, b: seq<T>)
    requires TellsApart(cmp, a) && multiset(a) == multiset(b)
    ensures TellsApart(cmp, b)
  {
    forall i, j | 0 <= i < |b| && 0 <= j < |b| && cmp(b[i], b[j]) <= 0 && cmp(b[j], b[i]) <= 0 ensures b[i] == b[j] {
      InMultiset(a, b, b[i]);
      InMultiset(a, b, b[j]);
    }
  }

  /** Sorting forgets the order its input came in. */
  lemma {:induction false} SortForgetsOrder<T(!new)>(cmp: Comparator<T>, a: seq<T>, b: seq<T>)
    requires Consistent(cmp) && multiset(a) == multiset(b) && TellsApart(cmp, a)
    ensures Sort(cmp, a) == Sort(cmp, b)
  {
    SortSorts(cmp, a);
    SortSorts(cmp, b);
    TellsApartPermuted(cmp, a, Sort(cmp, a));
    SortedIsUnique(cmp, Sort(cmp, a), Sort(cmp, b));
  }

  // ---------- comparators that may throw ----------

  type Throwing<!T> = (T, T) -> Result<int>

  function TryInsert<T>(cmp: Throwing<T>, x: T, s: seq<T>): Result<seq<T>> {
    if s == [] then Ok([x])
    else
      var c :- cmp(x, s[0]);
      if c <= 0 then Ok([x] + s)
      else
        var rest :- TryInsert(cmp, x, s[1..]);
        Ok([s[0]] + rest)
  }

  /** The same sort, ended by the first comparison that throws. */
  function TrySort<T>(cmp: Throwing<T>, s: seq<T>): Result<seq<T>> {
    if s == [] then Ok([])
    else
      var rest :- TrySort(cmp, s[1..]);
      TryInsert(cmp, s[0], rest)
  }

  lemma TrySortTwo<T>(cmp: Throwing<T>, a: T, b: T)
    requires cmp(a, b).Ok? && cmp(a, b).value > 0
    ensures TrySort(cmp, [a, b]) == Ok([b, a])
  {
    assert [a, b][1..] == [b] && [b][1..] == [] && [b] + [a] == [b, a];
    assert TrySort(cmp, []) == Ok([]);
    assert TrySort(cmp, [b]) == Ok([b]);
    assert TryInsert(cmp, a, []) == Ok([a]);
  }

  ghost predicate NoPair<T>(bad: (T, T) -> bool, s: seq<T>) {
    forall i, j | 0 <= i < j < |s| :: !bad(s[i], s[j])
  }

  ghost predicate NoneWith<T>(bad: (T, T) -> bool, x: T, s: seq<T>) {
    forall i | 0 <= i < |s| :: !bad(x, s[i])
  }

  lemma NoPairCons<T>(bad: (T, T) -> bool, s: seq<T>)
    requires s != []
    ensures NoPair(bad, s) <==> NoneWith(bad, s[0], s[1..]) && NoPair(bad, s[1..])
  {
    var x, rest := s[0], s[1..];
    if NoPair(bad, s) {
      assert forall i | 0 <= i < |rest| :: rest[i] == s[i + 1];
    }
    if NoneWith(bad, x, rest) && NoPair(bad, rest) {
      forall i, j | 0 <= i < j < |s| ensures !bad(s[i], s[j]) {
        assert s[j] == rest[j - 1] && (i > 0 ==> s[i] == rest[i - 1]);
      }
    }
  }

  lemma NoneWithPermuted<T>(bad: (T, T) -> bool, x: T, a: seq<T>, b: seq<T>)
    requires multiset(a) == multiset(b) && NoneWith(bad, x, a)
    ensures NoneWith(bad, x, b)
  {
    forall i | 0 <= i < |b| ensures !bad(x, b[i]) {
      InMultiset(a, b, b[i]);
      assert b[i] in a;
    }
  }

  lemma {:induction false} NoPairPermuted<T(!new)>(bad: (T, T) -> bool, a: seq<T>, b: seq<T>)
    requires multiset(a) == multiset(b) && NoPair(bad, a) && forall x, y :: bad(x, y) <==> bad(y, x)
    ensures NoPair(bad, b)
  {
    forall i, j | 0 <= i < j < |b| ensures !bad(b[i], b[j]) {
      if b[i] == b[j] {
        TwoPlaces(b, i, j);
        var p, q := FindTwo(a, b[i]);
      } else {
        InMultiset(a, b, b[i]);
        InMultiset(a, b, b[j]);
        var p :| 0 <= p < |a| && a[p] == b[i];
        var q :| 0 <= q < |a| && a[q] == b[j];
        assert bad(b[i], b[j]) <==> bad(b[j], b[i]);
      }
    }
  }

  /**
   The comparator throws exactly on the bad pairs and otherwise follows the rank; and a bad pair
   with something ranked between is near: one of the two is bad with what lies between.
   */
  ghost predicate Follows<T(!new)>(cmp: Throwing<T>, rank: Comparator<T>, bad: (T, T) -> bool) {
    && Consistent(rank)
    && (forall x, y :: bad(x, y) <==> bad(y, x))
    && (forall x, y :: cmp(x, y).Err? <==> bad(x, y))
    && (forall x, y :: cmp(x, y).Ok? ==> (cmp(x, y).value <= 0 <==> rank(x, y) <= 0))
    && (forall x, y, z :: rank(x, y) <= 0 && rank(y, z) <= 0 && bad(x, z) ==> bad(x, y) || bad(y, z))
  }

  lemma {:induction false} TryInsertIs<T(!new)>(cmp: Throwing<T>, rank: Comparator<T>, bad: (T, T) -> bool, x: T, s: seq<T>)
    requires Follows(cmp, rank, bad) && Sorted(rank, s) && NoPair(bad, s)
    ensures TryInsert(cmp, x, s).Ok? <==> NoneWith(bad, x, s)
    ensures TryInsert(cmp, x, s).Ok? ==> TryInsert(cmp, x, s).value == Insert(rank, x, s)
  {
    if s != [] {
      NoPairCons(bad, s);
      if !bad(x, s[0]) && rank(x, s[0]) <= 0 {
        forall i | 0 <= i < |s| ensures !bad(x, s[i]) {
          assert i > 0 ==> rank(s[0], s[i]) <= 0 && !bad(s[0], s[i]);
        }
      } else if !bad(x, s[0]) {
        TryInsertIs(cmp, rank, bad, x, s[1..]);
        assert forall i | 1 <= i < |s| :: s[i] == s[1..][i - 1];
        assert forall i | 0 <= i < |s[1..]| :: s[1..][i] == s[i + 1];
      }
    }
  }

  /** Sorting throws exactly when the list holds a bad pair, wherever it is; otherwise it sorts by the rank. */
  lemma {:induction false} TrySortIs<T(!new)>(cmp: Throwing<T>, rank: Comparator<T>, bad: (T, T) -> bool, s: seq<T>)
    requires Follows(cmp, rank, bad)
    ensures TrySort(cmp, s).Ok? <==> NoPair(bad, s)
    ensures TrySort(cmp, s).Ok? ==> TrySort(cmp, s).value == Sort(rank, s)
  {
    if s != [] {
      var rest, sorted := s[1..], Sort(rank, s[1..]);
      NoPairCons(bad, s);
      TrySortIs(cmp, rank, bad, rest);
      if NoPair(bad, rest) {
        SortSorts(rank, rest);
        NoPairPermuted(bad, rest, sorted);
        TryInsertIs(cmp, rank, bad, s[0], sorted);
        if NoneWith(bad, s[0], rest) {
          NoneWithPermuted(bad, s[0], rest, sorted);
        }
        if NoneWith(bad, s[0], sorted) {
          NoneWithPermuted(bad, s[0], sorted, rest);
        }
      }
    }
  }

  lemma {:induction false} SortOfSorted<T(!new)>(cmp: Comparator<T>, a: seq<T>)
    requires Consistent(cmp) && Sorted(cmp, a) && TellsApart(cmp, a)
    ensures Sort(cmp, a) == a
  {
    SortSorts(cmp, a);
    SortedIsUnique(cmp, a, Sort(cmp, a));
  }
}

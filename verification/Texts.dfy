// Comparing, printing and splitting strings as JavaScript does.
module Texts {
  import opened Sorting

  // ---------- lexicographic order ----------

  /** Negative, zero or positive; the first difference decides, then the length. */
  function CompareSeq(a: seq<int>, b: seq<int>): int {
    if a == [] || b == [] then |a| - |b|
    else if a[0] != b[0] then a[0] - b[0]
    else CompareSeq(a[1..], b[1..])
  }

  lemma {:induction false} CompareSeqIsAntisymmetric(a: seq<int>, b: seq<int>)
    ensures CompareSeq(a, b) == -CompareSeq(b, a)
    ensures CompareSeq(a, b) == 0 <==> a == b
  {
    if a != [] && b != [] {
      assert a == [a[0]] + a[1..] && b == [b[0]] + b[1..];
      CompareSeqIsAntisymmetric(a[1..], b[1..]);
    }
  }

  lemma {:induction false} CompareSeqIsTransitive(a: seq<int>, b: seq<int>, c: seq<int>)
    requires CompareSeq(a, b) <= 0 && CompareSeq(b, c) <= 0
    ensures CompareSeq(a, c) <= 0
    ensures CompareSeq(a, b) < 0 || CompareSeq(b, c) < 0 ==> CompareSeq(a, c) < 0
  {
    if a != [] && b != [] && c != [] && a[0] == b[0] == c[0] {
      CompareSeqIsTransitive(a[1..], b[1..], c[1..]);
    }
  }

  function CodePoints(s: string): (r: seq<int>)
    ensures |r| == |s|
  {
    seq(|s|, i requires 0 <= i < |s| => s[i] as int)
  }

  /** `a` comes before `b`: at the first difference, or because it is shorter. */
  ghost predicate Precedes(a: seq<int>, b: seq<int>) {
    exists k {:trigger a[..k]} :: 0 <= k <= |a| && k <= |b| && a[..k] == b[..k]
      && (if k < |a| then k < |b| && a[k] < b[k] else k < |b|)
  }

  lemma {:induction false} PrecedesIsNegative(a: seq<int>, b: seq<int>)
    ensures CompareSeq(a, b) < 0 <==> Precedes(a, b)
    decreases |a|
  {
    if a == [] || b == [] || a[0] < b[0] {
      assert b != [] ==> a[..0] == b[..0];
      if b != [] {
        assert Precedes(a, b);
      }
    } else if a[0] > b[0] {
      DifferentStart(a, b);
    } else {
      PrecedesIsNegative(a[1..], b[1..]);
      PrecedesBehind(a, b);
    }
  }

  lemma SameStart(a: seq<int>, b: seq<int>, k: nat)
    requires k <= |a| && k <= |b| && a[..k] == b[..k]
    ensures k > 0 ==> a[0] == b[0]
  {
    if k > 0 {
      assert a[0] == a[..k][0] && b[0] == b[..k][0];
    }
  }

  lemma DifferentStart(a: seq<int>, b: seq<int>)
    requires a != [] && b != [] && a[0] > b[0]
    ensures !Precedes(a, b)
  {
    forall k: nat | k <= |a| && k <= |b| && a[..k] == b[..k] ensures k == 0 {
      SameStart(a, b, k);
    }
  }

  lemma PrecedesBehind(a: seq<int>, b: seq<int>)
    requires a != [] && b != [] && a[0] == b[0]
    ensures Precedes(a, b) <==> Precedes(a[1..], b[1..])
  {
    var p, q := a[1..], b[1..];
    if Precedes(a, b) {
      var k :| 0 <= k <= |a| && k <= |b| && a[..k] == b[..k] && (if k < |a| then k < |b| && a[k] < b[k] else k < |b|);
      assert k > 0;
      assert p[..k - 1] == a[..k][1..] && q[..k - 1] == b[..k][1..];
    }
    if Precedes(p, q) {
      var k :| 0 <= k <= |p| && k <= |q| && p[..k] == q[..k] && (if k < |p| then k < |q| && p[k] < q[k] else k < |q|);
      assert a[..k + 1] == [a[0]] + p[..k] && b[..k + 1] == [b[0]] + q[..k];
    }
  }

  /** UTF-16: a character of the basic plane is one unit, any other the two halves of its surrogate pair. */
  lemma UnitsOfOne(c: char)
    ensures c as int < 0x1_0000 ==> Units([c]) == [c as int]
    ensures c as int >= 0x1_0000 ==>
      var u := Units([c]);
      && |u| == 2 && 0xD800 <= u[0] < 0xDC00 && 0xDC00 <= u[1] < 0xE000
      && c as int == 0x1_0000 + 0x400 * (u[0] - 0xD800) + (u[1] - 0xDC00)
  {
    assert Units([]) == [];
  }

  lemma {:induction false} UnitsConcat(a: string, b: string)
    ensures Units(a + b) == Units(a) + Units(b)
  {
    if a == "" {
      assert a + b == b;
    } else {
      assert (a + b)[1..] == a[1..] + b;
      UnitsConcat(a[1..], b);
    }
  }

  /** JavaScript's `<` on strings is the order of their UTF-16 units. */
  lemma StringOrderIsByUnits(a: string, b: string)
    ensures CompareStrings(a, b) < 0 <==> Precedes(Units(a), Units(b))
    ensures CompareStrings(a, b) > 0 <==> Precedes(Units(b), Units(a))
  {
    PrecedesIsNegative(Units(a), Units(b));
    PrecedesIsNegative(Units(b), Units(a));
    CompareSeqIsAntisymmetric(Units(a), Units(b));
  }

  lemma CodePointsInjective(a: string, b: string)
    requires CodePoints(a) == CodePoints(b)
    ensures a == b
  {
    forall i | 0 <= i < |a| ensures a[i] == b[i] {
      assert CodePoints(a)[i] == CodePoints(b)[i];
    }
  }

  /** UTF-16: one unit for a character of the basic plane, two for any other. */
  function Units(s: string): seq<int> {
    if s == [] then []
    else
      var c := s[0] as int;
      (if c < 0x10000 then [c] else [0xD800 + (c - 0x10000) / 0x400, 0xDC00 + (c - 0x10000) % 0x400]) + Units(s[1..])
  }

  lemma {:induction false} UnitsInjective(a: string, b: string)
    requires Units(a) == Units(b)
    ensures a == b
  {
    if a != [] && b != [] {
      var x, y := a[0] as int, b[0] as int;
      var u, v := Units(a), Units(b);
      assert u[0] == v[0];
      assert a[0] == b[0] by {
        if x >= 0x10000 && y >= 0x10000 {
          assert u[1] == v[1];
        }
      }
      var w := if x < 0x10000 then 1 else 2;
      assert u[w..] == Units(a[1..]) && v[w..] == Units(b[1..]);
      UnitsInjective(a[1..], b[1..]);
      assert a == [a[0]] + a[1..] && b == [b[0]] + b[1..];
    }
  }

  function Sign(n: int): int {
    if n < 0 then -1 else if n > 0 then 1 else 0
  }

  /** `a < b ? -1 : a > b ? 1 : 0` on JavaScript strings, which compare by UTF-16 unit. */
  function CompareStrings(a: string, b: string): int {
    Sign(CompareSeq(Units(a), Units(b)))
  }

  lemma {:induction false} CompareStringsIsTotal(a: string, b: string)
    ensures CompareStrings(a, b) == -CompareStrings(b, a)
    ensures CompareStrings(a, b) == 0 <==> a == b
  {
    CompareSeqIsAntisymmetric(Units(a), Units(b));
    if Units(a) == Units(b) {
      UnitsInjective(a, b);
    }
  }

  lemma {:induction false} CompareStringsIsTransitive(a: string, b: string, c: string)
    requires CompareStrings(a, b) <= 0 && CompareStrings(b, c) <= 0
    ensures CompareStrings(a, c) <= 0
    ensures CompareStrings(a, b) < 0 || CompareStrings(b, c) < 0 ==> CompareStrings(a, c) < 0
  {
    CompareSeqIsTransitive(Units(a), Units(b), Units(c));
  }

  lemma {:induction false} CompareStringsSorts(names: seq<string>)
    ensures Consistent(CompareStrings) && TellsApart(CompareStrings, names)
  {
    forall a, b ensures CompareStrings(a, b) <= 0 || CompareStrings(b, a) <= 0 {
      CompareStringsIsTotal(a, b);
    }
    forall a, b, c | CompareStrings(a, b) <= 0 && CompareStrings(b, c) <= 0 ensures CompareStrings(a, c) <= 0 {
      CompareStringsIsTransitive(a, b, c);
    }
    forall a, b | CompareStrings(a, b) <= 0 && CompareStrings(b, a) <= 0 ensures a == b {
      CompareStringsIsTotal(a, b);
    }
  }

  // ---------- decimal numerals ----------

  function DigitChar(d: nat): char
    requires d < 10
  {
    ('0' as int + d) as char
  }

  predicate IsDigit(c: char) {
    '0' <= c <= '9'
  }

  predicate AllDigits(s: string) {
    forall i | 0 <= i < |s| :: IsDigit(s[i])
  }

  function PrintNat(n: nat): (s: string)
    ensures s != [] && AllDigits(s)
    ensures s[0] == '0' ==> n == 0
  {
    if n < 10 then [DigitChar(n)] else PrintNat(n / 10) + [DigitChar(n % 10)]
  }

  /** `Number(s)` on a run of digits. */
  function ParseNat(s: string): nat
    requires AllDigits(s)
  {
    if s == [] then 0 else ParseNat(s[..|s| - 1]) * 10 + (s[|s| - 1] as int - '0' as int)
  }

  lemma {:induction false} ParsePrint(n: nat)
    ensures ParseNat(PrintNat(n)) == n
  {
    if n >= 10 {
      var s := PrintNat(n);
      assert s[..|s| - 1] == PrintNat(n / 10);
      ParsePrint(n / 10);
    }
  }

  lemma PrintNatInjective(m: nat, n: nat)
    requires PrintNat(m) == PrintNat(n)
    ensures m == n
  {
    ParsePrint(m);
    ParsePrint(n);
  }

  // ---------- split and join ----------

  function JoinWith(parts: seq<string>, sep: char): string {
    if parts == [] then ""
    else if |parts| == 1 then parts[0]
    else parts[0] + [sep] + JoinWith(parts[1..], sep)
  }

  /** `s.split(sep)`; the text between separators, at least one part. */
  function Split(s: string, sep: char): (parts: seq<string>)
    ensures parts != []
  {
    if s == [] then [""]
    else
      var rest := Split(s[1..], sep);
      if s[0] == sep then [""] + rest else [[s[0]] + rest[0]] + rest[1..]
  }

  lemma {:induction false} SplitWord(w: string, sep: char)
    requires sep !in w
    ensures Split(w, sep) == [w]
  {
    if w != [] {
      SplitWord(w[1..], sep);
      assert w == [w[0]] + w[1..];
    }
  }

  lemma {:induction false} SplitFirst(w: string, sep: char, rest: string)
    requires sep !in w
    ensures Split(w + [sep] + rest, sep) == [w] + Split(rest, sep)
  {
    var s := w + [sep] + rest;
    if w == [] {
      assert s[1..] == rest;
    } else {
      assert s[1..] == w[1..] + [sep] + rest;
      SplitFirst(w[1..], sep, rest);
      assert w == [w[0]] + w[1..];
    }
  }

  lemma {:induction false} SplitJoin(parts: seq<string>, sep: char)
    requires parts != [] && forall i | 0 <= i < |parts| :: sep !in parts[i]
    ensures Split(JoinWith(parts, sep), sep) == parts
  {
    if |parts| == 1 {
      SplitWord(parts[0], sep);
    } else {
      SplitFirst(parts[0], sep, JoinWith(parts[1..], sep));
      SplitJoin(parts[1..], sep);
    }
  }
}

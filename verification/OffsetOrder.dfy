/**
 What the offset key of packages/cce-model/src/order.ts makes of the two GTID notations.  The
 pattern reads the sequence number out of a MySQL GTID, but the server number out of a MariaDB
 one, where events of one stream are then ordered by the text of their GTIDs.
 */
module OffsetOrder {
  import opened Outcomes
  import opened Digests
  import opened Canonical
  import opened CceModel
  import opened Sequences
  import opened Sorting
  import opened Texts
  import opened CceOrder

  function MySqlGtid(uuid: string, n: nat): string {
    uuid + ":" + PrintNat(n)
  }

  /** `domain-server-` and the sequence number. */
  function MariaDbPrefix(domain: nat, server: nat): string {
    PrintNat(domain) + "-" + PrintNat(server) + "-"
  }

  function MariaDbGtid(domain: nat, server: nat, n: nat): string {
    MariaDbPrefix(domain, server) + PrintNat(n)
  }

  lemma RunStartIs(s: string, t: nat, end: nat)
    requires t <= end <= |s| && DigitsBetween(s, t, end) && (t > 0 ==> !IsDigit(s[t - 1]))
    ensures RunStart(s, end) == t
  {
    var r := RunStart(s, end);
    assert !(r <= t - 1 < end);
    assert !(t <= r - 1 < end);
  }

  lemma MySqlNumberIsSequence(uuid: string, n: nat)
    ensures OffsetNumber(MySqlGtid(uuid, n)) == n
  {
    var s := MySqlGtid(uuid, n);
    assert s[|uuid| + 1..] == PrintNat(n) && s[|uuid|] == ':';
    assert forall j | |uuid| + 1 <= j < |s| :: s[j] == s[|uuid| + 1..][j - |uuid| - 1];
    RunStartIs(s, |uuid| + 1, |s|);
    assert Capture(s) == (|uuid| + 1, |s|) && s[|uuid| + 1..|s|] == PrintNat(n);
    ParsePrint(n);
  }

  /** Of two numerals at the end, with a dash between and a dash before, the first is captured. */
  lemma DashedIsCaptured(s: string, a: string, b: string, c: string)
    requires s == a + "-" + b + "-" + c && b != [] && c != [] && AllDigits(b) && AllDigits(c)
    ensures Capture(s) == (|a| + 1, |a| + 1 + |b|) && s[|a| + 1..|a| + 1 + |b|] == b
  {
    var from, t := |a| + 1, |a| + |b| + 2;
    assert s[from..t - 1] == b && s[t..] == c;
    assert forall j | t <= j < |s| :: s[j] == c[j - t];
    assert forall j | from <= j < t - 1 :: s[j] == b[j - from];
    RunStartIs(s, t, |s|);
    RunStartIs(s, from, t - 1);
  }

  lemma MariaDbNumberIsServer(domain: nat, server: nat, n: nat)
    ensures OffsetNumber(MariaDbGtid(domain, server, n)) == server
  {
    DashedIsCaptured(MariaDbGtid(domain, server, n), PrintNat(domain), PrintNat(server), PrintNat(n));
    ParsePrint(server);
  }

  // ---------- ordering numerals as text ----------

  /** m with its last k digits cut off. */
  function CutDigits(m: nat, k: nat): nat {
    if k == 0 then m else CutDigits(m / 10, k - 1)
  }

  lemma {:induction false} UnitsOfDigits(s: string)
    requires AllDigits(s)
    ensures Units(s) == CodePoints(s)
  {
    if s != [] {
      UnitsOfDigits(s[1..]);
      assert CodePoints(s) == [s[0] as int] + CodePoints(s[1..]);
    }
  }

  lemma {:induction false} CompareAfterPrefix(u: seq<int>, x: seq<int>, y: seq<int>)
    ensures CompareSeq(u + x, u + y) == CompareSeq(x, y)
  {
    if u == [] {
      assert u + x == x && u + y == y;
    } else {
      assert (u + x)[1..] == u[1..] + x && (u + y)[1..] == u[1..] + y;
      CompareAfterPrefix(u[1..], x, y);
    }
  }

  lemma {:induction false} CompareExtended(x: seq<int>, y: seq<int>, z: seq<int>, w: seq<int>)
    requires |x| == |y|
    ensures CompareSeq(x + w, y + z) == if x == y then CompareSeq(w, z) else CompareSeq(x, y)
  {
    if x == [] {
      assert x + w == w && y + z == z;
    } else {
      assert x == [x[0]] + x[1..] && y == [y[0]] + y[1..];
      assert (x + w)[1..] == x[1..] + w && (y + z)[1..] == y[1..] + z;
      CompareExtended(x[1..], y[1..], z, w);
    }
  }

  /** Numerals of one length order as text the way they order as numbers. */
  lemma {:induction false} EqualLengthDigits(a: string, b: string)
    requires AllDigits(a) && AllDigits(b) && |a| == |b|
    ensures Sign(CompareSeq(CodePoints(a), CodePoints(b))) == Sign(ParseNat(a) - ParseNat(b))
  {
    if a != [] {
      var n := |a| - 1;
      var x, y := CodePoints(a[..n]), CodePoints(b[..n]);
      assert CodePoints(a) == x + [a[n] as int] && CodePoints(b) == y + [b[n] as int];
      CompareExtended(x, y, [b[n] as int], [a[n] as int]);
      CompareSeqIsAntisymmetric(x, y);
      EqualLengthDigits(a[..n], b[..n]);
    }
  }

  lemma {:induction false} NumeralPrefix(m: nat, k: nat)
    requires k < |PrintNat(m)|
    ensures PrintNat(m)[..|PrintNat(m)| - k] == PrintNat(CutDigits(m, k))
  {
    var s := PrintNat(m);
    if k > 0 {
      assert s == PrintNat(m / 10) + [s[|s| - 1]];
      NumeralPrefix(m / 10, k - 1);
      assert s[..|s| - k] == PrintNat(m / 10)[..|s| - 1 - (k - 1)];
    } else {
      assert s[..|s|] == s;
    }
  }

  lemma {:induction false} LongerNumeral(n: nat, m: nat)
    requires n <= m
    ensures |PrintNat(n)| <= |PrintNat(m)|
  {
    if m >= 10 && n >= 10 {
      LongerNumeral(n / 10, m / 10);
    }
  }

  /** Numerals n < m are in order as text exactly when n is at most m cut to n's length. */
  lemma {:induction false} NumeralsAsText(n: nat, m: nat, k: nat)
    requires |PrintNat(m)| == |PrintNat(n)| + k && n < m
    ensures CompareSeq(CodePoints(PrintNat(n)), CodePoints(PrintNat(m))) < 0 <==> n <= CutDigits(m, k)
  {
    var a, b := PrintNat(n), PrintNat(m);
    var head, tail := b[..|a|], b[|a|..];
    NumeralPrefix(m, k);
    assert CodePoints(b) == CodePoints(head) + CodePoints(tail) && CodePoints(a) == CodePoints(a) + [];
    CompareExtended(CodePoints(a), CodePoints(head), CodePoints(tail), []);
    EqualLengthDigits(a, head);
    ParsePrint(n);
    ParsePrint(CutDigits(m, k));
    CompareSeqIsAntisymmetric(CodePoints(a), CodePoints(head));
  }

  lemma MariaDbComparesNumerals(domain: nat, server: nat, n: nat, m: nat)
    ensures CompareStrings(MariaDbGtid(domain, server, n), MariaDbGtid(domain, server, m))
      == Sign(CompareSeq(CodePoints(PrintNat(n)), CodePoints(PrintNat(m))))
  {
    var a, b, p := PrintNat(n), PrintNat(m), MariaDbPrefix(domain, server);
    UnitsConcat(p, a);
    UnitsConcat(p, b);
    UnitsOfDigits(a);
    UnitsOfDigits(b);
    CompareAfterPrefix(Units(p), CodePoints(a), CodePoints(b));
  }

  // ---------- what it means for the order of envelopes ----------

  /** An envelope committed at this time with this GTID as its offset. */
  ghost predicate At(c: Cce, commitTs: string, gtid: string) {
    && StringOf(Field(Field(c.core, "transaction"), "commit_ts")) == Some(commitTs)
    && StringOf(Field(Field(c.core, "offset"), "gtid")) == Some(gtid)
  }

  lemma GtidIsTheOffset(hex: Hex, c: Cce, commitTs: string, gtid: string)
    requires At(c, commitTs, gtid) && gtid != ""
    ensures var k := KeyOf(hex, c); k.commitTs == commitTs && k.number == OffsetNumber(gtid) && k.text == gtid
  {
  }

  /** The commit time decides first. */
  lemma CommitTimeDecides(hex: Hex, a: Cce, b: Cce, commitA: string, commitB: string, gtidA: string, gtidB: string)
    requires At(a, commitA, gtidA) && At(b, commitB, gtidB) && commitA != commitB
    ensures CompareCce(hex)(a, b).Ok? && (CompareCce(hex)(a, b).value < 0 <==> CompareStrings(commitA, commitB) < 0)
  {
  }

  /** Two transactions of one MySQL source with equal commit times are ordered by their numbers. */
  lemma MySqlOrderIsNumeric(hex: Hex, a: Cce, b: Cce, commitTs: string, uuid: string, n: nat, m: nat)
    requires At(a, commitTs, MySqlGtid(uuid, n)) && At(b, commitTs, MySqlGtid(uuid, m)) && n != m
    ensures CompareCce(hex)(a, b).Ok? && (CompareCce(hex)(a, b).value < 0 <==> n < m)
  {
    GtidIsTheOffset(hex, a, commitTs, MySqlGtid(uuid, n));
    GtidIsTheOffset(hex, b, commitTs, MySqlGtid(uuid, m));
    MySqlNumberIsSequence(uuid, n);
    MySqlNumberIsSequence(uuid, m);
  }

  lemma {:induction false} MariaDbTextsCompare(domain: nat, server: nat, n: nat, m: nat)
    requires n < m
    ensures |PrintNat(n)| <= |PrintNat(m)| && MariaDbGtid(domain, server, n) != MariaDbGtid(domain, server, m)
    ensures CompareStrings(MariaDbGtid(domain, server, n), MariaDbGtid(domain, server, m)) < 0
      <==> n <= CutDigits(m, |PrintNat(m)| - |PrintNat(n)|)
  {
    LongerNumeral(n, m);
    MariaDbComparesNumerals(domain, server, n, m);
    NumeralsAsText(n, m, |PrintNat(m)| - |PrintNat(n)|);
    NumeralsDiffer(n, m);
    CompareStringsIsTotal(MariaDbGtid(domain, server, n), MariaDbGtid(domain, server, m));
    CompareSeqIsAntisymmetric(CodePoints(PrintNat(n)), CodePoints(PrintNat(m)));
  }

  lemma NumeralsDiffer(n: nat, m: nat)
    requires n != m
    ensures CodePoints(PrintNat(n)) != CodePoints(PrintNat(m))
  {
    if CodePoints(PrintNat(n)) == CodePoints(PrintNat(m)) {
      CodePointsInjective(PrintNat(n), PrintNat(m));
      PrintNatInjective(n, m);
    }
  }

  /**
   Two transactions of one MariaDB stream with equal commit times and sequence numbers n < m are
   put in that order exactly when n does not exceed m cut to as many digits as n has.
   */
  lemma {:induction false} MariaDbOrderIsTextual(hex: Hex, a: Cce, b: Cce, commitTs: string,
                                                 domain: nat, server: nat, n: nat, m: nat)
    requires At(a, commitTs, MariaDbGtid(domain, server, n)) && At(b, commitTs, MariaDbGtid(domain, server, m)) && n < m
    ensures |PrintNat(n)| <= |PrintNat(m)| && CompareCce(hex)(a, b).Ok?
    ensures CompareCce(hex)(a, b).value < 0 <==> n <= CutDigits(m, |PrintNat(m)| - |PrintNat(n)|)
  {
    GtidIsTheOffset(hex, a, commitTs, MariaDbGtid(domain, server, n));
    GtidIsTheOffset(hex, b, commitTs, MariaDbGtid(domain, server, m));
    MariaDbNumberIsServer(domain, server, n);
    MariaDbNumberIsServer(domain, server, m);
    MariaDbTextsCompare(domain, server, n, m);
  }

  /** An envelope with nothing but a commit time and a GTID. */
  function Event(commitTs: string, gtid: string): Cce {
    Cce(Obj([Member("transaction", Obj([Member("commit_ts", Str(Chars(commitTs)))])),
             Member("offset", Obj([Member("gtid", Str(Chars(gtid)))]))]),
        Evidence(Hash(Zero), None, Hash(Zero), None, None))
  }

  lemma EventIsAt(commitTs: string, gtid: string)
    ensures At(Event(commitTs, gtid), commitTs, gtid)
  {
    var c := Event(commitTs, gtid);
    FieldOfTwo(c.core.members[0], c.core.members[1], "offset");
    CharsReadBack(commitTs);
    CharsReadBack(gtid);
  }

  lemma CharsReadBack(s: string)
    ensures StringOf(Str(Chars(s))) == Some(s)
  {
    assert StringOf(Str(Chars(s))).value == s;
  }

  /** Such an inversion: of two transactions committed together, number 152 is put before number 99. */
  lemma MariaDbInversion(hex: Hex, commitTs: string)
    ensures var a, b := Event(commitTs, MariaDbGtid(0, 1, 99)), Event(commitTs, MariaDbGtid(0, 1, 152));
      CompareCce(hex)(a, b).Ok? && CompareCce(hex)(a, b).value > 0 && OrderCces(hex, [a, b]) == Ok([b, a])
  {
    var a, b := Event(commitTs, MariaDbGtid(0, 1, 99)), Event(commitTs, MariaDbGtid(0, 1, 152));
    EventIsAt(commitTs, MariaDbGtid(0, 1, 99));
    EventIsAt(commitTs, MariaDbGtid(0, 1, 152));
    MariaDbOrderIsTextual(hex, a, b, commitTs, 0, 1, 99, 152);
    NumeralLengths();
    MariaDbTextsCompare(0, 1, 99, 152);
    GtidsDiffer(hex, a, b, commitTs, MariaDbGtid(0, 1, 99), MariaDbGtid(0, 1, 152));
    TrySortTwo(CompareCce(hex), a, b);
  }

  lemma GtidsDiffer(hex: Hex, a: Cce, b: Cce, commitTs: string, g: string, h: string)
    requires At(a, commitTs, g) && At(b, commitTs, h) && g != h && g != "" && h != ""
    ensures CompareCce(hex)(a, b).Ok? && CompareCce(hex)(a, b).value != 0
  {
    GtidIsTheOffset(hex, a, commitTs, g);
    GtidIsTheOffset(hex, b, commitTs, h);
  }

  lemma NumeralLengths()
    ensures |PrintNat(99)| == 2 && |PrintNat(152)| == 3 && CutDigits(152, 1) == 15
  {
    assert |PrintNat(9)| == 1 && |PrintNat(1)| == 1 && |PrintNat(15)| == 2;
    assert CutDigits(152, 1) == CutDigits(15, 0);
  }

  // ---------- binlog positions ----------

  /** An envelope without a GTID, read at this place of this binlog file. */
  predicate AtPlace(c: Cce, commitTs: string, file: string, pos: int) {
    var offset := Field(c.core, "offset");
    && OrEmpty(StringOf(Field(Field(c.core, "transaction"), "commit_ts"))) == commitTs
    && OrEmpty(StringOf(Field(offset, "gtid"))) == "" && OrEmpty(StringOf(Field(offset, "lsn"))) == ""
    && OrEmpty(StringOf(Field(offset, "scn"))) == ""
    && file != "" && StringOf(Field(offset, "binlog_file")) == Some(file) && Field(offset, "binlog_pos") == Number(Integral(pos))
  }

  /** Of two such envelopes committed together the one at the smaller position goes first, whatever their files. */
  lemma BinlogOrderIsByPosition(hex: Hex, a: Cce, b: Cce, commitTs: string, fileA: string, posA: int, fileB: string, posB: int)
    requires AtPlace(a, commitTs, fileA, posA) && AtPlace(b, commitTs, fileB, posB)
    requires posA != posB || fileA != fileB
    ensures CompareCce(hex)(a, b).Ok?
    ensures CompareCce(hex)(a, b).value < 0 <==>
      posA < posB || (posA == posB && CompareStrings(fileA + ":" + PrintInt(posA), fileB + ":" + PrintInt(posB)) < 0)
  {
    var x, y := fileA + ":" + PrintInt(posA), fileB + ":" + PrintInt(posB);
    assert KeyOf(hex, a).number == posA && KeyOf(hex, a).text == x;
    assert KeyOf(hex, b).number == posB && KeyOf(hex, b).text == y;
    if posA == posB && x == y {
      Regroup(fileA, ":", PrintInt(posA));
      Regroup(fileB, ":", PrintInt(posA));
      SameBefore(fileA, fileB, ":" + PrintInt(posA));
    }
    CompareStringsIsTotal(x, y);
  }

  lemma SameBefore(a: string, b: string, tail: string)
    requires a + tail == b + tail
    ensures a == b
  {
    assert |a| == |a + tail| - |tail| == |b|;
    assert a == (a + tail)[..|a|] && b == (b + tail)[..|b|];
  }

  /** So an event at the start of the next file is put before one that came before it at the end of a file. */
  lemma BinlogInversion(hex: Hex, a: Cce, b: Cce, commitTs: string)
    requires AtPlace(a, commitTs, "mysql-bin.000001", 900) && AtPlace(b, commitTs, "mysql-bin.000002", 4)
    ensures CompareCce(hex)(a, b).Ok? && CompareCce(hex)(a, b).value > 0 && OrderCces(hex, [a, b]) == Ok([b, a])
  {
    BinlogOrderIsByPosition(hex, a, b, commitTs, "mysql-bin.000001", 900, "mysql-bin.000002", 4);
    assert KeyOf(hex, a).number == 900 && KeyOf(hex, b).number == 4;
    TrySortTwo(CompareCce(hex), a, b);
  }
}

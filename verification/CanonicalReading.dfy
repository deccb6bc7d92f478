/**
 Canonical text can be read in one way only: two serializable values have the same text exactly
 when they mean the same, that is, agree up to member order.
 */
module CanonicalReading {
  import opened Outcomes
  import opened Digests
  import opened Sequences
  import opened Sorting
  import opened Texts
  import opened Canonical

  // ---------- strings ----------

  lemma ConsEqual(x: Symbol, s: Text, y: Symbol, t: Text)
    requires [x] + s == [y] + t
    ensures x == y && s == t
  {
    assert ([x] + s)[0] == x && ([y] + t)[0] == y;
    assert ([x] + s)[1..] == s && ([y] + t)[1..] == t;
  }

  /** An escape never starts with the closing quote, and two different escapes differ early. */
  lemma {:induction false} EscapeIsReadable(x: Symbol, s: Text, y: Symbol, t: Text)
    requires Escape(x) + s == Escape(y) + t
    ensures x == y && s == t
  {
    var ex, ey := Escape(x), Escape(y);
    var u, v := ex + s, ey + t;
    assert u[0] == ex[0] && v[0] == ey[0];
    if ex[0] == Char('\\') {
      assert |ex| >= 2 && |ey| >= 2;
      assert u[1] == ex[1] && v[1] == ey[1];
      if ex[1] == Char('u') {
        assert u[4] == ex[4] && v[4] == ey[4] && u[5] == ex[5] && v[5] == ey[5];
      }
    }
    assert x == y;
    assert u[|ex|..] == s && v[|ey|..] == t;
  }

  lemma EscapeStart(x: Symbol)
    ensures Escape(x) != [] && Escape(x)[0] != Char('"')
  {
  }

  lemma {:induction false} EscapedIsReadable(a: Text, s: Text, b: Text, t: Text)
    requires EscapeAll(a) + [Char('"')] + s == EscapeAll(b) + [Char('"')] + t
    ensures a == b && s == t
  {
    var u, v := EscapeAll(a) + [Char('"')] + s, EscapeAll(b) + [Char('"')] + t;
    if a != [] {
      EscapeStart(a[0]);
      assert u[0] == Escape(a[0])[0];
    }
    if b != [] {
      EscapeStart(b[0]);
      assert v[0] == Escape(b[0])[0];
    }
    if a == [] || b == [] {
      assert a == b;
      assert u == [Char('"')] + s && v == [Char('"')] + t;
      ConsEqual(Char('"'), s, Char('"'), t);
    } else {
      var a', b' := EscapeAll(a[1..]), EscapeAll(b[1..]);
      Regroup(Escape(a[0]), a', [Char('"')]);
      Regroup(Escape(a[0]), a' + [Char('"')], s);
      Regroup(Escape(b[0]), b', [Char('"')]);
      Regroup(Escape(b[0]), b' + [Char('"')], t);
      EscapeIsReadable(a[0], a' + [Char('"')] + s, b[0], b' + [Char('"')] + t);
      EscapedIsReadable(a[1..], s, b[1..], t);
      HeadAndTail(a);
      HeadAndTail(b);
    }
  }

  lemma {:induction false} QuoteIsReadable(a: Text, s: Text, b: Text, t: Text)
    requires Quote(a) + s == Quote(b) + t
    ensures a == b && s == t
  {
    var q := [Char('"')];
    Regroup(q, EscapeAll(a), q);
    Regroup(q, EscapeAll(a) + q, s);
    Regroup(q, EscapeAll(b), q);
    Regroup(q, EscapeAll(b) + q, t);
    ConsEqual(Char('"'), EscapeAll(a) + q + s, Char('"'), EscapeAll(b) + q + t);
    EscapedIsReadable(a, s, b, t);
  }

  // ---------- numbers ----------

  lemma CharsConcat(a: string, b: string)
    ensures Chars(a + b) == Chars(a) + Chars(b)
  {
  }

  lemma CharsInjective(a: string, b: string)
    requires Chars(a) == Chars(b)
    ensures a == b
  {
    forall i | 0 <= i < |a| ensures a[i] == b[i] {
      assert Chars(a)[i] == Chars(b)[i];
    }
  }

  /** What may follow a value: nothing, or a separator or closing bracket. */
  predicate Ends(s: Text) {
    s == [] || s[0] == Char(',') || s[0] == Char(']') || s[0] == Char('}')
  }

  lemma {:induction false} DigitsAreReadable(a: string, s: Text, b: string, t: Text)
    requires AllDigits(a) && AllDigits(b) && Ends(s) && Ends(t)
    requires Chars(a) + s == Chars(b) + t
    ensures a == b && s == t
  {
    var u, v := Chars(a) + s, Chars(b) + t;
    if |a| < |b| {
      LongerDigitsDiffer(a, s, b, t);
      assert false;
    } else if |b| < |a| {
      LongerDigitsDiffer(b, t, a, s);
      assert false;
    } else {
      assert u[..|a|] == Chars(a) && v[..|a|] == Chars(b);
      assert u[|a|..] == s && v[|a|..] == t;
      CharsInjective(a, b);
    }
  }

  lemma LongerDigitsDiffer(a: string, s: Text, b: string, t: Text)
    requires AllDigits(b) && Ends(s) && |a| < |b|
    ensures Chars(a) + s != Chars(b) + t
  {
    var u, v := Chars(a) + s, Chars(b) + t;
    assert v[|a|] == Char(b[|a|]) && IsDigit(b[|a|]);
    if s != [] {
      assert u[|a|] == s[0];
    }
  }

  lemma {:induction false} IntIsReadable(i: int, s: Text, j: int, t: Text)
    requires Ends(s) && Ends(t)
    requires Chars(PrintInt(i)) + s == Chars(PrintInt(j)) + t
    ensures i == j && s == t
  {
    var m, n := PrintNat(if i < 0 then -i else i), PrintNat(if j < 0 then -j else j);
    var u, v := Chars(PrintInt(i)) + s, Chars(PrintInt(j)) + t;
    assert u[0] == Char(PrintInt(i)[0]) && v[0] == Char(PrintInt(j)[0]);
    assert IsDigit(m[0]) && IsDigit(n[0]);
    if i < 0 {
      CharsConcat("-", m);
      CharsConcat("-", n);
      Regroup(Chars("-"), Chars(m), s);
      Regroup(Chars("-"), Chars(n), t);
      assert Chars("-") == [Char('-')];
      ConsEqual(Char('-'), Chars(m) + s, Char('-'), Chars(n) + t);
    }
    DigitsAreReadable(m, s, n, t);
    ParsePrint(if i < 0 then -i else i);
    ParsePrint(if j < 0 then -j else j);
  }

  // ---------- trees ----------

  predicate StartsLike(c: Canon, x: Symbol) {
    match c
    case CNull => x == Char('n')
    case CBool(b) => x == Char(if b then 't' else 'f')
    case CInt(i) => x.Char? && (x.c == '-' || IsDigit(x.c))
    case CStr(s) => x == Char('"')
    case CArr(items) => x == Char('[')
    case CObj(members) => x == Char('{')
  }

  lemma PrintStart(c: Canon, s: Text)
    ensures Print(c) != [] && (Print(c) + s)[0] == Print(c)[0] && StartsLike(c, Print(c)[0])
  {
  }

  lemma KeywordIsReadable(w: string, s: Text, t: Text)
    requires Chars(w) + s == Chars(w) + t
    ensures s == t
  {
    assert (Chars(w) + s)[|w|..] == s && (Chars(w) + t)[|w|..] == t;
  }

  lemma {:induction false} TreeIsReadable(x: Canon, s: Text, y: Canon, t: Text)
    requires Ends(s) && Ends(t) && Print(x) + s == Print(y) + t
    ensures x == y && s == t
    decreases x, 1
  {
    PrintStart(x, s);
    PrintStart(y, t);
    match x
    case CNull => KeywordIsReadable("null", s, t);
    case CBool(b) => KeywordIsReadable(if b then "true" else "false", s, t);
    case CInt(i) => IntIsReadable(i, s, y.i, t);
    case CStr(a) => QuoteIsReadable(a, s, y.s, t);
    case CArr(items) => ArrayIsReadable(items, s, y.items, t);
    case CObj(members) => ObjectIsReadable(members, s, y.members, t);
  }

  function ArrayBody(items: seq<Canon>): Text {
    if items == [] then [Char(']')] else Print(items[0]) + PrintItems(items[1..])
  }

  lemma {:induction false} ArrayIsReadable(xs: seq<Canon>, s: Text, ys: seq<Canon>, t: Text)
    requires Ends(s) && Ends(t) && Print(CArr(xs)) + s == Print(CArr(ys)) + t
    ensures xs == ys && s == t
    decreases xs, 1
  {
    Regroup([Char('[')], ArrayBody(xs), s);
    Regroup([Char('[')], ArrayBody(ys), t);
    ConsEqual(Char('['), ArrayBody(xs) + s, Char('['), ArrayBody(ys) + t);
    if xs == [] || ys == [] {
      if xs != [] { PrintStart(xs[0], PrintItems(xs[1..]) + s); Regroup(Print(xs[0]), PrintItems(xs[1..]), s); }
      if ys != [] { PrintStart(ys[0], PrintItems(ys[1..]) + t); Regroup(Print(ys[0]), PrintItems(ys[1..]), t); }
      assert (ArrayBody(xs) + s)[0] == (ArrayBody(ys) + t)[0];
      ConsEqual(Char(']'), s, Char(']'), t);
    } else {
      Regroup(Print(xs[0]), PrintItems(xs[1..]), s);
      Regroup(Print(ys[0]), PrintItems(ys[1..]), t);
      TreeIsReadable(xs[0], PrintItems(xs[1..]) + s, ys[0], PrintItems(ys[1..]) + t);
      ItemsAreReadable(xs[1..], s, ys[1..], t);
      HeadAndTail(xs);
      HeadAndTail(ys);
    }
  }

  lemma {:induction false} ItemsAreReadable(xs: seq<Canon>, s: Text, ys: seq<Canon>, t: Text)
    requires Ends(s) && Ends(t) && PrintItems(xs) + s == PrintItems(ys) + t
    ensures xs == ys && s == t
    decreases xs, 0
  {
    assert (PrintItems(xs) + s)[0] == PrintItems(xs)[0] && (PrintItems(ys) + t)[0] == PrintItems(ys)[0];
    if xs == [] {
      ConsEqual(Char(']'), s, Char(']'), t);
    } else {
      var restX, restY := PrintItems(xs[1..]), PrintItems(ys[1..]);
      Regroup([Char(',')], Print(xs[0]), restX);
      Regroup([Char(',')], Print(xs[0]) + restX, s);
      Regroup(Print(xs[0]), restX, s);
      Regroup([Char(',')], Print(ys[0]), restY);
      Regroup([Char(',')], Print(ys[0]) + restY, t);
      Regroup(Print(ys[0]), restY, t);
      ConsEqual(Char(','), Print(xs[0]) + (restX + s), Char(','), Print(ys[0]) + (restY + t));
      TreeIsReadable(xs[0], restX + s, ys[0], restY + t);
      ItemsAreReadable(xs[1..], s, ys[1..], t);
      HeadAndTail(xs);
      HeadAndTail(ys);
    }
  }

  function ObjectBody(members: seq<CMember>): Text {
    if members == [] then [Char('}')] else PrintMember(members[0]) + PrintMembers(members[1..])
  }

  lemma {:induction false} MemberIsReadable(m: CMember, s: Text, n: CMember, t: Text)
    requires Ends(s) && Ends(t) && PrintMember(m) + s == PrintMember(n) + t
    ensures m == n && s == t
    decreases m, 2
  {
    var colon := [Char(':')];
    Regroup(Quote(Chars(m.key)), colon, Print(m.value));
    Regroup(Quote(Chars(m.key)), colon + Print(m.value), s);
    Regroup(colon, Print(m.value), s);
    Regroup(Quote(Chars(n.key)), colon, Print(n.value));
    Regroup(Quote(Chars(n.key)), colon + Print(n.value), t);
    Regroup(colon, Print(n.value), t);
    QuoteIsReadable(Chars(m.key), colon + (Print(m.value) + s), Chars(n.key), colon + (Print(n.value) + t));
    ConsEqual(Char(':'), Print(m.value) + s, Char(':'), Print(n.value) + t);
    CharsInjective(m.key, n.key);
    TreeIsReadable(m.value, s, n.value, t);
  }

  lemma ObjectBodyStart(members: seq<CMember>, s: Text)
    ensures (ObjectBody(members) + s)[0] == if members == [] then Char('}') else Char('"')
  {
  }

  lemma {:induction false} ObjectIsReadable(xs: seq<CMember>, s: Text, ys: seq<CMember>, t: Text)
    requires Ends(s) && Ends(t) && Print(CObj(xs)) + s == Print(CObj(ys)) + t
    ensures xs == ys && s == t
    decreases xs, 1
  {
    Regroup([Char('{')], ObjectBody(xs), s);
    Regroup([Char('{')], ObjectBody(ys), t);
    ConsEqual(Char('{'), ObjectBody(xs) + s, Char('{'), ObjectBody(ys) + t);
    if xs == [] || ys == [] {
      ObjectBodyStart(xs, s);
      ObjectBodyStart(ys, t);
      assert (ObjectBody(xs) + s)[0] == (ObjectBody(ys) + t)[0];
      ConsEqual(Char('}'), s, Char('}'), t);
    } else {
      Regroup(PrintMember(xs[0]), PrintMembers(xs[1..]), s);
      Regroup(PrintMember(ys[0]), PrintMembers(ys[1..]), t);
      MemberIsReadable(xs[0], PrintMembers(xs[1..]) + s, ys[0], PrintMembers(ys[1..]) + t);
      MembersAreReadable(xs[1..], s, ys[1..], t);
      HeadAndTail(xs);
      HeadAndTail(ys);
    }
  }

  lemma {:induction false} MembersAreReadable(xs: seq<CMember>, s: Text, ys: seq<CMember>, t: Text)
    requires Ends(s) && Ends(t) && PrintMembers(xs) + s == PrintMembers(ys) + t
    ensures xs == ys && s == t
    decreases xs, 0
  {
    assert (PrintMembers(xs) + s)[0] == PrintMembers(xs)[0] && (PrintMembers(ys) + t)[0] == PrintMembers(ys)[0];
    if xs == [] {
      ConsEqual(Char('}'), s, Char('}'), t);
    } else {
      var restX, restY := PrintMembers(xs[1..]), PrintMembers(ys[1..]);
      Regroup([Char(',')], PrintMember(xs[0]), restX);
      Regroup([Char(',')], PrintMember(xs[0]) + restX, s);
      Regroup(PrintMember(xs[0]), restX, s);
      Regroup([Char(',')], PrintMember(ys[0]), restY);
      Regroup([Char(',')], PrintMember(ys[0]) + restY, t);
      Regroup(PrintMember(ys[0]), restY, t);
      ConsEqual(Char(','), PrintMember(xs[0]) + (restX + s), Char(','), PrintMember(ys[0]) + (restY + t));
      MemberIsReadable(xs[0], restX + s, ys[0], restY + t);
      MembersAreReadable(xs[1..], s, ys[1..], t);
      HeadAndTail(xs);
      HeadAndTail(ys);
    }
  }

  // ---------- meaning ----------

  /** The meaning of a canonical tree. */
  function TreeMeaning(c: Canon): Meaning {
    match c
    case CNull => MNull
    case CBool(b) => MBool(b)
    case CInt(i) => MInt(i)
    case CStr(s) => MStr(s)
    case CArr(items) => MArr(ItemMeanings(items))
    case CObj(members) => MObj(MemberMeanings(members))
  }

  function ItemMeanings(items: seq<Canon>): (r: seq<Meaning>)
    ensures |r| == |items|
  {
    if items == [] then [] else [TreeMeaning(items[0])] + ItemMeanings(items[1..])
  }

  function MemberMeanings(members: seq<CMember>): map<string, Meaning> {
    if members == [] then map[] else MemberMeanings(members[1..])[members[0].key := TreeMeaning(members[0].value)]
  }

  predicate DistinctCKeys(members: seq<CMember>) {
    forall i, j | 0 <= i < j < |members| :: members[i].key != members[j].key
  }

  /** Keys strictly ascending by code point, at every level. */
  ghost predicate InOrder(c: Canon) {
    match c
    case CArr(items) => AllInOrder(items)
    case CObj(members) => DistinctCKeys(members) && Sorted(CompareKeys, members) && MembersInOrder(members)
    case _ => true
  }

  ghost predicate AllInOrder(items: seq<Canon>) {
    items == [] || (InOrder(items[0]) && AllInOrder(items[1..]))
  }

  ghost predicate MembersInOrder(members: seq<CMember>) {
    members == [] || (InOrder(members[0].value) && MembersInOrder(members[1..]))
  }

  lemma {:induction false} MembersInOrderAll(members: seq<CMember>)
    ensures MembersInOrder(members) <==> forall m | m in members :: InOrder(m.value)
  {
    if members != [] {
      MembersInOrderAll(members[1..]);
      HeadAndTail(members);
    }
  }

  /** With distinct keys, the map holds exactly the members. */
  lemma {:induction false} MemberMeaningsAre(members: seq<CMember>)
    requires DistinctCKeys(members)
    ensures forall i | 0 <= i < |members| ::
      members[i].key in MemberMeanings(members) && MemberMeanings(members)[members[i].key] == TreeMeaning(members[i].value)
    ensures forall k :: k in MemberMeanings(members) <==> HasKey(members, k)
  {
    if members != [] {
      MemberMeaningsAre(members[1..]);
      assert forall i | 0 <= i < |members[1..]| :: members[1..][i] == members[i + 1];
    }
  }

  lemma CompareKeysIsConsistent(members: seq<CMember>)
    requires DistinctCKeys(members)
    ensures Consistent(CompareKeys) && TellsApart(CompareKeys, members)
  {
    forall a, b ensures CompareKeys(a, b) <= 0 || CompareKeys(b, a) <= 0 {
      CompareSeqIsAntisymmetric(CodePoints(a.key), CodePoints(b.key));
    }
    forall a, b, c | CompareKeys(a, b) <= 0 && CompareKeys(b, c) <= 0 ensures CompareKeys(a, c) <= 0 {
      CompareSeqIsTransitive(CodePoints(a.key), CodePoints(b.key), CodePoints(c.key));
    }
    forall i, j | 0 <= i < |members| && 0 <= j < |members|
      && CompareKeys(members[i], members[j]) <= 0 && CompareKeys(members[j], members[i]) <= 0
      ensures members[i] == members[j]
    {
      CompareSeqIsAntisymmetric(CodePoints(members[i].key), CodePoints(members[j].key));
      CodePointsInjective(members[i].key, members[j].key);
    }
  }

  // ---------- canonizing keeps the meaning ----------

  lemma {:induction false} CanonizeKeepsMeaning(v: Value)
    ensures Canonize(v).Ok? <==> MeaningOf(v).Ok?
    ensures Canonize(v).Ok? ==> InOrder(Canonize(v).value) && MeaningOf(v).value == TreeMeaning(Canonize(v).value)
    decreases v
  {
    match v
    case Arr(items) => CanonizeAllKeepsMeaning(items);
    case Obj(members) =>
      CanonizeMembersKeepsMeaning(members);
      if CanonizeMembers(members).Ok? {
        var ms := CanonizeMembers(members).value;
        SortedMembers(ms);
      }
    case _ =>
  }

  lemma {:induction false} CanonizeAllKeepsMeaning(items: seq<Value>)
    ensures CanonizeAll(items).Ok? <==> MeaningsOf(items).Ok?
    ensures CanonizeAll(items).Ok? ==>
      AllInOrder(CanonizeAll(items).value) && MeaningsOf(items).value == ItemMeanings(CanonizeAll(items).value)
    decreases items
  {
    if items != [] {
      CanonizeKeepsMeaning(items[0]);
      CanonizeAllKeepsMeaning(items[1..]);
    }
  }

  lemma {:induction false} CanonizeMembersKeepsMeaning(members: seq<Member>)
    ensures CanonizeMembers(members).Ok? <==> MembersMeaning(members).Ok?
    ensures CanonizeMembers(members).Ok? ==>
      DistinctCKeys(CanonizeMembers(members).value) && MembersInOrder(CanonizeMembers(members).value) &&
      MembersMeaning(members).value == MemberMeanings(CanonizeMembers(members).value)
    decreases members
  {
    if members != [] {
      CanonizeKeepsMeaning(members[0].value);
      CanonizeMembersKeepsMeaning(members[1..]);
      if CanonizeMembers(members[1..]).Ok? {
        MemberMeaningsAre(CanonizeMembers(members[1..]).value);
      }
    }
  }

  lemma {:induction false} DistinctPermuted(a: seq<CMember>, b: seq<CMember>)
    requires DistinctCKeys(a) && multiset(a) == multiset(b)
    ensures DistinctCKeys(b)
  {
    forall i, j | 0 <= i < j < |b| ensures b[i].key != b[j].key {
      TwoPlaces(b, i, j);
      DistinctCount(a, b[i]);
      InMultiset(a, b, b[i]);
      InMultiset(a, b, b[j]);
    }
  }

  lemma {:induction false} DistinctCount(a: seq<CMember>, x: CMember)
    requires DistinctCKeys(a)
    ensures multiset(a)[x] <= 1
  {
    if a != [] {
      HeadAndTail(a);
      DistinctCount(a[1..], x);
      assert multiset(a) == multiset{a[0]} + multiset(a[1..]);
      assert forall i | 0 <= i < |a[1..]| :: a[1..][i].key != a[0].key;
    }
  }

  lemma {:induction false} SortedMembers(ms: seq<CMember>)
    requires DistinctCKeys(ms) && MembersInOrder(ms)
    ensures InOrder(CObj(Sort(CompareKeys, ms)))
    ensures MemberMeanings(Sort(CompareKeys, ms)) == MemberMeanings(ms)
  {
    var sorted := Sort(CompareKeys, ms);
    CompareKeysIsConsistent(ms);
    SortSorts(CompareKeys, ms);
    DistinctPermuted(ms, sorted);
    SameMembersSameMeaning(ms, sorted);
    MembersInOrderAll(ms);
    MembersInOrderAll(sorted);
    forall m | m in sorted ensures InOrder(m.value) {
      InMultiset(ms, sorted, m);
    }
  }

  lemma {:induction false} SameMembersSameMeaning(a: seq<CMember>, b: seq<CMember>)
    requires DistinctCKeys(a) && DistinctCKeys(b) && multiset(a) == multiset(b)
    ensures MemberMeanings(a) == MemberMeanings(b)
  {
    MemberMeaningsAre(a);
    MemberMeaningsAre(b);
    forall k ensures (k in MemberMeanings(a) <==> k in MemberMeanings(b))
      && (k in MemberMeanings(a) ==> MemberMeanings(a)[k] == MemberMeanings(b)[k])
    {
      if i :| 0 <= i < |a| && a[i].key == k {
        InMultiset(a, b, a[i]);
        var j :| 0 <= j < |b| && b[j] == a[i];
      }
      if i :| 0 <= i < |b| && b[i].key == k {
        InMultiset(a, b, b[i]);
        var j :| 0 <= j < |a| && a[j] == b[i];
      }
    }
  }

  // ---------- an ordered tree is determined by its meaning ----------

  lemma {:induction false} MeaningDeterminesTree(x: Canon, y: Canon)
    requires InOrder(x) && InOrder(y) && TreeMeaning(x) == TreeMeaning(y)
    ensures x == y
    decreases x, 1
  {
    match x
    case CArr(items) => MeaningDeterminesItems(items, y.items);
    case CObj(members) => MeaningDeterminesMembers(members, y.members);
    case _ =>
  }

  lemma {:induction false} MeaningDeterminesItems(xs: seq<Canon>, ys: seq<Canon>)
    requires AllInOrder(xs) && AllInOrder(ys) && ItemMeanings(xs) == ItemMeanings(ys)
    ensures xs == ys
    decreases xs, 0
  {
    if xs != [] {
      assert ItemMeanings(xs)[1..] == ItemMeanings(xs[1..]) && ItemMeanings(ys)[1..] == ItemMeanings(ys[1..]);
      assert ItemMeanings(xs)[0] == TreeMeaning(xs[0]) && ItemMeanings(ys)[0] == TreeMeaning(ys[0]);
      MeaningDeterminesTree(xs[0], ys[0]);
      MeaningDeterminesItems(xs[1..], ys[1..]);
      HeadAndTail(xs);
      HeadAndTail(ys);
    }
  }

  lemma {:induction false} MeaningDeterminesMembers(xs: seq<CMember>, ys: seq<CMember>)
    requires InOrder(CObj(xs)) && InOrder(CObj(ys)) && MemberMeanings(xs) == MemberMeanings(ys)
    ensures xs == ys
    decreases xs, 2
  {
    MemberMeaningsAre(xs);
    MemberMeaningsAre(ys);
    MembersInOrderAll(xs);
    MembersInOrderAll(ys);
    forall i | 0 <= i < |xs| ensures xs[i] in ys {
      assert HasKey(ys, xs[i].key);
      var j :| 0 <= j < |ys| && ys[j].key == xs[i].key;
      assert TreeMeaning(xs[i].value) == TreeMeaning(ys[j].value);
      assert xs[i] in xs && ys[j] in ys;
      MeaningDeterminesTree(xs[i].value, ys[j].value);
    }
    BackAndForth(xs, ys);
    DistinctMembersPermuted(xs, ys);
    CompareKeysIsConsistent(xs);
    SortedIsUnique(CompareKeys, xs, ys);
  }

  /** Members found on one side are all there are on the other, when the names are the same. */
  lemma {:induction false} BackAndForth(xs: seq<CMember>, ys: seq<CMember>)
    requires DistinctCKeys(ys) && (forall i | 0 <= i < |xs| :: xs[i] in ys)
    requires forall j | 0 <= j < |ys| :: HasKey(xs, ys[j].key)
    ensures forall j | 0 <= j < |ys| :: ys[j] in xs
  {
    forall j | 0 <= j < |ys| ensures ys[j] in xs {
      var i :| 0 <= i < |xs| && xs[i].key == ys[j].key;
      var k :| 0 <= k < |ys| && ys[k] == xs[i];
      assert k == j;
    }
  }

  lemma {:induction false} DistinctMembersPermuted(a: seq<CMember>, b: seq<CMember>)
    requires DistinctCKeys(a) && DistinctCKeys(b)
    requires (forall i | 0 <= i < |a| :: a[i] in b) && (forall j | 0 <= j < |b| :: b[j] in a)
    ensures multiset(a) == multiset(b)
  {
    forall x ensures multiset(a)[x] == multiset(b)[x] {
      DistinctCount(a, x);
      DistinctCount(b, x);
      assert x in a <==> x in multiset(a);
      assert x in b <==> x in multiset(b);
    }
  }

  // ---------- the theorem ----------

  /** A value can be serialized exactly when it has a meaning. */
  lemma {:induction false} SerializableIffMeaningful(v: Value)
    ensures Serialize(v).Ok? <==> MeaningOf(v).Ok?
  {
    CanonizeKeepsMeaning(v);
  }

  /** Same text if and only if same meaning: canonical serialization is unambiguous. */
  lemma {:induction false} SerializationIsUnambiguous(a: Value, b: Value)
    requires Serialize(a).Ok? && Serialize(b).Ok?
    ensures MeaningOf(a).Ok? && MeaningOf(b).Ok?
    ensures Serialize(a).value == Serialize(b).value <==> MeaningOf(a).value == MeaningOf(b).value
  {
    CanonizeKeepsMeaning(a);
    CanonizeKeepsMeaning(b);
    var x, y := Canonize(a).value, Canonize(b).value;
    if Print(x) == Print(y) {
      assert Print(x) + [] == Print(x) && Print(y) + [] == Print(y);
      TreeIsReadable(x, [], y, []);
    }
    if TreeMeaning(x) == TreeMeaning(y) {
      MeaningDeterminesTree(x, y);
    }
  }

  // ---------- the order of members ----------

  /** The same result, or an error on both sides. */
  predicate Alike(a: Result<map<string, Meaning>>, b: Result<map<string, Meaning>>) {
    a == b || (a.Err? && b.Err?)
  }

  lemma ConsAlike(m: Member, a: seq<Member>, b: seq<Member>)
    requires Alike(MembersMeaning(a), MembersMeaning(b))
    ensures Alike(MembersMeaning([m] + a), MembersMeaning([m] + b))
  {
  }

  lemma SwapAlike(x: Member, y: Member, rest: seq<Member>)
    ensures Alike(MembersMeaning([x] + ([y] + rest)), MembersMeaning([y] + ([x] + rest)))
  {
    assert ([x] + ([y] + rest))[1..] == [y] + rest && ([y] + rest)[1..] == rest;
    assert ([y] + ([x] + rest))[1..] == [x] + rest && ([x] + rest)[1..] == rest;
    var m := MembersMeaning(rest);
    if m.Ok? && MeaningOf(x.value).Ok? && MeaningOf(y.value).Ok? && x.key != y.key {
      var p, q := MeaningOf(x.value).value, MeaningOf(y.value).value;
      assert m.value[x.key := p][y.key := q] == m.value[y.key := q][x.key := p];
    }
  }

  lemma {:induction false} MoveToFront(before: seq<Member>, x: Member, after: seq<Member>)
    ensures Alike(MembersMeaning(before + ([x] + after)), MembersMeaning([x] + (before + after)))
  {
    if before == [] {
      assert before + ([x] + after) == [x] + after && before + after == after;
    } else {
      var first, rest := before[0], before[1..];
      MoveToFront(rest, x, after);
      ConsAlike(first, rest + ([x] + after), [x] + (rest + after));
      SwapAlike(first, x, rest + after);
      assert before + ([x] + after) == [first] + (rest + ([x] + after)) && before + after == [first] + (rest + after);
    }
  }

  lemma TakeOut(a: seq<Member>, b: seq<Member>) returns (before: seq<Member>, after: seq<Member>)
    requires a != [] && multiset(a) == multiset(b)
    ensures a == [a[0]] + a[1..] && b == before + ([a[0]] + after) && multiset(a[1..]) == multiset(before + after)
  {
    var x := a[0];
    assert x in multiset(b);
    var i :| 0 <= i < |b| && b[i] == x;
    before, after := b[..i], b[i + 1..];
    HeadAndTail(a);
    assert b == before + ([x] + after);
    SameWithout(x, a[1..], before, after);
  }

  lemma SameWithout(x: Member, rest: seq<Member>, before: seq<Member>, after: seq<Member>)
    requires multiset([x] + rest) == multiset(before + ([x] + after))
    ensures multiset(rest) == multiset(before + after)
  {
    assert multiset([x] + rest) - multiset{x} == multiset(rest);
    assert before + ([x] + after) == before + [x] + after;
    assert multiset(before + ([x] + after)) - multiset{x} == multiset(before) + multiset(after);
    assert multiset(before + after) == multiset(before) + multiset(after);
  }

  lemma {:induction false} PermutedAlike(a: seq<Member>, b: seq<Member>)
    requires multiset(a) == multiset(b)
    ensures Alike(MembersMeaning(a), MembersMeaning(b))
  {
    if a == [] {
      assert |multiset(b)| == 0;
    } else {
      var before, after := TakeOut(a, b);
      PermutedAlike(a[1..], before + after);
      ConsAlike(a[0], a[1..], before + after);
      MoveToFront(before, a[0], after);
    }
  }

  /** Reordering an object's members changes nothing: the text is the same, or both orders throw. */
  lemma {:induction false} MemberOrderIsIrrelevant(a: seq<Member>, b: seq<Member>)
    requires multiset(a) == multiset(b)
    ensures Serialize(Obj(a)).Ok? <==> Serialize(Obj(b)).Ok?
    ensures Serialize(Obj(a)).Ok? ==> Serialize(Obj(a)) == Serialize(Obj(b))
  {
    PermutedAlike(a, b);
    SerializableIffMeaningful(Obj(a));
    SerializableIffMeaningful(Obj(b));
    if Serialize(Obj(a)).Ok? {
      SerializationIsUnambiguous(Obj(a), Obj(b));
    }
  }
}

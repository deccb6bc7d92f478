/**
 A reader of JSON texts without fractions and white space (RFC 8259), written on its own: what
 `serializeCanonical` writes reads back as what was serialized, with the keys of every object
 ascending by code point.
 */
module JsonReading {
  import opened Outcomes
  import opened Digests
  import opened Sequences
  import opened Sorting
  import opened Texts
  import opened Canonical
  import opened CanonicalReading

  // ---------- the reader ----------

  /** The escapes of one letter (section 7). */
  const ESCAPES: map<char, int> :=
    map['"' := 0x22, '\\' := 0x5C, '/' := 0x2F, 'b' := 8, 'f' := 0xC, 'n' := 0xA, 'r' := 0xD, 't' := 9]

  function HexValue(x: Symbol): Result<nat> {
    if !x.Char? then Err("a hexadecimal digit expected")
    else if '0' <= x.c <= '9' then Ok(x.c as int - 48)
    else if 'a' <= x.c <= 'f' then Ok(x.c as int - 87)
    else if 'A' <= x.c <= 'F' then Ok(x.c as int - 55)
    else Err("a hexadecimal digit expected")
  }

  /** What follows a backslash; a lone half of a surrogate pair is no character. */
  function ReadEscape(t: Text): (r: Result<(char, Text)>)
    ensures r.Ok? ==> |r.value.1| < |t|
  {
    if t == [] || !t[0].Char? then Err("an escape expected")
    else if t[0].c in ESCAPES then Ok((ESCAPES[t[0].c] as char, t[1..]))
    else if t[0].c == 'u' && |t| >= 5 then
      var a :- HexValue(t[1]);
      var b :- HexValue(t[2]);
      var c :- HexValue(t[3]);
      var d :- HexValue(t[4]);
      var p := 0x1000 * a + 0x100 * b + 0x10 * c + d;
      if 0xD800 <= p < 0xE000 || p >= 0x1_0000 then Err("no character") else Ok((p as char, t[5..]))
    else Err("an escape expected")
  }

  /** The characters up to the closing quote, and what follows it. */
  function ReadChars(t: Text): (r: Result<(Text, Text)>)
    ensures r.Ok? ==> |r.value.1| < |t|
    decreases |t|
  {
    if t == [] then Err("a closing quote expected")
    else if t[0] == Char('"') then Ok(([], t[1..]))
    else if t[0] == Char('\\') then
      var first :- ReadEscape(t[1..]);
      var rest :- ReadChars(first.1);
      Ok(([Char(first.0)] + rest.0, rest.1))
    else if t[0].Char? && t[0].c as int < 0x20 then Err("a control character in a string")
    else
      var rest :- ReadChars(t[1..]);
      Ok(([t[0]] + rest.0, rest.1))
  }

  predicate StartsWithDigit(t: Text) {
    t != [] && t[0].Char? && '0' <= t[0].c <= '9'
  }

  /** The decimal number that goes on with these digits. */
  function ReadDigits(value: nat, t: Text): (r: (nat, Text))
    ensures |r.1| <= |t| && (StartsWithDigit(t) ==> |r.1| < |t|)
    decreases |t|
  {
    if StartsWithDigit(t) then ReadDigits(10 * value + (t[0].c as int - '0' as int), t[1..]) else (value, t)
  }

  /** No digit may follow a leading zero (section 6). */
  function ReadNat(t: Text): (r: Result<(nat, Text)>)
    ensures r.Ok? ==> |r.value.1| < |t|
  {
    if !StartsWithDigit(t) then Err("a digit expected")
    else if t[0].c == '0' && StartsWithDigit(t[1..]) then Err("a leading zero")
    else Ok(ReadDigits(0, t))
  }

  function ReadInt(t: Text): (r: Result<(Canon, Text)>)
    ensures r.Ok? ==> |r.value.1| < |t|
  {
    if t != [] && t[0] == Char('-') then
      var n :- ReadNat(t[1..]);
      Ok((CInt(0 - n.0), n.1))
    else
      var n :- ReadNat(t);
      Ok((CInt(n.0), n.1))
  }

  predicate StartsWith(t: Text, word: string) {
    |word| <= |t| && forall i | 0 <= i < |word| :: t[i] == Char(word[i])
  }

  predicate At(t: Text, c: char) {
    t != [] && t[0] == Char(c)
  }

  function ReadValue(t: Text): (r: Result<(Canon, Text)>)
    ensures r.Ok? ==> |r.value.1| < |t|
    decreases |t|, 1
  {
    if At(t, '"') then
      var s :- ReadChars(t[1..]);
      Ok((CStr(s.0), s.1))
    else if At(t, '[') then
      if At(t[1..], ']') then Ok((CArr([]), t[2..]))
      else
        var items :- ReadItems(t[1..]);
        Ok((CArr(items.0), items.1))
    else if At(t, '{') then
      if At(t[1..], '}') then Ok((CObj([]), t[2..]))
      else
        var members :- ReadMembers(t[1..]);
        Ok((CObj(members.0), members.1))
    else if StartsWith(t, "null") then Ok((CNull, t[4..]))
    else if StartsWith(t, "true") then Ok((CBool(true), t[4..]))
    else if StartsWith(t, "false") then Ok((CBool(false), t[5..]))
    else ReadInt(t)
  }

  /** One or more values with commas between them, and the closing bracket. */
  function ReadItems(t: Text): (r: Result<(seq<Canon>, Text)>)
    ensures r.Ok? ==> |r.value.1| < |t|
    decreases |t|, 2
  {
    var first :- ReadValue(t);
    if At(first.1, ']') then Ok(([first.0], first.1[1..]))
    else if At(first.1, ',') then
      var rest :- ReadItems(first.1[1..]);
      Ok(([first.0] + rest.0, rest.1))
    else Err("a comma or a closing bracket expected")
  }

  /** A key as characters. */
  function Spelled(t: Text): Result<string> {
    if exists i | 0 <= i < |t| :: !t[i].Char? then Err("a key of characters expected")
    else Ok(seq(|t|, i requires 0 <= i < |t| => t[i].c))
  }

  function ReadMember(t: Text): (r: Result<(CMember, Text)>)
    ensures r.Ok? ==> |r.value.1| < |t|
    decreases |t|, 2
  {
    if !At(t, '"') then Err("a key expected")
    else
      var quoted :- ReadChars(t[1..]);
      var key :- Spelled(quoted.0);
      if !At(quoted.1, ':') then Err("a colon expected")
      else
        var value :- ReadValue(quoted.1[1..]);
        Ok((CMember(key, value.0), value.1))
  }

  /** One or more members in the order of the text. */
  function ReadMembers(t: Text): (r: Result<(seq<CMember>, Text)>)
    ensures r.Ok? ==> |r.value.1| < |t|
    decreases |t|, 3
  {
    var first :- ReadMember(t);
    if At(first.1, '}') then Ok(([first.0], first.1[1..]))
    else if At(first.1, ',') then
      var rest :- ReadMembers(first.1[1..]);
      Ok(([first.0] + rest.0, rest.1))
    else Err("a comma or a closing brace expected")
  }

  /** A whole text: one value and nothing else. */
  function ReadText(t: Text): Result<Canon> {
    var value :- ReadValue(t);
    if value.1 == [] then Ok(value.0) else Err("something follows the value")
  }

  // ---------- strings are read as they were ----------

  /** The reading of one more symbol in front. */
  function Behind(x: Symbol, rest: Result<(Text, Text)>): Result<(Text, Text)> {
    if rest.Ok? then Ok(([x] + rest.value.0, rest.value.1)) else rest
  }

  lemma EscapeReads(x: Symbol, s: Text)
    ensures ReadChars(Escape(x) + s) == Behind(x, ReadChars(s))
  {
    if |Escape(x)| == 1 {
      assert Escape(x) == [x] && ([x] + s)[1..] == s;
    } else {
      BackslashReads(x, s);
      assert (Escape(x) + s)[0] == Char('\\');
    }
  }

  lemma BackslashReads(x: Symbol, s: Text)
    requires |Escape(x)| != 1
    ensures Escape(x)[0] == Char('\\') && x.Char? && ReadEscape((Escape(x) + s)[1..]) == Ok((x.c, s))
  {
    if |Escape(x)| == 2 {
      LetterEscapeReads(x, s);
    } else {
      UnicodeEscapeReads(x, s);
    }
  }

  lemma LetterEscapeReads(x: Symbol, s: Text)
    requires |Escape(x)| == 2
    ensures x.Char? && ReadEscape((Escape(x) + s)[1..]) == Ok((x.c, s))
  {
    var t := (Escape(x) + s)[1..];
    assert t[0] == Escape(x)[1] && t[1..] == s;
  }

  lemma UnicodeEscapeReads(x: Symbol, s: Text)
    requires |Escape(x)| == 6
    ensures x.Char? && ReadEscape((Escape(x) + s)[1..]) == Ok((x.c, s))
  {
    var p, t := x.c as int, (Escape(x) + s)[1..];
    assert t[0] == Char('u') && t[1] == Char('0') && t[2] == Char('0');
    assert t[3] == Char(HexDigit(p / 16)) && t[4] == Char(HexDigit(p % 16)) && t[5..] == s;
    assert HexValue(t[3]) == Ok(p / 16) && HexValue(t[4]) == Ok(p % 16);
  }

  lemma {:induction false} EscapedReads(a: Text, s: Text)
    ensures ReadChars(EscapeAll(a) + ([Char('"')] + s)) == Ok((a, s))
  {
    if a == [] {
      assert EscapeAll(a) + ([Char('"')] + s) == [Char('"')] + s && ([Char('"')] + s)[1..] == s;
    } else {
      EscapedReads(a[1..], s);
      EscapeReads(a[0], EscapeAll(a[1..]) + ([Char('"')] + s));
      Regroup(Escape(a[0]), EscapeAll(a[1..]), [Char('"')] + s);
      HeadAndTail(a);
    }
  }

  lemma QuoteReads(a: Text, s: Text)
    ensures At(Quote(a) + s, '"') && ReadChars((Quote(a) + s)[1..]) == Ok((a, s))
  {
    var q := [Char('"')];
    Regroup(q, EscapeAll(a), q);
    Regroup(q, EscapeAll(a) + q, s);
    Regroup(EscapeAll(a), q, s);
    assert (q + (EscapeAll(a) + (q + s)))[1..] == EscapeAll(a) + (q + s);
    EscapedReads(a, s);
  }

  // ---------- numbers ----------

  function Folded(value: nat, digits: string): nat
    requires AllDigits(digits)
    decreases |digits|
  {
    if digits == "" then value else Folded(10 * value + (digits[0] as int - '0' as int), digits[1..])
  }

  lemma {:induction false} DigitsRead(value: nat, digits: string, s: Text)
    requires AllDigits(digits) && !StartsWithDigit(s)
    ensures ReadDigits(value, Chars(digits) + s) == (Folded(value, digits), s)
    decreases |digits|
  {
    if digits == "" {
      assert Chars(digits) + s == s;
    } else {
      assert (Chars(digits) + s)[1..] == Chars(digits[1..]) + s;
      DigitsRead(10 * value + (digits[0] as int - '0' as int), digits[1..], s);
    }
  }

  lemma {:induction false} FoldedAppend(value: nat, digits: string, d: char)
    requires AllDigits(digits) && IsDigit(d)
    ensures Folded(value, digits + [d]) == 10 * Folded(value, digits) + (d as int - '0' as int)
    decreases |digits|
  {
    if digits == "" {
      assert digits + [d] == [d];
    } else {
      assert (digits + [d])[1..] == digits[1..] + [d];
      FoldedAppend(10 * value + (digits[0] as int - '0' as int), digits[1..], d);
    }
  }

  lemma {:induction false} FoldedPrint(n: nat)
    ensures Folded(0, PrintNat(n)) == n
  {
    if n >= 10 {
      FoldedPrint(n / 10);
      FoldedAppend(0, PrintNat(n / 10), DigitChar(n % 10));
    }
  }

  lemma NoLeadingZero(n: nat)
    ensures PrintNat(n)[0] == '0' ==> PrintNat(n) == "0"
  {
  }

  lemma NatReads(n: nat, s: Text)
    requires !StartsWithDigit(s)
    ensures ReadNat(Chars(PrintNat(n)) + s) == Ok((n, s))
  {
    var t := Chars(PrintNat(n)) + s;
    assert t[0] == Char(PrintNat(n)[0]) && IsDigit(PrintNat(n)[0]);
    NoLeadingZero(n);
    assert PrintNat(n) == "0" ==> t[1..] == s;
    DigitsRead(0, PrintNat(n), s);
    FoldedPrint(n);
  }

  lemma IntReads(i: int, s: Text)
    requires Ends(s)
    ensures ReadValue(Chars(PrintInt(i)) + s) == Ok((CInt(i), s))
  {
    var n := if i < 0 then -i else i;
    var t := Chars(PrintInt(i)) + s;
    NatReads(n, s);
    assert IsDigit(PrintNat(n)[0]) && t[0] == Char(PrintInt(i)[0]);
    if i < 0 {
      CharsConcat("-", PrintNat(n));
      assert t[1..] == Chars(PrintNat(n)) + s;
    }
    assert ReadInt(t) == Ok((CInt(i), s));
  }

  // ---------- trees ----------

  lemma WordReads(w: string, s: Text)
    ensures StartsWith(Chars(w) + s, w) && (Chars(w) + s)[|w|..] == s
  {
  }

  lemma KeywordReads(c: Canon, s: Text)
    requires c.CNull? || c.CBool?
    ensures ReadValue(Print(c) + s) == Ok((c, s))
  {
    var w := if c.CNull? then "null" else if c.b then "true" else "false";
    var t := Chars(w) + s;
    WordReads(w, s);
    assert t[0] == Char(w[0]);
  }

  lemma ConsReads(c: char, rest: Text)
    ensures At([Char(c)] + rest, c) && ([Char(c)] + rest)[0] == Char(c) && ([Char(c)] + rest)[1..] == rest
  {
  }

  lemma {:induction false} TreeReads(c: Canon, s: Text)
    requires Ends(s)
    ensures ReadValue(Print(c) + s) == Ok((c, s))
    decreases c, 1
  {
    match c
    case CNull => KeywordReads(c, s);
    case CBool(b) => KeywordReads(c, s);
    case CInt(i) => IntReads(i, s);
    case CStr(a) => StringReads(a, s);
    case CArr(items) => ArrayReads(items, s);
    case CObj(members) => ObjectReads(members, s);
  }

  lemma StringReads(a: Text, s: Text)
    ensures ReadValue(Quote(a) + s) == Ok((CStr(a), s))
  {
    QuoteReads(a, s);
    assert (Quote(a) + s)[0] == Char('"');
  }

  lemma {:induction false} ArrayReads(items: seq<Canon>, s: Text)
    requires Ends(s)
    ensures ReadValue(Print(CArr(items)) + s) == Ok((CArr(items), s))
    decreases items, 1
  {
    var body := ArrayBody(items) + s;
    Regroup([Char('[')], ArrayBody(items), s);
    ConsReads('[', body);
    if items == [] {
      ConsReads(']', s);
      assert ([Char('[')] + body)[2..] == s;
    } else {
      PrintStart(items[0], PrintItems(items[1..]) + s);
      Regroup(Print(items[0]), PrintItems(items[1..]), s);
      assert !At(body, ']');
      ItemsRead(items, s);
    }
  }

  lemma {:induction false} ItemsRead(items: seq<Canon>, s: Text)
    requires Ends(s) && items != []
    ensures ReadItems(Print(items[0]) + PrintItems(items[1..]) + s) == Ok((items, s))
    decreases items, 0
  {
    var rest := items[1..];
    var more := PrintItems(rest) + s;
    Regroup(Print(items[0]), PrintItems(rest), s);
    HeadAndTail(items);
    if rest == [] {
      ConsReads(']', s);
      assert items == [items[0]];
    } else {
      var next := Print(rest[0]) + PrintItems(rest[1..]) + s;
      ItemsGoOn(rest, s);
      ConsReads(',', next);
      ItemsRead(rest, s);
    }
    TreeReads(items[0], more);
  }

  lemma ItemsGoOn(rest: seq<Canon>, s: Text)
    requires rest != []
    ensures PrintItems(rest) + s == [Char(',')] + (Print(rest[0]) + PrintItems(rest[1..]) + s)
  {
    Regroup([Char(',')], Print(rest[0]), PrintItems(rest[1..]));
    Regroup([Char(',')], Print(rest[0]) + PrintItems(rest[1..]), s);
  }

  lemma SpelledChars(key: string)
    ensures Spelled(Chars(key)) == Ok(key)
  {
    var t := Chars(key);
    assert forall i | 0 <= i < |t| :: t[i].Char?;
    assert seq(|t|, i requires 0 <= i < |t| => t[i].c) == key;
  }

  lemma {:induction false} MemberReads(m: CMember, s: Text)
    requires Ends(s)
    ensures ReadMember(PrintMember(m) + s) == Ok((m, s))
    decreases m, 2
  {
    var colon, value := [Char(':')], Print(m.value) + s;
    Regroup(Quote(Chars(m.key)), colon, Print(m.value));
    Regroup(Quote(Chars(m.key)), colon + Print(m.value), s);
    Regroup(colon, Print(m.value), s);
    QuoteReads(Chars(m.key), colon + value);
    SpelledChars(m.key);
    assert (colon + value)[1..] == value;
    TreeReads(m.value, s);
  }

  lemma {:induction false} ObjectReads(members: seq<CMember>, s: Text)
    requires Ends(s)
    ensures ReadValue(Print(CObj(members)) + s) == Ok((CObj(members), s))
    decreases members, 1
  {
    var body := ObjectBody(members) + s;
    Regroup([Char('{')], ObjectBody(members), s);
    ConsReads('{', body);
    if members == [] {
      ConsReads('}', s);
      assert ([Char('{')] + body)[2..] == s;
    } else {
      ObjectBodyStart(members, s);
      assert !At(body, '}');
      MembersRead(members, s);
    }
  }

  lemma {:induction false} MembersRead(members: seq<CMember>, s: Text)
    requires Ends(s) && members != []
    ensures ReadMembers(PrintMember(members[0]) + PrintMembers(members[1..]) + s) == Ok((members, s))
    decreases members, 0
  {
    var rest := members[1..];
    var more := PrintMembers(rest) + s;
    Regroup(PrintMember(members[0]), PrintMembers(rest), s);
    HeadAndTail(members);
    if rest == [] {
      ConsReads('}', s);
      assert members == [members[0]];
    } else {
      var next := PrintMember(rest[0]) + PrintMembers(rest[1..]) + s;
      MembersGoOn(rest, s);
      ConsReads(',', next);
      MembersRead(rest, s);
    }
    MemberReads(members[0], more);
  }

  lemma MembersGoOn(rest: seq<CMember>, s: Text)
    requires rest != []
    ensures PrintMembers(rest) + s == [Char(',')] + (PrintMember(rest[0]) + PrintMembers(rest[1..]) + s)
  {
    Regroup([Char(',')], PrintMember(rest[0]), PrintMembers(rest[1..]));
    Regroup([Char(',')], PrintMember(rest[0]) + PrintMembers(rest[1..]), s);
  }

  // ---------- what is read ----------

  /** `a` comes before `b` by code point: at the first difference, or because it is shorter. */
  ghost predicate Before(a: string, b: string) {
    exists k {:trigger a[..k]} :: 0 <= k <= |a| && k <= |b| && a[..k] == b[..k]
      && (if k < |a| then k < |b| && a[k] < b[k] else k < |b|)
  }

  /** In every object the keys are strictly ascending by code point. */
  ghost predicate KeysAscend(c: Canon) {
    match c
    case CArr(items) => forall i | 0 <= i < |items| :: KeysAscend(items[i])
    case CObj(members) =>
      && (forall i, j | 0 <= i < j < |members| :: Before(members[i].key, members[j].key))
      && forall i | 0 <= i < |members| :: KeysAscend(members[i].value)
    case _ => true
  }

  /** The tree stands for this meaning: the same leaves and items, and the members as a map. */
  ghost predicate StandsFor(c: Canon, m: Meaning) {
    match c
    case CNull => m.MNull?
    case CBool(b) => m == MBool(b)
    case CInt(i) => m == MInt(i)
    case CStr(s) => m == MStr(s)
    case CArr(items) => m.MArr? && |m.items| == |items| && forall i | 0 <= i < |items| :: StandsFor(items[i], m.items[i])
    case CObj(members) =>
      && m.MObj? && (forall k :: k in m.members <==> exists i | 0 <= i < |members| :: members[i].key == k)
      && forall i | 0 <= i < |members| :: StandsFor(members[i].value, m.members[members[i].key])
  }

  lemma PointsTaken(a: string, k: nat)
    requires k <= |a|
    ensures CodePoints(a)[..k] == CodePoints(a[..k])
  {
  }

  /** The comparison of keys is the order by code point. */
  lemma BeforeIsNegative(a: string, b: string)
    ensures CompareByCodePoint(a, b) < 0 <==> Before(a, b)
  {
    var x, y := CodePoints(a), CodePoints(b);
    PrecedesIsNegative(x, y);
    if Precedes(x, y) {
      var k :| 0 <= k <= |x| && k <= |y| && x[..k] == y[..k] && (if k < |x| then k < |y| && x[k] < y[k] else k < |y|);
      PointsTaken(a, k);
      PointsTaken(b, k);
      CodePointsInjective(a[..k], b[..k]);
    }
    if Before(a, b) {
      var k :| 0 <= k <= |a| && k <= |b| && a[..k] == b[..k] && (if k < |a| then k < |b| && a[k] < b[k] else k < |b|);
      PointsTaken(a, k);
      PointsTaken(b, k);
      assert x[..k] == y[..k];
    }
  }

  /** The order of keys is not the order of strings: beyond the basic plane they disagree. */
  lemma OrdersDisagree(c: char, d: char)
    requires c as int >= 0x1_0000 && 0xE000 <= d as int < 0x1_0000
    ensures CompareStrings([c], [d]) < 0 && CompareByCodePoint([d], [c]) < 0
  {
    UnitsOfOne(c);
    UnitsOfOne(d);
    assert CodePoints([c])[0] == c as int && CodePoints([d])[0] == d as int;
  }

  lemma {:induction false} InOrderAscends(c: Canon)
    requires InOrder(c)
    ensures KeysAscend(c)
    decreases c
  {
    match c
    case CArr(items) =>
      forall i | 0 <= i < |items| ensures KeysAscend(items[i]) {
        ItemInOrder(items, i);
        InOrderAscends(items[i]);
      }
    case CObj(members) =>
      MembersInOrderAll(members);
      forall i, j | 0 <= i < j < |members| ensures Before(members[i].key, members[j].key) {
        CompareSeqIsAntisymmetric(CodePoints(members[i].key), CodePoints(members[j].key));
        if CompareKeys(members[i], members[j]) == 0 {
          CodePointsInjective(members[i].key, members[j].key);
        }
        BeforeIsNegative(members[i].key, members[j].key);
      }
      forall i | 0 <= i < |members| ensures KeysAscend(members[i].value) {
        assert members[i] in members;
        InOrderAscends(members[i].value);
      }
    case _ =>
  }

  lemma {:induction false} ItemInOrder(items: seq<Canon>, i: nat)
    requires AllInOrder(items) && i < |items|
    ensures InOrder(items[i])
  {
    if i > 0 {
      ItemInOrder(items[1..], i - 1);
    }
  }

  lemma {:induction false} ItemMeaningAt(items: seq<Canon>, i: nat)
    requires i < |items|
    ensures ItemMeanings(items)[i] == TreeMeaning(items[i])
  {
    if i > 0 {
      ItemMeaningAt(items[1..], i - 1);
    }
  }

  lemma {:induction false} TreeStandsForMeaning(c: Canon)
    requires InOrder(c)
    ensures StandsFor(c, TreeMeaning(c))
    decreases c
  {
    match c
    case CArr(items) =>
      forall i | 0 <= i < |items| ensures StandsFor(items[i], TreeMeaning(c).items[i]) {
        ItemInOrder(items, i);
        ItemMeaningAt(items, i);
        TreeStandsForMeaning(items[i]);
      }
    case CObj(members) =>
      MembersInOrderAll(members);
      MemberMeaningsAre(members);
      forall i | 0 <= i < |members| ensures StandsFor(members[i].value, TreeMeaning(c).members[members[i].key]) {
        assert members[i] in members;
        TreeStandsForMeaning(members[i].value);
      }
    case _ =>
  }

  /**
   What was serialized is what is read: the text of a value is one JSON text, its tree stands for the
   value's meaning, and the keys of every object are strictly ascending by code point.
   */
  lemma {:induction false} SerializedReadsBack(v: Value)
    requires Serialize(v).Ok?
    ensures MeaningOf(v).Ok?
    ensures ReadText(Serialize(v).value).Ok?
    ensures StandsFor(ReadText(Serialize(v).value).value, MeaningOf(v).value)
    ensures KeysAscend(ReadText(Serialize(v).value).value)
  {
    CanonizeKeepsMeaning(v);
    var c := Canonize(v).value;
    TreeReads(c, []);
    assert Print(c) + [] == Print(c);
    TreeStandsForMeaning(c);
    InOrderAscends(c);
  }

  /** A tree stands for one meaning only. */
  lemma {:induction false} StandsForOne(c: Canon, m: Meaning, n: Meaning)
    requires StandsFor(c, m) && StandsFor(c, n)
    ensures m == n
    decreases c
  {
    match c
    case CArr(items) =>
      forall i | 0 <= i < |items| ensures m.items[i] == n.items[i] {
        StandsForOne(items[i], m.items[i], n.items[i]);
      }
    case CObj(members) =>
      forall k | k in m.members ensures k in n.members && m.members[k] == n.members[k] {
        var i :| 0 <= i < |members| && members[i].key == k;
        StandsForOne(members[i].value, m.members[k], n.members[k]);
      }
      assert m.members.Keys == n.members.Keys;
      assert m.members == n.members;
    case _ =>
  }
}

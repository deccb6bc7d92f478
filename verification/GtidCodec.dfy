/**
 Reading GTID texts (services/cdc-collector/src/completeness/gtid.ts) and the round trip
 between the printed form of a set and the MySQL codec.  Lower-casing is modelled on ASCII.
 */
module GtidCodec {
  import opened Outcomes
  import opened Texts
  import opened Intervals
  import opened Gtid
  import opened Sequences
  import Sorting

  // ---------- character classes ----------

  /** The characters `\s` and `trim` treat as white space. */
  predicate IsSpace(c: char) {
    var p := c as int;
    9 <= p <= 13 || p == 0x20 || p == 0xA0 || p == 0x1680 || 0x2000 <= p <= 0x200A || p == 0x2028 || p == 0x2029
    || p == 0x202F || p == 0x205F || p == 0x3000 || p == 0xFEFF
  }

  predicate NoSpace(s: string) {
    forall i | 0 <= i < |s| :: !IsSpace(s[i])
  }

  function Trim(s: string): string {
    if s == "" then ""
    else if IsSpace(s[0]) then Trim(s[1..])
    else if IsSpace(s[|s| - 1]) then Trim(s[..|s| - 1])
    else s
  }

  function RemoveSpace(s: string): string {
    if s == "" then "" else (if IsSpace(s[0]) then "" else [s[0]]) + RemoveSpace(s[1..])
  }

  lemma {:induction false} RemoveSpaceKeeps(s: string)
    requires NoSpace(s)
    ensures RemoveSpace(s) == s
  {
    if s != "" {
      RemoveSpaceKeeps(s[1..]);
      assert s == [s[0]] + s[1..];
    }
  }

  function LowerChar(c: char): char {
    if 'A' <= c <= 'Z' then (c as int + 32) as char else c
  }

  function ToLower(s: string): string {
    seq(|s|, i requires 0 <= i < |s| => LowerChar(s[i]))
  }

  // ---------- parsing ----------

  predicate IsNumeral(s: string) {
    s != "" && AllDigits(s)
  }

  /** `^(\d+)(?:-(\d+))?$` on the trimmed text. */
  function ParseRange(range: string): Option<Interval> {
    var parts := Split(Trim(range), '-');
    if |parts| == 1 && IsNumeral(parts[0]) then Some(Interval(ParseNat(parts[0]), ParseNat(parts[0])))
    else if |parts| == 2 && IsNumeral(parts[0]) && IsNumeral(parts[1])
    then Some(Interval(ParseNat(parts[0]), ParseNat(parts[1])))
    else None
  }

  function ParseRanges(key: string, ranges: seq<string>): seq<Tagged> {
    if ranges == [] then []
    else
      var first := ParseRange(ranges[0]);
      (if first.Some? then [Tagged(key, first.value)] else []) + ParseRanges(key, ranges[1..])
  }

  datatype Engine = MySql | MariaDb

  function MySqlToken(token: string): seq<Tagged> {
    var parts := Split(Trim(token), ':');
    if |parts| < 2 then [] else ParseRanges(ToLower(parts[0]), parts[1..])
  }

  /** domain-server-sequence, keyed by domain */
  function MariaDbToken(token: string): seq<Tagged> {
    var parts := Split(Trim(token), '-');
    if |parts| == 3 && IsNumeral(parts[0]) && IsNumeral(parts[1]) && IsNumeral(parts[2])
    then [Tagged(parts[0], Interval(ParseNat(parts[2]), ParseNat(parts[2])))]
    else []
  }

  function ParseToken(engine: Engine, token: string): seq<Tagged> {
    if engine.MySql? then MySqlToken(token) else MariaDbToken(token)
  }

  function ParseTokens(engine: Engine, tokens: seq<string>): seq<Tagged> {
    if tokens == [] then []
    else (if tokens[0] == "" then [] else ParseToken(engine, tokens[0])) + ParseTokens(engine, tokens[1..])
  }

  function ParseExecuted(engine: Engine, text: string): seq<Tagged> {
    ParseTokens(engine, Split(RemoveSpace(text), ','))
  }

  /** `GtidSet.parse` */
  function Parse(engine: Engine, text: string): GtidMap {
    AddedAll(EMPTY, ParseExecuted(engine, text))
  }

  // ---------- the round trip ----------

  /** Keys the printed form can carry: lower case, without separators or white space. */
  ghost predicate PlainKey(key: string) {
    ToLower(key) == key && NoSpace(key) && ':' !in key && ',' !in key
  }

  lemma NumeralIsPlain(n: nat)
    ensures IsNumeral(PrintNat(n)) && NoSpace(PrintNat(n))
    ensures '-' !in PrintNat(n) && ':' !in PrintNat(n) && ',' !in PrintNat(n)
  {
  }

  lemma RangeRoundTrip(iv: Interval)
    ensures ParseRange(RangeText(iv)) == Some(iv)
    ensures NoSpace(RangeText(iv)) && ':' !in RangeText(iv) && ',' !in RangeText(iv)
  {
    NumeralIsPlain(iv.start);
    NumeralIsPlain(iv.end);
    ParsePrint(iv.start);
    ParsePrint(iv.end);
    if iv.start == iv.end {
      SplitWord(PrintNat(iv.start), '-');
    } else {
      var parts := [PrintNat(iv.start), PrintNat(iv.end)];
      assert RangeText(iv) == JoinWith(parts, '-') == PrintNat(iv.start) + ['-'] + PrintNat(iv.end);
      SplitJoin(parts, '-');
    }
  }

  /** A single number is printed as one, and a range with a hyphen between its ends. */
  lemma HyphenIff(iv: Interval)
    ensures '-' in RangeText(iv) <==> iv.start != iv.end
  {
    NumeralIsPlain(iv.start);
    if iv.start != iv.end {
      var text := RangeText(iv);
      assert text[|PrintNat(iv.start)|] == '-';
    }
  }

  function TagAll(key: string, ivs: seq<Interval>): seq<Tagged> {
    seq(|ivs|, i requires 0 <= i < |ivs| => Tagged(key, ivs[i]))
  }

  lemma FirstRange(key: string, ivs: seq<Interval>)
    requires ivs != []
    ensures RangeTexts(ivs)[1..] == RangeTexts(ivs[1..])
    ensures TagAll(key, ivs) == [Tagged(key, ivs[0])] + TagAll(key, ivs[1..])
  {
  }

  lemma {:induction false} RangesRoundTrip(key: string, ivs: seq<Interval>)
    ensures ParseRanges(key, RangeTexts(ivs)) == TagAll(key, ivs)
  {
    if ivs != [] {
      RangeRoundTrip(ivs[0]);
      RangesRoundTrip(key, ivs[1..]);
      FirstRange(key, ivs);
    }
  }

  ghost predicate PlainParts(parts: seq<string>) {
    forall i | 0 <= i < |parts| :: NoSpace(parts[i]) && ',' !in parts[i]
  }

  lemma {:induction false} JoinIsPlain(parts: seq<string>, sep: char)
    requires PlainParts(parts) && !IsSpace(sep)
    ensures NoSpace(JoinWith(parts, sep))
    ensures sep != ',' ==> ',' !in JoinWith(parts, sep)
  {
    if |parts| > 1 {
      JoinIsPlain(parts[1..], sep);
    }
  }

  lemma {:induction false} EntryRoundTrip(key: string, ivs: seq<Interval>)
    requires PlainKey(key) && ivs != []
    ensures MySqlToken(EntryText(key, ivs)) == TagAll(key, ivs)
    ensures NoSpace(EntryText(key, ivs)) && ',' !in EntryText(key, ivs) && EntryText(key, ivs) != ""
  {
    var ranges := RangeTexts(ivs);
    forall i | 0 <= i < |ranges| ensures NoSpace(ranges[i]) && ':' !in ranges[i] && ',' !in ranges[i] {
      RangeRoundTrip(ivs[i]);
    }
    JoinIsPlain(ranges, ':');
    var text := EntryText(key, ivs);
    assert text == key + [':'] + JoinWith(ranges, ':');
    assert NoSpace(text);
    SplitFirst(key, ':', JoinWith(ranges, ':'));
    SplitJoin(ranges, ':');
    RangesRoundTrip(key, ivs);
  }

  function EntriesOf(m: GtidMap, keys: seq<string>): seq<Tagged> {
    if keys == [] then [] else TagAll(keys[0], m.For(keys[0])) + EntriesOf(m, keys[1..])
  }

  lemma {:induction false} EntriesRoundTrip(m: GtidMap, keys: seq<string>)
    requires forall i | 0 <= i < |keys| :: PlainKey(keys[i]) && m.For(keys[i]) != []
    ensures ParseTokens(MySql, EntryTexts(m, keys)) == EntriesOf(m, keys)
    ensures PlainParts(EntryTexts(m, keys))
  {
    if keys != [] {
      EntryRoundTrip(keys[0], m.For(keys[0]));
      assert EntryTexts(m, keys)[1..] == EntryTexts(m, keys[1..]);
      EntriesRoundTrip(m, keys[1..]);
    }
  }

  lemma {:induction false} TextParsesToEntries(m: GtidMap, keys: seq<string>)
    requires forall i | 0 <= i < |keys| :: PlainKey(keys[i]) && m.For(keys[i]) != []
    ensures ParseExecuted(MySql, JoinWith(EntryTexts(m, keys), ',')) == EntriesOf(m, keys)
  {
    var entries := EntryTexts(m, keys);
    EntriesRoundTrip(m, keys);
    JoinIsPlain(entries, ',');
    RemoveSpaceKeeps(JoinWith(entries, ','));
    if keys != [] {
      SplitJoin(entries, ',');
    }
  }

  lemma TaggedCover(k: string, ivs: seq<Interval>, key: string, n: int)
    ensures WasAdded(TagAll(k, ivs), key, n) <==> key == k && Covers(ivs, n)
  {
    if key == k && Covers(ivs, n) {
      var i :| 0 <= i < |ivs| && ivs[i].Has(n);
      assert TagAll(k, ivs)[i].iv.Has(n);
    }
    if WasAdded(TagAll(k, ivs), key, n) {
      var i :| 0 <= i < |ivs| && TagAll(k, ivs)[i].key == key && TagAll(k, ivs)[i].iv.Has(n);
      assert ivs[i].Has(n);
    }
  }

  lemma WasAddedConcat(a: seq<Tagged>, b: seq<Tagged>, key: string, n: int)
    ensures WasAdded(a + b, key, n) <==> WasAdded(a, key, n) || WasAdded(b, key, n)
  {
    var all := a + b;
    if WasAdded(a, key, n) {
      var i :| 0 <= i < |a| && a[i].key == key && a[i].iv.Has(n);
      assert all[i].iv.Has(n);
    }
    if WasAdded(b, key, n) {
      var i :| 0 <= i < |b| && b[i].key == key && b[i].iv.Has(n);
      assert all[|a| + i].iv.Has(n);
    }
  }

  lemma {:induction false} OfTagged(k: string, ivs: seq<Interval>, key: string)
    ensures Of(TagAll(k, ivs), key) == if key == k then ivs else []
  {
    if ivs != [] {
      assert TagAll(k, ivs)[..|ivs| - 1] == TagAll(k, ivs[..|ivs| - 1]);
      OfTagged(k, ivs[..|ivs| - 1], key);
      InitAndLast(ivs);
    }
  }

  lemma {:induction false} OfConcat(a: seq<Tagged>, b: seq<Tagged>, key: string)
    ensures Of(a + b, key) == Of(a, key) + Of(b, key)
  {
    if b == [] {
      assert a + b == a;
    } else {
      assert (a + b)[..|a + b| - 1] == a + b[..|b| - 1];
      OfConcat(a, b[..|b| - 1], key);
    }
  }

  /** The entries of distinct keys hold each key's list as it is. */
  lemma {:induction false} EntriesHoldTheLists(m: GtidMap, keys: seq<string>, key: string)
    requires NoDuplicates(keys)
    ensures Of(EntriesOf(m, keys), key) == if key in keys then m.For(key) else []
  {
    if keys != [] {
      var first, rest := keys[0], keys[1..];
      assert keys == [first] + rest && first !in rest;
      EntriesHoldTheLists(m, rest, key);
      HeldOfFirst(first, m.For(first), EntriesOf(m, rest), key);
      assert (if key == first then m.For(first) else []) + (if key in rest then m.For(key) else []) == if key in keys then m.For(key) else [];
    }
  }

  lemma HeldOfFirst(k: string, ivs: seq<Interval>, rest: seq<Tagged>, key: string)
    ensures Of(TagAll(k, ivs) + rest, key) == (if key == k then ivs else []) + Of(rest, key)
  {
    OfTagged(k, ivs, key);
    OfConcat(TagAll(k, ivs), rest, key);
  }

  lemma SortedKeysAreTheKeys(m: GtidMap)
    requires m.Valid()
    ensures forall k :: k in Sorting.Sort(CompareStrings, m.keys) <==> k in m.ivs
  {
    var keys := Sorting.Sort(CompareStrings, m.keys);
    forall k ensures k in keys <==> k in m.ivs {
      Sorting.InMultiset(keys, m.keys, k);
    }
  }

  lemma SortedKeysAreDistinct(m: GtidMap)
    requires m.Valid()
    ensures NoDuplicates(Sorting.Sort(CompareStrings, m.keys))
  {
    var keys := Sorting.Sort(CompareStrings, m.keys);
    forall i, j | 0 <= i < j < |keys| ensures keys[i] != keys[j] {
      Sorting.TwoPlaces(keys, i, j);
      CountInDistinct(m.keys, keys[i]);
    }
  }

  lemma EntryIsHeld(m: GtidMap, keys: seq<string>, key: string)
    requires NoDuplicates(keys) && (forall k :: k in keys <==> k in m.ivs) && (key in m.ivs ==> Merge(m.ivs[key]) == m.ivs[key])
    ensures AddedAll(EMPTY, EntriesOf(m, keys)).For(key) == m.For(key)
  {
    HeldIsTheMerge(EntriesOf(m, keys), key);
    EntriesHoldTheLists(m, keys, key);
  }

  /** Parsing the printed form of a set with plain keys gives the same keys and lists, swapped ranges included. */
  lemma {:induction false} PrintParseRoundTrip(m: GtidMap)
    requires m.IsMerged() && forall k | k in m.ivs :: PlainKey(k)
    ensures Parse(MySql, ToText(m)).ivs == m.ivs
    ensures ToText(Parse(MySql, ToText(m))) == ToText(m)
  {
    var keys := Sorting.Sort(CompareStrings, m.keys);
    SortedKeysAreTheKeys(m);
    SortedKeysAreDistinct(m);
    TextParsesToEntries(m, keys);
    var entries := EntriesOf(m, keys);
    var parsed := AddedAll(EMPTY, entries);
    AddedAllKeepsValid(EMPTY, entries);
    forall key ensures parsed.For(key) == m.For(key) {
      EntryIsHeld(m, keys, key);
    }
    SameListsSameMap(parsed, m);
    TextForgetsKeyOrder(parsed, m);
  }

  /** The printed form lists the keys in ascending order. */
  lemma TextListsKeysInOrder(m: GtidMap) returns (keys: seq<string>)
    requires m.Valid()
    ensures ToText(m) == JoinWith(EntryTexts(m, keys), ',') && multiset(keys) == multiset(m.keys)
    ensures forall i, j | 0 <= i < j < |keys| :: Precedes(Units(keys[i]), Units(keys[j]))
  {
    keys := Sorting.Sort(CompareStrings, m.keys);
    SortedKeysAreDistinct(m);
    CompareStringsSorts(m.keys);
    Sorting.SortSorts(CompareStrings, m.keys);
    forall i, j | 0 <= i < j < |keys| ensures Precedes(Units(keys[i]), Units(keys[j])) {
      CompareStringsIsTotal(keys[i], keys[j]);
      StringOrderIsByUnits(keys[i], keys[j]);
    }
  }

  // ---------- which sets the codecs produce ----------

  lemma {:induction false} SplitPartsAreClean(s: string, sep: char, ok: char -> bool)
    requires forall i | 0 <= i < |s| :: ok(s[i])
    ensures forall p | 0 <= p < |Split(s, sep)| :: sep !in Split(s, sep)[p] && forall c | c in Split(s, sep)[p] :: ok(c)
  {
    if s != "" {
      SplitPartsAreClean(s[1..], sep, ok);
    }
  }

  lemma {:induction false} RemoveSpaceIsClean(s: string)
    ensures NoSpace(RemoveSpace(s))
  {
    if s != "" {
      RemoveSpaceIsClean(s[1..]);
    }
  }

  lemma TrimKeepsClean(s: string)
    requires NoSpace(s)
    ensures Trim(s) == s
  {
  }

  lemma {:induction false} RangesHaveTheirKey(key: string, ranges: seq<string>)
    ensures forall i | 0 <= i < |ParseRanges(key, ranges)| :: ParseRanges(key, ranges)[i].key == key
  {
    if ranges != [] {
      RangesHaveTheirKey(key, ranges[1..]);
    }
  }

  ghost predicate PlainTags(ts: seq<Tagged>) {
    forall i | 0 <= i < |ts| :: PlainKey(ts[i].key)
  }

  lemma {:induction false} TokenKeysArePlain(token: string)
    requires NoSpace(token) && ',' !in token
    ensures PlainTags(MySqlToken(token))
  {
    TrimKeepsClean(token);
    var ok := (c: char) => !IsSpace(c) && c != ',';
    SplitPartsAreClean(token, ':', ok);
    var key := Split(token, ':')[0];
    forall i | 0 <= i < |key| ensures ok(key[i]) && key[i] != ':' {
      assert key[i] in key;
    }
    RangesHaveTheirKey(ToLower(key), Split(token, ':')[1..]);
    assert ToLower(ToLower(key)) == ToLower(key);
  }

  lemma {:induction false} TokensKeysArePlain(tokens: seq<string>)
    requires PlainParts(tokens)
    ensures PlainTags(ParseTokens(MySql, tokens))
  {
    if tokens != [] {
      TokenKeysArePlain(tokens[0]);
      TokensKeysArePlain(tokens[1..]);
    }
  }

  /** Every set the MySQL codec reads survives printing and reading again. */
  lemma {:induction false} ParsedSetRoundTrips(text: string)
    ensures
      var m := Parse(MySql, text);
      m.IsMerged() && Parse(MySql, ToText(m)).ivs == m.ivs
  {
    var clean, ok := RemoveSpace(text), (c: char) => !IsSpace(c);
    RemoveSpaceIsClean(text);
    SplitPartsAreClean(clean, ',', ok);
    var tokens := Split(clean, ',');
    forall i | 0 <= i < |tokens| ensures NoSpace(tokens[i]) && ',' !in tokens[i] {
      forall j | 0 <= j < |tokens[i]| ensures !IsSpace(tokens[i][j]) {
        assert tokens[i][j] in tokens[i] && ok(tokens[i][j]);
      }
    }
    TokensKeysArePlain(tokens);
    var ts := ParseExecuted(MySql, text);
    AdditionsDenoteTheirUnion(ts);
    AdditionsAreMerged(ts);
    var m := Parse(MySql, text);
    forall k | k in m.ivs ensures PlainKey(k) {
      assert HasKey(ts, k);
    }
    PrintParseRoundTrip(m);
  }

  lemma {:induction false} SplitCoversTheText(s: string, sep: char, c: char)
    requires c in s && c != sep
    ensures exists p | 0 <= p < |Split(s, sep)| :: c in Split(s, sep)[p]
  {
    var rest := Split(s[1..], sep);
    if s[0] == sep || (s[0] != c && c in s[1..]) {
      assert s == [s[0]] + s[1..];
      SplitCoversTheText(s[1..], sep, c);
      var p :| 0 <= p < |rest| && c in rest[p];
      if s[0] == sep {
        assert Split(s, sep)[p + 1] == rest[p];
      } else {
        assert c in Split(s, sep)[p];
      }
    } else {
      assert c in Split(s, sep)[0];
    }
  }

  lemma {:induction false} MariaDbReadsNoColon(tokens: seq<string>)
    requires forall i | 0 <= i < |tokens| :: NoSpace(tokens[i]) && ':' in tokens[i]
    ensures ParseTokens(MariaDb, tokens) == []
  {
    if tokens != [] {
      TrimKeepsClean(tokens[0]);
      SplitCoversTheText(tokens[0], '-', ':');
      MariaDbReadsNoColon(tokens[1..]);
    }
  }

  lemma {:induction false} MariaDbReadsNoEntry(m: GtidMap, keys: seq<string>)
    requires forall i | 0 <= i < |keys| :: PlainKey(keys[i]) && m.For(keys[i]) != []
    ensures ParseExecuted(MariaDb, JoinWith(EntryTexts(m, keys), ',')) == []
  {
    var entries := EntryTexts(m, keys);
    EntriesRoundTrip(m, keys);
    JoinIsPlain(entries, ',');
    RemoveSpaceKeeps(JoinWith(entries, ','));
    if keys == [] {
      assert Split("", ',') == [""];
      assert ParseTokens(MariaDb, [""]) == [];
    } else {
      SplitJoin(entries, ',');
      forall i | 0 <= i < |entries| ensures ':' in entries[i] {
        assert entries[i][|keys[i]|] == ':';
      }
      MariaDbReadsNoColon(entries);
    }
  }

  /** The MariaDB codec cannot read the printed form: it comes back empty, whatever the set. */
  lemma {:induction false} MariaDbReadsNothingBack(m: GtidMap)
    requires m.Valid() && forall k | k in m.ivs :: PlainKey(k)
    ensures Parse(MariaDb, ToText(m)) == EMPTY
  {
    SortedKeysAreTheKeys(m);
    MariaDbReadsNoEntry(m, Sorting.Sort(CompareStrings, m.keys));
  }

  // ---------- single tokens ----------

  lemma {:induction false} JoinSplit(s: string, sep: char)
    ensures JoinWith(Split(s, sep), sep) == s
  {
    if s != "" {
      JoinSplit(s[1..], sep);
      var rest := Split(s[1..], sep);
      assert s == [s[0]] + s[1..];
      if s[0] == sep {
        assert ([""] + rest)[1..] == rest;
        assert JoinWith([""] + rest, sep) == "" + [sep] + JoinWith(rest, sep);
      } else if |rest| > 1 {
        assert ([[s[0]] + rest[0]] + rest[1..])[1..] == rest[1..];
        Regroup([s[0]], rest[0], [sep]);
        Regroup([s[0]], rest[0] + [sep], JoinWith(rest[1..], sep));
      }
    }
  }

  /** Domain, server and number, with hyphens. */
  ghost predicate Spells(text: string, d: string, server: string, n: string) {
    IsNumeral(d) && IsNumeral(server) && IsNumeral(n) && text == d + "-" + server + "-" + n
  }

  /** A MariaDB token is read exactly when it spells three numerals, and adds the number to the domain. */
  lemma MariaDbTokenIff(token: string, t: Tagged)
    ensures MariaDbToken(token) == [t] <==>
      exists d, server, n :: Spells(Trim(token), d, server, n) && t == Tagged(d, Interval(ParseNat(n), ParseNat(n)))
    ensures |MariaDbToken(token)| <= 1
  {
    var parts := Split(Trim(token), '-');
    JoinSplit(Trim(token), '-');
    if MariaDbToken(token) == [t] {
      JoinThree(parts[0], parts[1], parts[2]);
      assert parts == [parts[0], parts[1], parts[2]];
      assert Spells(Trim(token), parts[0], parts[1], parts[2]);
    }
    if d, server, n :| Spells(Trim(token), d, server, n) && t == Tagged(d, Interval(ParseNat(n), ParseNat(n))) {
      JoinThree(d, server, n);
      SplitJoin([d, server, n], '-');
    }
  }

  lemma JoinThree(a: string, b: string, c: string)
    ensures JoinWith([a, b, c], '-') == a + "-" + b + "-" + c
  {
    assert [a, b, c][1..] == [b, c] && [b, c][1..] == [c];
    assert JoinWith([b, c], '-') == b + "-" + c;
    Regroup(a + "-", b + "-", c);
    Regroup(a + "-", b, "-");
  }

  /** The key of a MySQL token is what stands before the colon, with its ASCII capitals lowered. */
  lemma MySqlTokenLowersItsKey(source: string, iv: Interval)
    requires NoSpace(source) && ':' !in source
    ensures var ts := MySqlToken(source + ":" + RangeText(iv));
      && |ts| == 1 && ts[0].iv == iv && |ts[0].key| == |source|
      && forall i | 0 <= i < |source| ::
           ts[0].key[i] as int == if 'A' <= source[i] <= 'Z' then source[i] as int + 32 else source[i] as int
  {
    var token := source + ":" + RangeText(iv);
    RangeRoundTrip(iv);
    TrimKeepsClean(token);
    SplitFirst(source, ':', RangeText(iv));
    SplitWord(RangeText(iv), ':');
    assert Split(token, ':') == [source, RangeText(iv)];
    assert [source, RangeText(iv)][1..] == [RangeText(iv)];
    assert ParseRanges(ToLower(source), [RangeText(iv)]) == [Tagged(ToLower(source), iv)] + ParseRanges(ToLower(source), []);
  }

  /** White space means nothing anywhere in a set. */
  lemma SpaceIsIgnored(engine: Engine, a: string, c: char, b: string)
    requires IsSpace(c)
    ensures Parse(engine, a + [c] + b) == Parse(engine, a + b)
  {
    SpaceIsRemoved(a, c, b);
  }

  lemma SpaceIsRemoved(a: string, c: char, b: string)
    requires IsSpace(c)
    ensures RemoveSpace(a + [c] + b) == RemoveSpace(a + b)
  {
    RemoveSpaceSplits(a + [c], b);
    RemoveSpaceSplits(a, [c]);
    RemoveSpaceSplits(a, b);
    assert RemoveSpace([c]) == "" + RemoveSpace("");
  }

  lemma {:induction false} RemoveSpaceSplits(a: string, b: string)
    ensures RemoveSpace(a + b) == RemoveSpace(a) + RemoveSpace(b)
  {
    if a == "" {
      assert a + b == b;
    } else {
      assert (a + b)[1..] == a[1..] + b;
      RemoveSpaceSplits(a[1..], b);
    }
  }
}

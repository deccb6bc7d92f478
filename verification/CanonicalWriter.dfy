/**
 The serializer as packages/canonical/src/serialize.ts runs it: a recursive writer that fills a
 key map in a loop, sorts the keys and joins the parts.  It is proved to compute `Serialize`.
 */
module CanonicalWriter {
  import opened Outcomes
  import opened Digests
  import opened Sequences
  import opened Sorting
  import opened Texts
  import opened Canonical
  import CanonicalReading
  import JsonReading

  /** The index loop over code points. */
  method CompareByCodePointLoop(a: string, b: string) returns (r: int)
    ensures r == CompareByCodePoint(a, b)
  {
    var n := if |a| < |b| then |a| else |b|;
    var ca, cb := CodePoints(a), CodePoints(b);
    for i := 0 to n
      invariant CompareSeq(ca[i..], cb[i..]) == CompareSeq(ca, cb)
    {
      if ca[i] != cb[i] {
        return ca[i] - cb[i];
      }
    }
    return |a| - |b|;
  }

  function JoinTexts(parts: seq<Text>): Text {
    if parts == [] then []
    else if |parts| == 1 then parts[0]
    else parts[0] + [Char(',')] + JoinTexts(parts[1..])
  }

  function PrintAll(items: seq<Canon>): seq<Text> {
    seq(|items|, i requires 0 <= i < |items| => Print(items[i]))
  }

  function PrintAllMembers(members: seq<CMember>): seq<Text> {
    seq(|members|, i requires 0 <= i < |members| => PrintMember(members[i]))
  }

  lemma {:induction false} JoinedItems(items: seq<Canon>)
    requires items != []
    ensures JoinTexts(PrintAll(items)) + [Char(']')] == Print(items[0]) + PrintItems(items[1..])
  {
    if |items| > 1 {
      var rest := items[1..];
      JoinedItems(rest);
      assert PrintAll(items)[1..] == PrintAll(rest);
      Regroup(Print(items[0]) + [Char(',')], JoinTexts(PrintAll(rest)), [Char(']')]);
      Regroup(Print(items[0]), [Char(',')], Print(rest[0]) + PrintItems(rest[1..]));
      Regroup([Char(',')], Print(rest[0]), PrintItems(rest[1..]));
    }
  }

  lemma {:induction false} JoinedMembers(members: seq<CMember>)
    requires members != []
    ensures JoinTexts(PrintAllMembers(members)) + [Char('}')] == PrintMember(members[0]) + PrintMembers(members[1..])
  {
    if |members| > 1 {
      var rest := members[1..];
      JoinedMembers(rest);
      assert PrintAllMembers(members)[1..] == PrintAllMembers(rest);
      Regroup(PrintMember(members[0]) + [Char(',')], JoinTexts(PrintAllMembers(rest)), [Char('}')]);
      Regroup(PrintMember(members[0]), [Char(',')], PrintMember(rest[0]) + PrintMembers(rest[1..]));
      Regroup([Char(',')], PrintMember(rest[0]), PrintMembers(rest[1..]));
    }
  }

  // ---------- members kept, then sorted ----------

  function Kept(members: seq<Member>): seq<Member> {
    if members == [] then []
    else if members[0].value.Undefined? then Kept(members[1..])
    else [members[0]] + Kept(members[1..])
  }

  ghost predicate DistinctKeys(members: seq<Member>) {
    forall i, j | 0 <= i < j < |members| :: members[i].key != members[j].key
  }

  ghost predicate AllCanonize(members: seq<Member>) {
    forall i | 0 <= i < |members| :: Canonize(members[i].value).Ok?
  }

  ghost function CMembers(members: seq<Member>): (r: seq<CMember>)
    requires AllCanonize(members)
    ensures |r| == |members|
  {
    seq(|members|, i requires 0 <= i < |members| => CMember(members[i].key, Canonize(members[i].value).value))
  }

  lemma {:induction false} CanonizeMembersKeeps(members: seq<Member>)
    ensures CanonizeMembers(members).Ok? <==> DistinctKeys(Kept(members)) && AllCanonize(Kept(members))
    ensures CanonizeMembers(members).Ok? ==> CanonizeMembers(members).value == CMembers(Kept(members))
  {
    if members != [] {
      CanonizeMembersKeeps(members[1..]);
      var rest := Kept(members[1..]);
      if !members[0].value.Undefined? {
        ConsKept(members[0], rest);
      }
    }
  }

  lemma CMembersCons(m: Member, rest: seq<Member>)
    ensures AllCanonize([m] + rest) <==> Canonize(m.value).Ok? && AllCanonize(rest)
    ensures AllCanonize([m] + rest) ==>
      CMembers([m] + rest) == [CMember(m.key, Canonize(m.value).value)] + CMembers(rest)
  {
    var all := [m] + rest;
    assert all[0] == m && forall i | 0 < i < |all| :: all[i] == rest[i - 1];
    assert forall i | 0 <= i < |rest| :: rest[i] == all[i + 1];
  }

  lemma ConsKept(m: Member, rest: seq<Member>)
    ensures AllCanonize([m] + rest) <==> Canonize(m.value).Ok? && AllCanonize(rest)
    ensures AllCanonize([m] + rest) ==>
      CMembers([m] + rest) == [CMember(m.key, Canonize(m.value).value)] + CMembers(rest) &&
      (DistinctKeys([m] + rest) <==> DistinctKeys(rest) && !HasKey(CMembers(rest), m.key))
  {
    CMembersCons(m, rest);
    DistinctCons(m, rest);
    if AllCanonize(rest) {
      assert forall j | 0 <= j < |rest| :: CMembers(rest)[j].key == rest[j].key;
    }
  }

  lemma DistinctCons(m: Member, rest: seq<Member>)
    ensures DistinctKeys([m] + rest) <==> DistinctKeys(rest) && forall j | 0 <= j < |rest| :: rest[j].key != m.key
  {
    var all := [m] + rest;
    assert all[0] == m && forall i | 0 < i < |all| :: all[i] == rest[i - 1];
    assert forall i | 0 <= i < |rest| :: rest[i] == all[i + 1];
  }

  function CompareMembers(a: Member, b: Member): int {
    CompareByCodePoint(a.key, b.key)
  }

  lemma {:induction false} InsertCommutes(m: Member, s: seq<Member>)
    requires Canonize(m.value).Ok? && AllCanonize(s)
    ensures AllCanonize(Insert(CompareMembers, m, s))
    ensures CMembers(Insert(CompareMembers, m, s)) == Insert(CompareKeys, CMember(m.key, Canonize(m.value).value), CMembers(s))
  {
    if s == [] || CompareMembers(m, s[0]) <= 0 {
      CMembersCons(m, s);
    } else {
      var rest := Insert(CompareMembers, m, s[1..]);
      InsertCommutes(m, s[1..]);
      HeadAndTail(s);
      CMembersCons(s[0], s[1..]);
      CMembersCons(s[0], rest);
    }
  }

  lemma {:induction false} SortCommutes(s: seq<Member>)
    requires AllCanonize(s)
    ensures AllCanonize(Sort(CompareMembers, s))
    ensures CMembers(Sort(CompareMembers, s)) == Sort(CompareKeys, CMembers(s))
  {
    if s != [] {
      HeadAndTail(s);
      CMembersCons(s[0], s[1..]);
      SortCommutes(s[1..]);
      InsertCommutes(s[0], Sort(CompareMembers, s[1..]));
    }
  }

  /** The outcome matches up to which of several errors is reported. */
  ghost predicate Agrees(r: Result<Text>, spec: Result<Text>) {
    (r.Ok? <==> spec.Ok?) && (r.Ok? ==> r == spec)
  }

  lemma {:induction false} CanonizeAllIs(items: seq<Value>)
    ensures CanonizeAll(items).Ok? <==> forall i | 0 <= i < |items| :: Canonize(items[i]).Ok?
    ensures CanonizeAll(items).Ok? ==>
      |CanonizeAll(items).value| == |items| && forall i | 0 <= i < |items| :: CanonizeAll(items).value[i] == Canonize(items[i]).value
  {
    if items != [] {
      CanonizeAllIs(items[1..]);
    }
  }

  /** The parts of an array, joined. */
  lemma ArrayIsWritten(items: seq<Value>, parts: seq<Text>)
    requires |parts| == |items|
    requires forall k | 0 <= k < |items| :: Canonize(items[k]).Ok? && parts[k] == Print(Canonize(items[k]).value)
    ensures Serialize(Arr(items)) == Ok([Char('[')] + JoinTexts(parts) + [Char(']')])
  {
    CanonizeAllIs(items);
    var cs := CanonizeAll(items).value;
    assert parts == PrintAll(cs);
    PrintedArray(cs);
  }

  method Write(value: Value) returns (r: Result<Text>)
    ensures Agrees(r, Serialize(value))
    decreases value, 2
  {
    match value
    case Null => return Ok(Chars("null"));
    case Bool(b) => return Ok(Chars(if b then "true" else "false"));
    case Number(n) =>
      if !n.Integral? || n.n < -MAX_SAFE || n.n > MAX_SAFE {
        return Err("not a safe integer");
      }
      return Ok(Chars(PrintInt(n.n)));
    case BigInt(i) => return Ok(Chars(PrintInt(i)));
    case Str(s) => return Ok(Quote(s));
    case Undefined => return Err("unsupported value type");
    case Unsupported => return Err("unsupported value type");
    case Arr(items) => r := WriteArray(items, value);
    case Obj(members) => r := WriteObject(members, value);
  }

  method WriteArray(items: seq<Value>, ghost value: Value) returns (r: Result<Text>)
    requires value == Arr(items)
    ensures Agrees(r, Serialize(value))
    decreases value, 0
  {
    CanonizeAllIs(items);
    var parts: seq<Text> := [];
    for i := 0 to |items|
      invariant |parts| == i
      invariant forall k | 0 <= k < i :: Canonize(items[k]).Ok? && parts[k] == Print(Canonize(items[k]).value)
    {
      var part :- Write(items[i]);
      parts := parts + [part];
    }
    ArrayIsWritten(items, parts);
    return Ok([Char('[')] + JoinTexts(parts) + [Char(']')]);
  }

  /** Filling the key map: undefined members are skipped, a key met twice is an error. */
  method KeyMap(members: seq<Member>) returns (r: Result<seq<Member>>)
    ensures r.Ok? <==> DistinctKeys(Kept(members))
    ensures r.Ok? ==> r.value == Kept(members)
  {
    var kept: seq<Member> := [];
    for i := 0 to |members|
      invariant kept == Kept(members[..i]) && DistinctKeys(kept)
    {
      NextKept(members, i);
      if !members[i].value.Undefined? {
        if Met(kept, members[i].key) {
          MetTwice(members, i);
          return Err("duplicate object key");
        }
        NotMet(kept, members[i]);
        kept := kept + [members[i]];
      }
    }
    assert members[..|members|] == members;
    return Ok(kept);
  }

  predicate Met(kept: seq<Member>, key: string) {
    exists j | 0 <= j < |kept| :: kept[j].key == key
  }

  lemma NotMet(kept: seq<Member>, m: Member)
    requires DistinctKeys(kept) && !Met(kept, m.key)
    ensures DistinctKeys(kept + [m])
  {
  }

  lemma {:induction false} KeptSplits(before: seq<Member>, after: seq<Member>)
    ensures Kept(before + after) == Kept(before) + Kept(after)
  {
    if before == [] {
      assert before + after == after;
    } else {
      KeptSplits(before[1..], after);
      assert (before + after)[1..] == before[1..] + after;
    }
  }

  lemma NextKept(members: seq<Member>, i: nat)
    requires i < |members|
    ensures Kept(members[..i + 1]) == Kept(members[..i]) + if members[i].value.Undefined? then [] else [members[i]]
  {
    assert members[..i + 1] == members[..i] + [members[i]];
    KeptSplits(members[..i], [members[i]]);
  }

  lemma MetTwice(members: seq<Member>, i: nat)
    requires i < |members| && !members[i].value.Undefined? && Met(Kept(members[..i]), members[i].key)
    ensures !DistinctKeys(Kept(members))
  {
    var kept := Kept(members[..i]);
    assert members == members[..i] + members[i..];
    KeptSplits(members[..i], members[i..]);
    var j :| 0 <= j < |kept| && kept[j].key == members[i].key;
    assert Kept(members)[j].key == Kept(members)[|kept|].key;
  }

  lemma KeptAreSmaller(members: seq<Member>, m: Member)
    requires m in Kept(members)
    ensures m in members
  {
    if members != [] {
      if m in Kept(members[1..]) {
        KeptAreSmaller(members[1..], m);
      }
    }
  }

  ghost predicate MemberText(m: Member, text: Text) {
    Canonize(m.value).Ok? && text == PrintMember(CMember(m.key, Canonize(m.value).value))
  }

  lemma PrintedArray(cs: seq<Canon>)
    ensures Print(CArr(cs)) == [Char('[')] + JoinTexts(PrintAll(cs)) + [Char(']')]
  {
    if cs != [] {
      JoinedItems(cs);
    }
    Regroup([Char('[')], JoinTexts(PrintAll(cs)), [Char(']')]);
  }

  lemma PrintedObject(cs: seq<CMember>)
    ensures Print(CObj(cs)) == [Char('{')] + JoinTexts(PrintAllMembers(cs)) + [Char('}')]
  {
    if cs != [] {
      JoinedMembers(cs);
    }
    Regroup([Char('{')], JoinTexts(PrintAllMembers(cs)), [Char('}')]);
  }

  /** The members in key order, each as `"key":value`. */
  method WriteMembers(sorted: seq<Member>, ghost value: Value) returns (r: Result<seq<Text>>)
    requires value.Obj? && forall m | m in sorted :: m in value.members
    ensures r.Ok? <==> AllCanonize(sorted)
    ensures r.Ok? ==> r.value == PrintAllMembers(CMembers(sorted))
    decreases value, 0
  {
    var parts: seq<Text> := [];
    for i := 0 to |sorted|
      invariant |parts| == i
      invariant forall k | 0 <= k < i :: MemberText(sorted[k], parts[k])
    {
      assert sorted[i] in sorted;
      var text :- Write(sorted[i].value);
      parts := parts + [Quote(Chars(sorted[i].key)) + [Char(':')] + text];
      assert MemberText(sorted[i], parts[i]);
    }
    assert forall k | 0 <= k < |sorted| :: MemberText(sorted[k], parts[k]);
    return Ok(parts);
  }

  method WriteObject(members: seq<Member>, ghost value: Value) returns (r: Result<Text>)
    requires value == Obj(members)
    ensures Agrees(r, Serialize(value))
    decreases value, 1
  {
    CanonizeMembersKeeps(members);
    var kept :- KeyMap(members);
    var sorted := Sort(CompareMembers, kept);
    forall m | m in sorted ensures m in members {
      InMultiset(sorted, kept, m);
      KeptAreSmaller(members, m);
    }
    SortedCanonizes(kept, sorted);
    if AllCanonize(kept) {
      SortCommutes(kept);
      PrintedObject(CMembers(sorted));
    }
    var parts :- WriteMembers(sorted, value);
    return Ok([Char('{')] + JoinTexts(parts) + [Char('}')]);
  }

  lemma SortedCanonizes(kept: seq<Member>, sorted: seq<Member>)
    requires multiset(kept) == multiset(sorted)
    ensures AllCanonize(kept) <==> AllCanonize(sorted)
  {
    forall m ensures m in kept <==> m in sorted {
      InMultiset(kept, sorted, m);
    }
    assert AllCanonize(kept) <==> forall m | m in kept :: Canonize(m.value).Ok?;
    assert AllCanonize(sorted) <==> forall m | m in sorted :: Canonize(m.value).Ok?;
  }

  /**
   `serializeCanonical`: throws exactly on a value without a meaning; the text it returns reads back as
   that meaning, with ascending keys.
   */
  method SerializeCanonical(value: Value) returns (r: Result<Text>)
    ensures r.Ok? <==> MeaningOf(value).Ok?
    ensures r.Ok? ==>
      var read := JsonReading.ReadText(r.value);
      read.Ok? && JsonReading.StandsFor(read.value, MeaningOf(value).value) && JsonReading.KeysAscend(read.value)
  {
    CanonicalReading.SerializableIffMeaningful(value);
    if MeaningOf(value).Ok? {
      JsonReading.SerializedReadsBack(value);
    }
    r := Write(value);
  }
}

/**
 Canonical serialization (packages/canonical/src/serialize.ts).  Strings are taken as already
 NFC-normalized and well-formed; a hash token inside a string is one symbol.
 */
module Canonical {
  import opened Outcomes
  import opened Digests
  import opened Sorting
  import opened Texts

  // ---------- JavaScript values ----------

  datatype JsNumber = Integral(n: int) | Fractional | NonFinite

  datatype Value =
    | Null
    | Bool(b: bool)
    | Number(n: JsNumber)
    | BigInt(i: int)
    | Str(s: Text)
    | Undefined
    | Unsupported
    | Arr(items: seq<Value>)
    | Obj(members: seq<Member>)

  /** An own property, in the order `Object.entries` lists them. */
  datatype Member = Member(key: string, value: Value)

  const MAX_SAFE: int := 0x1F_FFFF_FFFF_FFFF

  // ---------- what a value means: member order, dropped members and number flavour are gone ----------

  datatype Meaning =
    | MNull
    | MBool(b: bool)
    | MInt(i: int)
    | MStr(s: Text)
    | MArr(items: seq<Meaning>)
    | MObj(members: map<string, Meaning>)

  /** An error stands for the `CanonicalError` the serializer throws. */
  function MeaningOf(v: Value): Result<Meaning> {
    match v
    case Null => Ok(MNull)
    case Bool(b) => Ok(MBool(b))
    case Number(n) => if n.Integral? && -MAX_SAFE <= n.n <= MAX_SAFE then Ok(MInt(n.n)) else Err("not a safe integer")
    case BigInt(i) => Ok(MInt(i))
    case Str(s) => Ok(MStr(s))
    case Undefined => Err("unsupported value type")
    case Unsupported => Err("unsupported value type")
    case Arr(items) => var ms :- MeaningsOf(items); Ok(MArr(ms))
    case Obj(members) => var m :- MembersMeaning(members); Ok(MObj(m))
  }

  function MeaningsOf(items: seq<Value>): Result<seq<Meaning>> {
    if items == [] then Ok([])
    else
      var first :- MeaningOf(items[0]);
      var rest :- MeaningsOf(items[1..]);
      Ok([first] + rest)
  }

  /** An undefined member is dropped; a repeated key is an error. */
  function MembersMeaning(members: seq<Member>): Result<map<string, Meaning>> {
    if members == [] then Ok(map[])
    else
      var rest :- MembersMeaning(members[1..]);
      if members[0].value.Undefined? then Ok(rest)
      else
        var first :- MeaningOf(members[0].value);
        if members[0].key in rest then Err("duplicate object key") else Ok(rest[members[0].key := first])
  }

  // ---------- the canonical tree: members sorted by key ----------

  datatype Canon =
    | CNull
    | CBool(b: bool)
    | CInt(i: int)
    | CStr(s: Text)
    | CArr(items: seq<Canon>)
    | CObj(members: seq<CMember>)

  datatype CMember = CMember(key: string, value: Canon)

  function CompareByCodePoint(a: string, b: string): int {
    CompareSeq(CodePoints(a), CodePoints(b))
  }

  function CompareKeys(a: CMember, b: CMember): int {
    CompareByCodePoint(a.key, b.key)
  }

  predicate HasKey(members: seq<CMember>, key: string) {
    exists i | 0 <= i < |members| :: members[i].key == key
  }

  function Canonize(v: Value): Result<Canon> {
    match v
    case Null => Ok(CNull)
    case Bool(b) => Ok(CBool(b))
    case Number(n) => if n.Integral? && -MAX_SAFE <= n.n <= MAX_SAFE then Ok(CInt(n.n)) else Err("not a safe integer")
    case BigInt(i) => Ok(CInt(i))
    case Str(s) => Ok(CStr(s))
    case Undefined => Err("unsupported value type")
    case Unsupported => Err("unsupported value type")
    case Arr(items) => var cs :- CanonizeAll(items); Ok(CArr(cs))
    case Obj(members) => var ms :- CanonizeMembers(members); Ok(CObj(Sort(CompareKeys, ms)))
  }

  function CanonizeAll(items: seq<Value>): Result<seq<Canon>> {
    if items == [] then Ok([])
    else
      var first :- Canonize(items[0]);
      var rest :- CanonizeAll(items[1..]);
      Ok([first] + rest)
  }

  function CanonizeMembers(members: seq<Member>): Result<seq<CMember>> {
    if members == [] then Ok([])
    else
      var rest :- CanonizeMembers(members[1..]);
      if members[0].value.Undefined? then Ok(rest)
      else
        var first :- Canonize(members[0].value);
        if HasKey(rest, members[0].key) then Err("duplicate object key")
        else Ok([CMember(members[0].key, first)] + rest)
  }

  // ---------- text ----------

  function Chars(s: string): (t: Text)
    ensures |t| == |s|
  {
    seq(|s|, i requires 0 <= i < |s| => Char(s[i]))
  }

  function HexDigit(d: nat): char
    requires d < 16
  {
    if d < 10 then ('0' as int + d) as char else ('a' as int + d - 10) as char
  }

  /** One symbol of a string as `JSON.stringify` writes it. */
  function Escape(x: Symbol): Text {
    if !x.Char? then [x]
    else
      var p := x.c as int;
      if x.c == '"' || x.c == '\\' then [Char('\\'), x]
      else if p == 8 then Chars("\\b")
      else if p == 9 then Chars("\\t")
      else if p == 10 then Chars("\\n")
      else if p == 12 then Chars("\\f")
      else if p == 13 then Chars("\\r")
      else if p < 0x20 then [Char('\\'), Char('u'), Char('0'), Char('0'), Char(HexDigit(p / 16)), Char(HexDigit(p % 16))]
      else [x]
  }

  function EscapeAll(s: Text): Text {
    if s == [] then [] else Escape(s[0]) + EscapeAll(s[1..])
  }

  function Quote(s: Text): Text {
    [Char('"')] + EscapeAll(s) + [Char('"')]
  }

  function PrintInt(i: int): string {
    if i < 0 then "-" + PrintNat(-i) else PrintNat(i)
  }

  function Print(c: Canon): Text {
    match c
    case CNull => Chars("null")
    case CBool(b) => Chars(if b then "true" else "false")
    case CInt(i) => Chars(PrintInt(i))
    case CStr(s) => Quote(s)
    case CArr(items) => [Char('[')] + (if items == [] then [Char(']')] else Print(items[0]) + PrintItems(items[1..]))
    case CObj(members) =>
      [Char('{')] + (if members == [] then [Char('}')] else PrintMember(members[0]) + PrintMembers(members[1..]))
  }

  /** The remaining items, each after a comma, and the closing bracket. */
  function PrintItems(items: seq<Canon>): Text {
    if items == [] then [Char(']')] else [Char(',')] + Print(items[0]) + PrintItems(items[1..])
  }

  function PrintMember(m: CMember): Text {
    Quote(Chars(m.key)) + [Char(':')] + Print(m.value)
  }

  function PrintMembers(members: seq<CMember>): Text {
    if members == [] then [Char('}')] else [Char(',')] + PrintMember(members[0]) + PrintMembers(members[1..])
  }

  /** `serializeCanonical` */
  function Serialize(v: Value): Result<Text> {
    var c :- Canonize(v);
    Ok(Print(c))
  }
}

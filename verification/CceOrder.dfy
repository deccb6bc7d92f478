/** The global order of CCEs (packages/cce-model/src/order.ts). */
module CceOrder {
  import opened Outcomes
  import opened Digests
  import opened Canonical
  import opened CceModel
  import opened Sorting
  import opened Texts

  // ---------- the offset key ----------

  predicate DigitsBetween(s: string, i: int, k: int)
    requires 0 <= i <= k <= |s|
  {
    forall j | i <= j < k :: IsDigit(s[j])
  }

  /** Where the run of digits that stops at `end` starts. */
  function RunStart(s: string, end: nat): (r: nat)
    requires end <= |s|
    ensures r <= end && DigitsBetween(s, r, end)
    ensures r > 0 ==> !IsDigit(s[r - 1])
  {
    if end == 0 || !IsDigit(s[end - 1]) then end else RunStart(s, end - 1)
  }

  /** The part of s that `/(\d+)(?:-\d+)?$/` captures; empty when nothing matches. */
  function Capture(s: string): (r: (nat, nat))
    ensures r.0 <= r.1 <= |s| && DigitsBetween(s, r.0, r.1)
  {
    var t := RunStart(s, |s|);
    if t == |s| then (t, t)
    else if t > 0 && s[t - 1] == '-' && RunStart(s, t - 1) < t - 1 then (RunStart(s, t - 1), t - 1)
    else (t, |s|)
  }

  function OffsetNumber(s: string): nat {
    var c := Capture(s);
    ParseNat(s[c.0..c.1])
  }

  /** The pattern matches s from i, capturing s[i..k]. */
  ghost predicate MatchesAt(s: string, i: nat, k: nat) {
    && i < k <= |s| && DigitsBetween(s, i, k)
    && (k == |s| || (s[k] == '-' && k + 1 < |s| && DigitsBetween(s, k + 1, |s|)))
  }

  /** The captured part is a match, and no match starts further left or captures more from there. */
  lemma {:induction false} CaptureIsTheMatch(s: string, i: nat, k: nat)
    ensures var c := Capture(s); c.0 < c.1 ==> MatchesAt(s, c.0, c.1)
    ensures var c := Capture(s); MatchesAt(s, i, k) ==> c.0 < c.1 && c.0 <= i && (c.0 == i ==> k <= c.1)
  {
    if MatchesAt(s, i, k) {
      var t := RunStart(s, |s|);
      assert IsDigit(s[k - 1]) && IsDigit(s[|s| - 1]);
      if k < |s| {
        assert !IsDigit(s[k]);
        assert t == k + 1;
        assert IsDigit(s[k - 1]) && RunStart(s, k) < k;
      }
    }
  }

  function IntOf(v: Value): Option<int> {
    if v.Number? && v.n.Integral? then Some(v.n.n) else None
  }

  /** `if (o[key])`: present and not empty. */
  predicate Truthy(o: Option<string>) {
    o.Some? && o.value != ""
  }

  function OffsetTuple(offset: Value): (int, string) {
    var gtid, lsn, scn := StringOf(Field(offset, "gtid")), StringOf(Field(offset, "lsn")), StringOf(Field(offset, "scn"));
    var file, token := StringOf(Field(offset, "binlog_file")), StringOf(Field(offset, "resume_token"));
    if Truthy(gtid) then (OffsetNumber(gtid.value), gtid.value)
    else if Truthy(lsn) then (0, lsn.value)
    else if Truthy(scn) then (0, scn.value)
    else if Truthy(file) then
      var pos := IntOf(Field(offset, "binlog_pos"));
      var at := if pos.Some? then pos.value else 0;
      (at, file.value + ":" + PrintInt(at))
    else if Truthy(token) then (0, token.value)
    else (0, "")
  }

  // ---------- the comparison ----------

  /**
   What `compareCce` reads from an envelope; `hex` spells a digest as 64 hexadecimal characters.
   The row key is an error when it cannot be computed.
   */
  datatype OrderKey = OrderKey(
    commitTs: string, number: int, text: string, epoch: Option<string>,
    schema: string, name: string, rowKey: Result<string>, envelopeId: string)

  type Hex = Digest -> string

  function FirstObject(c: Cce): Value {
    var changes := Field(c.core, "changes");
    if changes.Arr? && |changes.items| > 0 then Field(changes.items[0], "object") else Undefined
  }

  function RowKey(hex: Hex, o: Value): Result<string> {
    if o.Undefined? || o.Null? then Ok("")
    else
      var hash :- RowKeyHash(o);
      Ok(hex(hash))
  }

  function KeyOf(hex: Hex, c: Cce): OrderKey {
    var offset := OffsetTuple(Field(c.core, "offset"));
    var o := FirstObject(c);
    OrderKey(
      OrEmpty(StringOf(Field(Field(c.core, "transaction"), "commit_ts"))),
      offset.0, offset.1,
      StringOf(Field(Field(c.core, "completeness"), "snapshot_epoch_id")),
      OrEmpty(StringOf(Field(o, "schema"))), OrEmpty(StringOf(Field(o, "name"))),
      RowKey(hex, o),
      OrEmpty(EnvelopeId(c)))
  }

  /** Epochs in order, envelopes without one last. */
  function CompareEpochs(a: Option<string>, b: Option<string>): int {
    if a == b then 0 else if a.None? then 1 else if b.None? then -1 else CompareStrings(a.value, b.value)
  }

  function CompareKeys(a: OrderKey, b: OrderKey): Result<int> {
    if a.commitTs != b.commitTs then Ok(if CompareStrings(a.commitTs, b.commitTs) < 0 then -1 else 1)
    else if a.number != b.number then Ok(a.number - b.number)
    else if a.text != b.text then Ok(if CompareStrings(a.text, b.text) < 0 then -1 else 1)
    else if a.epoch != b.epoch then Ok(CompareEpochs(a.epoch, b.epoch))
    else if CompareStrings(a.schema, b.schema) != 0 then Ok(CompareStrings(a.schema, b.schema))
    else if CompareStrings(a.name, b.name) != 0 then Ok(CompareStrings(a.name, b.name))
    else
      var x :- a.rowKey;
      var y :- b.rowKey;
      if CompareStrings(x, y) != 0 then Ok(CompareStrings(x, y)) else Ok(CompareStrings(a.envelopeId, b.envelopeId))
  }

  function CompareCce(hex: Hex): Throwing<Cce> {
    (a: Cce, b: Cce) => CompareKeys(KeyOf(hex, a), KeyOf(hex, b))
  }

  /** `orderCces`; an error when a comparison the sort needs throws. */
  function OrderCces(hex: Hex, cces: seq<Cce>): Result<seq<Cce>> {
    TrySort(CompareCce(hex), cces)
  }

  // ---------- when it throws ----------

  /** Equal in every key before the row key. */
  predicate Ties(a: OrderKey, b: OrderKey) {
    && a.commitTs == b.commitTs && a.number == b.number && a.text == b.text
    && a.epoch == b.epoch && a.schema == b.schema && a.name == b.name
  }

  predicate Clash(a: OrderKey, b: OrderKey) {
    Ties(a, b) && (a.rowKey.Err? || b.rowKey.Err?)
  }

  /** The comparison throws exactly when everything before the row key ties and one row key cannot be computed. */
  lemma ComparisonThrowsIff(a: OrderKey, b: OrderKey)
    ensures CompareKeys(a, b).Err? <==> Clash(a, b)
  {
    CompareStringsIsTotal(a.schema, b.schema);
    CompareStringsIsTotal(a.name, b.name);
  }

  /** What identifies the first changed row can be serialized. */
  predicate RowIsIdentified(c: Cce) {
    var o := FirstObject(c);
    o.Undefined? || o.Null? || HasRowKey(o)
  }

  lemma RowKeyIff(hex: Hex, c: Cce)
    ensures KeyOf(hex, c).rowKey.Ok? <==> RowIsIdentified(c)
  {
    RowKeyHashIff(FirstObject(c));
  }

  // ---------- a total order ----------

  function Lex(first: int, second: int): int {
    if first != 0 then first else second
  }

  /** The keys before the row key, as one lexicographic order. */
  function LexFront(a: OrderKey, b: OrderKey): int {
    Lex(CompareStrings(a.commitTs, b.commitTs), Lex(a.number - b.number, Lex(CompareStrings(a.text, b.text),
      Lex(CompareEpochs(a.epoch, b.epoch), Lex(CompareStrings(a.schema, b.schema), CompareStrings(a.name, b.name))))))
  }

  /** A row key that cannot be computed is ranked like an empty one; comparisons that succeed never look at it. */
  function LexBack(a: OrderKey, b: OrderKey): int {
    Lex(CompareStrings(Known(a.rowKey), Known(b.rowKey)), CompareStrings(a.envelopeId, b.envelopeId))
  }

  function Known(rowKey: Result<string>): string {
    if rowKey.Ok? then rowKey.value else ""
  }

  function LexKeys(a: OrderKey, b: OrderKey): int {
    Lex(LexFront(a, b), LexBack(a, b))
  }

  lemma EpochsAreTotal(a: Option<string>, b: Option<string>)
    ensures CompareEpochs(a, b) == -CompareEpochs(b, a)
    ensures CompareEpochs(a, b) == 0 <==> a == b
  {
    if a.Some? && b.Some? {
      CompareStringsIsTotal(a.value, b.value);
    }
  }

  lemma FrontIsTotal(a: OrderKey, b: OrderKey)
    ensures Sign(LexFront(a, b)) == -Sign(LexFront(b, a))
    ensures LexFront(a, b) == 0 <==> Ties(a, b)
  {
    CompareStringsIsTotal(a.commitTs, b.commitTs);
    CompareStringsIsTotal(a.text, b.text);
    CompareStringsIsTotal(a.schema, b.schema);
    CompareStringsIsTotal(a.name, b.name);
    EpochsAreTotal(a.epoch, b.epoch);
  }

  /** The branches of the comparison are one lexicographic order over eight keys. */
  lemma ComparisonIsLexicographic(a: OrderKey, b: OrderKey)
    ensures CompareKeys(a, b).Ok? ==> Sign(CompareKeys(a, b).value) == Sign(LexKeys(a, b))
  {
    CompareStringsIsTotal(a.commitTs, b.commitTs);
    CompareStringsIsTotal(a.text, b.text);
    CompareStringsIsTotal(a.schema, b.schema);
    CompareStringsIsTotal(a.name, b.name);
    EpochsAreTotal(a.epoch, b.epoch);
  }

  /** Three comparisons of one triple that fit a total order. */
  ghost predicate Fits(ab: int, bc: int, ac: int) {
    && (ab <= 0 && bc <= 0 ==> ac <= 0) && (ab >= 0 && bc >= 0 ==> ac >= 0)
    && ((ab < 0 && bc <= 0) || (ab <= 0 && bc < 0) ==> ac < 0)
    && ((ab > 0 && bc >= 0) || (ab >= 0 && bc > 0) ==> ac > 0)
  }

  ghost predicate StringBefore(a: string, b: string) {
    Precedes(Units(a), Units(b))
  }

  /** Snapshot reads of a named epoch come first, by its name; the others have none. */
  ghost predicate EpochBefore(a: Option<string>, b: Option<string>) {
    a.Some? && (b.None? || StringBefore(a.value, b.value))
  }

  /** `a` goes first: the first difference decides. */
  ghost predicate GoesFirst(a: OrderKey, b: OrderKey) {
    if a.commitTs != b.commitTs then StringBefore(a.commitTs, b.commitTs)
    else if a.number != b.number then a.number < b.number
    else if a.text != b.text then StringBefore(a.text, b.text)
    else if a.epoch != b.epoch then EpochBefore(a.epoch, b.epoch)
    else if a.schema != b.schema then StringBefore(a.schema, b.schema)
    else if a.name != b.name then StringBefore(a.name, b.name)
    else if a.rowKey != b.rowKey then a.rowKey.Ok? && b.rowKey.Ok? && StringBefore(a.rowKey.value, b.rowKey.value)
    else StringBefore(a.envelopeId, b.envelopeId)
  }

  lemma StringsBefore(a: string, b: string)
    ensures CompareStrings(a, b) < 0 <==> StringBefore(a, b)
    ensures CompareStrings(a, b) == 0 <==> a == b
  {
    StringOrderIsByUnits(a, b);
    CompareStringsIsTotal(a, b);
  }

  lemma OffsetsPutFirst(a: OrderKey, b: OrderKey)
    requires a.commitTs != b.commitTs || a.number != b.number || a.text != b.text
    ensures CompareKeys(a, b).Ok? && (CompareKeys(a, b).value < 0 <==> GoesFirst(a, b))
  {
    StringsBefore(a.commitTs, b.commitTs);
    StringsBefore(a.text, b.text);
  }

  lemma EpochsPutFirst(a: OrderKey, b: OrderKey)
    requires a.commitTs == b.commitTs && a.number == b.number && a.text == b.text && a.epoch != b.epoch
    ensures CompareKeys(a, b).Ok? && (CompareKeys(a, b).value < 0 <==> GoesFirst(a, b))
  {
    if a.epoch.Some? && b.epoch.Some? {
      StringsBefore(a.epoch.value, b.epoch.value);
    }
  }

  lemma NamesPutFirst(a: OrderKey, b: OrderKey)
    requires a.commitTs == b.commitTs && a.number == b.number && a.text == b.text && a.epoch == b.epoch
    requires a.schema != b.schema || a.name != b.name
    ensures CompareKeys(a, b).Ok? && (CompareKeys(a, b).value < 0 <==> GoesFirst(a, b))
  {
    StringsBefore(a.schema, b.schema);
    StringsBefore(a.name, b.name);
  }

  lemma RowsPutFirst(a: OrderKey, b: OrderKey)
    requires Ties(a, b) && a.rowKey.Ok? && b.rowKey.Ok?
    ensures CompareKeys(a, b).Ok? && (CompareKeys(a, b).value < 0 <==> GoesFirst(a, b))
  {
    StringsBefore(a.schema, b.schema);
    StringsBefore(a.name, b.name);
    StringsBefore(a.rowKey.value, b.rowKey.value);
    StringsBefore(a.envelopeId, b.envelopeId);
  }

  /** The comparison puts `a` first exactly when the first difference, in the order of the keys, says so. */
  lemma ComparisonPutsFirst(a: OrderKey, b: OrderKey)
    ensures CompareKeys(a, b).Ok? ==> (CompareKeys(a, b).value < 0 <==> GoesFirst(a, b))
  {
    ComparisonThrowsIff(a, b);
    if a.commitTs != b.commitTs || a.number != b.number || a.text != b.text {
      OffsetsPutFirst(a, b);
    } else if a.epoch != b.epoch {
      EpochsPutFirst(a, b);
    } else if a.schema != b.schema || a.name != b.name {
      NamesPutFirst(a, b);
    } else if a.rowKey.Ok? && b.rowKey.Ok? {
      RowsPutFirst(a, b);
    }
  }

  /** Where each key of the order is read in the envelope; the row key is the spelled hash of its first object. */
  lemma KeysAreRead(hex: Hex, c: Cce)
    ensures var key, first := KeyOf(hex, c), FirstObject(c);
      && key.commitTs == OrEmpty(StringOf(Field(Field(c.core, "transaction"), "commit_ts")))
      && key.epoch == StringOf(Field(Field(c.core, "completeness"), "snapshot_epoch_id"))
      && key.schema == OrEmpty(StringOf(Field(first, "schema"))) && key.name == OrEmpty(StringOf(Field(first, "name")))
      && key.envelopeId == OrEmpty(StringOf(Field(c.core, "envelope_id")))
      && (first.Undefined? || first.Null? ==> key.rowKey == Ok(""))
      && (!first.Undefined? && !first.Null? && RowKeyHash(first).Ok? ==> key.rowKey == Ok(hex(RowKeyHash(first).value)))
  {
  }

  /** The offset is taken from the first of these that is there: GTID, LSN, SCN, binlog file, resume token. */
  lemma OffsetIsTheFirstThere(offset: Value, key: string, text: string)
    requires key in ["gtid", "lsn", "scn", "resume_token"] && StringOf(Field(offset, key)) == Some(text) && text != ""
    requires key != "gtid" ==> OrEmpty(StringOf(Field(offset, "gtid"))) == ""
    requires key in ["scn", "resume_token"] ==> OrEmpty(StringOf(Field(offset, "lsn"))) == ""
    requires key == "resume_token" ==>
      OrEmpty(StringOf(Field(offset, "scn"))) == "" && OrEmpty(StringOf(Field(offset, "binlog_file"))) == ""
    ensures OffsetTuple(offset).1 == text && (key != "gtid" ==> OffsetTuple(offset).0 == 0)
  {
  }

  lemma LexFits(ab: int, bc: int, ac: int, ab': int, bc': int, ac': int)
    requires Fits(ab, bc, ac) && Fits(ab', bc', ac')
    ensures Fits(Lex(ab, ab'), Lex(bc, bc'), Lex(ac, ac'))
  {
  }

  lemma StringsFit(a: string, b: string, c: string)
    ensures Fits(CompareStrings(a, b), CompareStrings(b, c), CompareStrings(a, c))
  {
    CompareStringsIsTotal(a, b);
    CompareStringsIsTotal(b, c);
    CompareStringsIsTotal(a, c);
    if CompareStrings(a, b) <= 0 && CompareStrings(b, c) <= 0 {
      CompareStringsIsTransitive(a, b, c);
    }
    if CompareStrings(c, b) <= 0 && CompareStrings(b, a) <= 0 {
      CompareStringsIsTransitive(c, b, a);
    }
  }

  lemma EpochsFit(a: Option<string>, b: Option<string>, c: Option<string>)
    ensures Fits(CompareEpochs(a, b), CompareEpochs(b, c), CompareEpochs(a, c))
  {
    EpochsAreTotal(a, b);
    EpochsAreTotal(b, c);
    EpochsAreTotal(a, c);
    if a.Some? && b.Some? && c.Some? {
      StringsFit(a.value, b.value, c.value);
      CompareStringsIsTotal(a.value, b.value);
      CompareStringsIsTotal(b.value, c.value);
      CompareStringsIsTotal(a.value, c.value);
    }
  }

  lemma FrontFits(a: OrderKey, b: OrderKey, c: OrderKey)
    ensures Fits(LexFront(a, b), LexFront(b, c), LexFront(a, c))
  {
    StringsFit(a.name, b.name, c.name);
    StringsFit(a.schema, b.schema, c.schema);
    EpochsFit(a.epoch, b.epoch, c.epoch);
    StringsFit(a.text, b.text, c.text);
    StringsFit(a.commitTs, b.commitTs, c.commitTs);
  }

  lemma KeysFit(a: OrderKey, b: OrderKey, c: OrderKey)
    ensures Fits(LexKeys(a, b), LexKeys(b, c), LexKeys(a, c))
  {
    FrontFits(a, b, c);
    StringsFit(Known(a.rowKey), Known(b.rowKey), Known(c.rowKey));
    StringsFit(a.envelopeId, b.envelopeId, c.envelopeId);
    LexFits(CompareStrings(Known(a.rowKey), Known(b.rowKey)), CompareStrings(Known(b.rowKey), Known(c.rowKey)),
            CompareStrings(Known(a.rowKey), Known(c.rowKey)),
            CompareStrings(a.envelopeId, b.envelopeId), CompareStrings(b.envelopeId, c.envelopeId),
            CompareStrings(a.envelopeId, c.envelopeId));
    LexFits(LexFront(a, b), LexFront(b, c), LexFront(a, c), LexBack(a, b), LexBack(b, c), LexBack(a, c));
  }

  lemma KeysAreTotal(a: OrderKey, b: OrderKey)
    ensures Sign(LexKeys(a, b)) == -Sign(LexKeys(b, a))
    ensures LexKeys(a, b) == 0 ==> Ties(a, b) && Known(a.rowKey) == Known(b.rowKey) && a.envelopeId == b.envelopeId
  {
    FrontIsTotal(a, b);
    CompareStringsIsTotal(Known(a.rowKey), Known(b.rowKey));
    CompareStringsIsTotal(a.envelopeId, b.envelopeId);
  }

  /**
   Where it does not throw, `compareCce` is antisymmetric and transitive, and what it cannot tell
   apart shares every compared key; it throws on a pair whichever way round the pair is given.
   */
  lemma {:induction false} CompareCceIsConsistent(hex: Hex, a: Cce, b: Cce, c: Cce)
    ensures var cmp := CompareCce(hex);
      && (cmp(a, b).Ok? <==> cmp(b, a).Ok?)
      && (cmp(a, b).Ok? ==> Sign(cmp(a, b).value) == -Sign(cmp(b, a).value))
      && (cmp(a, b).Ok? ==> (cmp(a, b).value == 0 <==> KeyOf(hex, a) == KeyOf(hex, b)))
      && (cmp(a, b).Ok? && cmp(b, c).Ok? && cmp(a, c).Ok? && cmp(a, b).value <= 0 && cmp(b, c).value <= 0 ==>
            cmp(a, c).value <= 0)
  {
    PairComparesBothWays(KeyOf(hex, a), KeyOf(hex, b));
    var cmp := CompareCce(hex);
    if cmp(a, b).Ok? && cmp(b, c).Ok? && cmp(a, c).Ok? {
      KeysCompareInOrder(KeyOf(hex, a), KeyOf(hex, b), KeyOf(hex, c));
    }
  }

  lemma PairComparesBothWays(x: OrderKey, y: OrderKey)
    ensures CompareKeys(x, y).Ok? <==> CompareKeys(y, x).Ok?
    ensures CompareKeys(x, y).Ok? ==> Sign(CompareKeys(x, y).value) == -Sign(CompareKeys(y, x).value)
    ensures CompareKeys(x, y).Ok? ==> (CompareKeys(x, y).value == 0 <==> x == y)
  {
    ComparisonThrowsIff(x, y);
    ComparisonThrowsIff(y, x);
    ComparisonIsLexicographic(x, y);
    ComparisonIsLexicographic(y, x);
    KeysAreTotal(x, y);
    EqualCompareEqual(x, y);
  }

  lemma KeysCompareInOrder(x: OrderKey, y: OrderKey, z: OrderKey)
    requires CompareKeys(x, y).Ok? && CompareKeys(y, z).Ok? && CompareKeys(x, z).Ok?
    ensures CompareKeys(x, y).value <= 0 && CompareKeys(y, z).value <= 0 ==> CompareKeys(x, z).value <= 0
  {
    ComparisonIsLexicographic(x, y);
    ComparisonIsLexicographic(y, z);
    ComparisonIsLexicographic(x, z);
    KeysFit(x, y, z);
  }

  lemma EqualCompareEqual(a: OrderKey, b: OrderKey)
    ensures CompareKeys(a, b).Ok? ==> (CompareKeys(a, b).value == 0 <==> a == b)
  {
    ComparisonThrowsIff(a, b);
    CompareStringsIsTotal(a.commitTs, b.commitTs);
    CompareStringsIsTotal(a.text, b.text);
    CompareStringsIsTotal(a.schema, b.schema);
    CompareStringsIsTotal(a.name, b.name);
    EpochsAreTotal(a.epoch, b.epoch);
    if a.rowKey.Ok? && b.rowKey.Ok? {
      CompareStringsIsTotal(a.rowKey.value, b.rowKey.value);
    }
    CompareStringsIsTotal(a.envelopeId, b.envelopeId);
  }

  // ---------- sorting ----------

  /** The total order that the comparison follows as far as it goes. */
  function RankCce(hex: Hex): Comparator<Cce> {
    (a: Cce, b: Cce) => LexKeys(KeyOf(hex, a), KeyOf(hex, b))
  }

  lemma {:induction false} RankIsConsistent(hex: Hex)
    ensures Consistent(RankCce(hex))
  {
    forall a, b ensures RankCce(hex)(a, b) <= 0 || RankCce(hex)(b, a) <= 0 {
      KeysAreTotal(KeyOf(hex, a), KeyOf(hex, b));
    }
    forall a, b, c | RankCce(hex)(a, b) <= 0 && RankCce(hex)(b, c) <= 0 ensures RankCce(hex)(a, c) <= 0 {
      KeysFit(KeyOf(hex, a), KeyOf(hex, b), KeyOf(hex, c));
    }
  }

  function Clashes(hex: Hex): (Cce, Cce) -> bool {
    (a: Cce, b: Cce) => Clash(KeyOf(hex, a), KeyOf(hex, b))
  }

  /** No two of these envelopes make the comparison throw. */
  ghost predicate Sortable(hex: Hex, cces: seq<Cce>) {
    NoPair(Clashes(hex), cces)
  }

  /** x goes before y, and would clash with z behind y: then x and y, or y and z, clash already. */
  lemma ClashIsNear(x: OrderKey, y: OrderKey, z: OrderKey)
    requires LexKeys(x, y) <= 0 && LexKeys(y, z) <= 0 && Clash(x, z)
    ensures Clash(x, y) || Clash(y, z)
  {
    FrontFits(x, y, z);
    FrontIsTotal(x, z);
    FrontIsTotal(x, y);
    FrontIsTotal(y, z);
  }

  lemma {:induction false} ComparisonFollowsRank(hex: Hex)
    ensures Follows(CompareCce(hex), RankCce(hex), Clashes(hex))
  {
    RankIsConsistent(hex);
    forall a, b
      ensures CompareCce(hex)(a, b).Err? <==> Clashes(hex)(a, b)
      ensures CompareCce(hex)(a, b).Ok? ==> (CompareCce(hex)(a, b).value <= 0 <==> RankCce(hex)(a, b) <= 0)
    {
      ComparisonThrowsIff(KeyOf(hex, a), KeyOf(hex, b));
      ComparisonIsLexicographic(KeyOf(hex, a), KeyOf(hex, b));
    }
    forall x, y, z | RankCce(hex)(x, y) <= 0 && RankCce(hex)(y, z) <= 0 && Clashes(hex)(x, z)
      ensures Clashes(hex)(x, y) || Clashes(hex)(y, z)
    {
      ClashIsNear(KeyOf(hex, x), KeyOf(hex, y), KeyOf(hex, z));
    }
  }

  lemma SortablePermuted(hex: Hex, a: seq<Cce>, b: seq<Cce>)
    requires multiset(a) == multiset(b)
    ensures Sortable(hex, a) <==> Sortable(hex, b)
  {
    ComparisonFollowsRank(hex);
    if Sortable(hex, a) {
      NoPairPermuted(Clashes(hex), a, b);
    }
    if Sortable(hex, b) {
      NoPairPermuted(Clashes(hex), b, a);
    }
  }

  /**
   The sort throws exactly when some two of the envelopes make the comparison throw; otherwise it
   sorts by the total order.
   */
  lemma OrderThrowsIff(hex: Hex, cces: seq<Cce>)
    ensures OrderCces(hex, cces).Ok? <==> Sortable(hex, cces)
    ensures OrderCces(hex, cces).Ok? ==> OrderCces(hex, cces).value == Sort(RankCce(hex), cces)
  {
    ComparisonFollowsRank(hex);
    TrySortIs(CompareCce(hex), RankCce(hex), Clashes(hex), cces);
  }

  lemma OrderIsPermutation(hex: Hex, cces: seq<Cce>)
    ensures OrderCces(hex, cces).Ok? ==>
      multiset(OrderCces(hex, cces).value) == multiset(cces) && |OrderCces(hex, cces).value| == |cces|
  {
    OrderThrowsIff(hex, cces);
  }

  /** When every row can be identified the sort does not throw; neither does it on one envelope alone. */
  lemma IdentifiedIsSortable(hex: Hex, cces: seq<Cce>)
    requires |cces| <= 1 || forall i | 0 <= i < |cces| :: RowIsIdentified(cces[i])
    ensures Sortable(hex, cces)
  {
    forall i, j | 0 <= i < j < |cces| ensures !Clashes(hex)(cces[i], cces[j]) {
      RowKeyIff(hex, cces[i]);
      RowKeyIff(hex, cces[j]);
    }
  }

  /** Envelope ids are present and no two are equal. */
  ghost predicate DistinctIds(cces: seq<Cce>) {
    && (forall i | 0 <= i < |cces| :: EnvelopeId(cces[i]).Some?)
    && forall i, j | 0 <= i < j < |cces| :: EnvelopeId(cces[i]) != EnvelopeId(cces[j])
  }

  lemma {:induction false} RankTellsApart(hex: Hex, cces: seq<Cce>)
    requires DistinctIds(cces)
    ensures TellsApart(RankCce(hex), cces)
  {
    forall i, j | 0 <= i < |cces| && 0 <= j < |cces|
      && RankCce(hex)(cces[i], cces[j]) <= 0 && RankCce(hex)(cces[j], cces[i]) <= 0
      ensures cces[i] == cces[j]
    {
      KeysAreTotal(KeyOf(hex, cces[i]), KeyOf(hex, cces[j]));
      assert EnvelopeId(cces[i]) == EnvelopeId(cces[j]);
    }
  }

  /** The order of arrival does not matter: the same envelopes come out in the same order, or throw alike. */
  lemma {:induction false} ArrivalOrderIsIrrelevant(hex: Hex, a: seq<Cce>, b: seq<Cce>)
    requires multiset(a) == multiset(b) && DistinctIds(a)
    ensures OrderCces(hex, a).Ok? <==> OrderCces(hex, b).Ok?
    ensures OrderCces(hex, a).Ok? ==> OrderCces(hex, a) == OrderCces(hex, b)
  {
    OrderThrowsIff(hex, a);
    OrderThrowsIff(hex, b);
    SortablePermuted(hex, a, b);
    RankIsConsistent(hex);
    RankTellsApart(hex, a);
    SortForgetsOrder(RankCce(hex), a, b);
  }
}

/**
 Envelopes the accumulator admits and cannot order: two snapshot reads with one commit time and one
 binlog position whose primary key is a number with a fraction, and what they cost.
 */
module Clashes {
  import opened Outcomes
  import opened Instants
  import opened Digests
  import opened Canonical
  import opened CceModel
  import opened CceOrder
  import opened Accumulation
  import opened AccumulatorRuns

  // ---------- the envelope ----------

  function Text(key: string, value: string): Member {
    Member(key, Str(Chars(value)))
  }

  const ROW := Obj([Text("schema", "public"), Text("name", "t"), Member("primary_key", Obj([Member("id", Number(Fractional))]))])

  /** Everything but the envelope id. */
  function Rest(db: string): seq<Member> {
    [Text("kind", "transaction"),
     Member("source", Obj([Text("db_id", db), Text("engine", "mysql")])),
     Member("transaction", Obj([Text("tx_id", "snapshot"), Text("commit_ts", "2026-01-01T00:00:00Z")])),
     Member("offset", Obj([Text("binlog_file", "mysql-bin.000001"), Member("binlog_pos", Number(Integral(4)))])),
     Member("fidelity", Obj([Text("state", "HEALTHY")])),
     Member("completeness", Obj([Text("consumed_offset_key", "snapshot-epoch:snap"), Text("snapshot_epoch_id", "snap"),
                                 Member("gap_detected", Bool(false))])),
     Member("changes", Arr([Obj([Text("operation", "INSERT"), Member("object", ROW)])]))]
  }

  function SnapshotRead(db: string, id: string): Cce {
    Cce(Obj([Text("envelope_id", id)] + Rest(db)), Evidence(Hash(Zero), None, Hash(Zero), None, None))
  }

  lemma {:induction false} LookupAt(members: seq<Member>, i: nat)
    requires i < |members| && forall j | 0 <= j < i :: members[j].key != members[i].key
    ensures Lookup(members, members[i].key) == members[i].value
  {
    if i > 0 {
      LookupAt(members[1..], i - 1);
    }
  }

  lemma TextReads(members: seq<Member>, i: nat, key: string, value: string)
    requires i < |members| && members[i] == Text(key, value) && forall j | 0 <= j < i :: members[j].key != key
    ensures StringOf(Lookup(members, key)) == Some(value)
  {
    LookupAt(members, i);
    var read := StringOf(Str(Chars(value)));
    assert read.Some? && read.value == value;
  }

  /** Two reads differ in their id alone. */
  lemma FieldsOfRead(db: string, id: string, key: string)
    ensures Field(SnapshotRead(db, id).core, key) == if key == "envelope_id" then Str(Chars(id)) else Lookup(Rest(db), key)
  {
    LookupStep(Text("envelope_id", id), Rest(db), key);
  }

  lemma OriginOfRead(db: string, id: string)
    ensures var c := SnapshotRead(db, id);
      StringOf(Field(c.core, "kind")) == Some("transaction") && DbId(c) == Some(db) && Engine(c) == Some("mysql")
  {
    var rest := Rest(db);
    FieldsOfRead(db, id, "kind");
    FieldsOfRead(db, id, "source");
    TextReads(rest, 0, "kind", "transaction");
    LookupAt(rest, 1);
    TextReads(rest[1].value.members, 0, "db_id", db);
    TextReads(rest[1].value.members, 1, "engine", "mysql");
  }

  lemma StateOfRead(db: string, id: string)
    ensures var c := SnapshotRead(db, id);
      EnvelopeId(c) == Some(id) && FidelityState(c) == Some("HEALTHY") && ConsumedOffsetKey(c) == Some("snapshot-epoch:snap")
  {
    var rest := Rest(db);
    FieldsOfRead(db, id, "envelope_id");
    FieldsOfRead(db, id, "fidelity");
    FieldsOfRead(db, id, "completeness");
    TextReads([Text("envelope_id", id)], 0, "envelope_id", id);
    LookupAt(rest, 4);
    LookupAt(rest, 5);
    TextReads(rest[4].value.members, 0, "state", "HEALTHY");
    TextReads(rest[5].value.members, 0, "consumed_offset_key", "snapshot-epoch:snap");
  }

  lemma ReadIsAdmitted(db: string, id: string)
    requires db != "" && id != ""
    ensures Admit(SnapshotRead(db, id)) == Ok(db)
  {
    OriginOfRead(db, id);
    StateOfRead(db, id);
  }

  lemma FractionalHasNoMeaning()
    ensures MeaningOf(Obj([Member("id", Number(Fractional))])).Err?
  {
    assert MeaningOf(Number(Fractional)).Err?;
    assert MembersMeaning([Member("id", Number(Fractional))]).Err?;
  }

  lemma RowOfRead(db: string, id: string)
    ensures FirstObject(SnapshotRead(db, id)) == ROW && !RowIsIdentified(SnapshotRead(db, id))
  {
    FieldsOfRead(db, id, "changes");
    LookupAt(Rest(db), 6);
    LookupAt(Rest(db)[6].value.items[0].members, 1);
    LookupAt(ROW.members, 2);
    FractionalHasNoMeaning();
  }

  /** Any two such reads of one database cannot be compared, so no buffer that holds both can be ordered. */
  lemma FractionalKeysClash(hex: Hex, db: string, a: string, b: string)
    ensures CompareCce(hex)(SnapshotRead(db, a), SnapshotRead(db, b)).Err?
    ensures OrderCces(hex, [SnapshotRead(db, a), SnapshotRead(db, b)]).Err?
    ensures !Sortable(hex, [SnapshotRead(db, a), SnapshotRead(db, b)])
  {
    var x, y := SnapshotRead(db, a), SnapshotRead(db, b);
    forall key | key != "envelope_id" ensures Field(x.core, key) == Field(y.core, key) {
      FieldsOfRead(db, a, key);
      FieldsOfRead(db, b, key);
    }
    RowOfRead(db, a);
    RowOfRead(db, b);
    RowKeyIff(hex, x);
    assert Ties(KeyOf(hex, x), KeyOf(hex, y));
    ComparisonThrowsIff(KeyOf(hex, x), KeyOf(hex, y));
    OrderThrowsIff(hex, [x, y]);
    assert Clashes(hex)([x, y][0], [x, y][1]);
  }

  // ---------- runs ----------

  /** What an admitted envelope changes when it finds its segment neither aged nor full. */
  ghost predicate Joined(h: History, next: History, db: string, c: Cce, now: Instant) {
    && next.closed == h.closed && next.emitted == h.emitted && next.lost == h.lost
    && next.state.order == (if db in h.state.open then h.state.order else h.state.order + [db])
    && db in next.state.open && next.state.open[db].dbId == (if db in h.state.open then h.state.open[db].dbId else db)
    && next.state.open[db].openedAt == (if db in h.state.open then h.state.open[db].openedAt else now)
    && next.state.open[db].objects == Buffered(h.state, db) + [c]
    && forall k | k != db :: (k in next.state.open <==> k in h.state.open)
         && (k in h.state.open ==> next.state.open[k] == h.state.open[k])
  }

  lemma AddJoins(hex: Hex, caps: Caps, h: History, db: string, c: Cce, now: Instant)
    requires Admit(c) == Ok(db) && !Due(caps, h.state, db, now) && |Buffered(h.state, db)| + 1 < caps.maxEvents
    ensures Joined(h, Next(hex, caps, h, Add(c, now, now)), db, c, now)
  {
  }

  /** The state in which `first` has been open since `now` with one read and `second` with two. */
  ghost predicate OneAndTwo(st: State, first: string, second: string, now: Instant) {
    && st.order == [first, second] && first in st.open && second in st.open
    && st.open[first].openedAt == st.open[second].openedAt == now && st.open[first].dbId == first
    && st.open[first].objects == [SnapshotRead(first, "1")]
    && st.open[second].objects == [SnapshotRead(second, "2"), SnapshotRead(second, "3")]
  }

  function ThreeReads(first: string, second: string, now: Instant): seq<Event> {
    [Add(SnapshotRead(first, "1"), now, now), Add(SnapshotRead(second, "2"), now, now), Add(SnapshotRead(second, "3"), now, now)]
  }

  lemma RunOfThree(hex: Hex, caps: Caps, a: Event, b: Event, c: Event)
    ensures Run(hex, caps, [a, b, c]) == Next(hex, caps, Next(hex, caps, Next(hex, caps, NOTHING, a), b), c)
  {
    RunOn(hex, caps, [], a);
    RunOn(hex, caps, [a], b);
    RunOn(hex, caps, [a, b], c);
    assert [] + [a] == [a] && [a] + [b] == [a, b] && [a, b] + [c] == [a, b, c];
  }

  lemma ThreeJoin(hex: Hex, caps: Caps, first: string, second: string, x: Cce, y: Cce, z: Cce, now: Instant)
    requires caps.maxEvents >= 3 && caps.maxAgeMs > 0 && first != second
    requires Admit(x) == Ok(first) && Admit(y) == Ok(second) && Admit(z) == Ok(second)
    ensures var a := Next(hex, caps, NOTHING, Add(x, now, now)); var b := Next(hex, caps, a, Add(y, now, now));
      var c := Next(hex, caps, b, Add(z, now, now));
      Joined(NOTHING, a, first, x, now) && Joined(a, b, second, y, now) && Joined(b, c, second, z, now)
  {
    var a := Next(hex, caps, NOTHING, Add(x, now, now));
    AddJoins(hex, caps, NOTHING, first, x, now);
    AddJoins(hex, caps, a, second, y, now);
    AddJoins(hex, caps, Next(hex, caps, a, Add(y, now, now)), second, z, now);
  }

  lemma JoinedThrice(a: History, b: History, c: History, first: string, second: string, x: Cce, y: Cce, z: Cce, now: Instant)
    requires first != second
    requires Joined(NOTHING, a, first, x, now) && Joined(a, b, second, y, now) && Joined(b, c, second, z, now)
    ensures c.state.order == [first, second] && first in c.state.open && second in c.state.open
    ensures c.state.open[first].openedAt == c.state.open[second].openedAt == now && c.state.open[first].dbId == first
    ensures c.state.open[first].objects == [x] && c.state.open[second].objects == [y, z]
    ensures c.closed == c.emitted == c.lost == []
  {
    assert [] + [x] == [x] && [] + [y] == [y] && [y] + [z] == [y, z] && [] + [first] == [first];
    assert [first] + [second] == [first, second];
  }

  /** Such reads are admitted one after the other and fill the buffers, before any cap is reached. */
  lemma ThreeReadsAreBuffered(hex: Hex, caps: Caps, first: string, second: string, now: Instant)
    requires caps.maxEvents >= 3 && caps.maxAgeMs > 0 && first != "" && second != "" && first != second
    ensures var h := Run(hex, caps, ThreeReads(first, second, now));
      OneAndTwo(h.state, first, second, now) && h.closed == h.emitted == h.lost == []
  {
    var x, y, z := SnapshotRead(first, "1"), SnapshotRead(second, "2"), SnapshotRead(second, "3");
    ReadIsAdmitted(first, "1");
    ReadIsAdmitted(second, "2");
    ReadIsAdmitted(second, "3");
    ThreeJoin(hex, caps, first, second, x, y, z, now);
    RunOfThree(hex, caps, Add(x, now, now), Add(y, now, now), Add(z, now, now));
    var a := Next(hex, caps, NOTHING, Add(x, now, now));
    var b := Next(hex, caps, a, Add(y, now, now));
    JoinedThrice(a, b, Next(hex, caps, b, Add(z, now, now)), first, second, x, y, z, now);
  }

  /** A run that reaches a buffer which cannot be ordered. */
  lemma ClashIsReached(hex: Hex, caps: Caps, first: string, second: string, now: Instant)
    requires caps.maxEvents >= 3 && caps.maxAgeMs > 0 && first != "" && second != "" && first != second
    ensures Stuck(hex, Run(hex, caps, ThreeReads(first, second, now)).state, second)
  {
    ThreeReadsAreBuffered(hex, caps, first, second, now);
    FractionalKeysClash(hex, second, "2", "3");
  }

  lemma OneIsSortable(hex: Hex, st: State, first: string, second: string, now: Instant)
    requires OneAndTwo(st, first, second, now)
    ensures Sortable(hex, st.open[first].objects) && !Sortable(hex, st.open[second].objects)
  {
    IdentifiedIsSortable(hex, st.open[first].objects);
    FractionalKeysClash(hex, second, "2", "3");
  }

  /** With both segments aged a sweep closes the first and throws on the second. */
  lemma SweepOfTwo(hex: Hex, caps: Caps, st: State, first: string, second: string, now: Instant, later: Instant)
    requires OneAndTwo(st, first, second, now) && first != second
    requires Aged(caps, st.open[first], later) && Aged(caps, st.open[second], later)
    ensures var step := Swept(hex, caps, st, st.order, later);
      step.threw && |step.closed| == 1 && step.closed[0].dbId == first && first !in step.state.open
  {
    OneIsSortable(hex, st, first, second, now);
    AgedThrowsIff(hex, caps, st, first, later);
    AgedLeavesOthers(hex, caps, st, first, later);
    var after := CloseIfAged(hex, caps, st, first, later).state;
    AgedThrowsIff(hex, caps, after, second, later);
    assert [first, second][1..] == [second];
  }

  lemma FlushOfTwo(hex: Hex, st: State, first: string, second: string, now: Instant, later: Instant)
    requires OneAndTwo(st, first, second, now) && first != second
    ensures var step := Flushed(hex, st, st.order, later);
      step.threw && |step.closed| == 1 && step.closed[0].dbId == first && first !in step.state.open
  {
    OneIsSortable(hex, st, first, second, now);
    FlushOneThrowsIff(hex, st, first, later);
    var after := FlushOne(hex, st, first, later).state;
    FlushOneThrowsIff(hex, after, second, later);
    assert [first, second][1..] == [second];
  }

  /** A whole run in which a sweep closes the segment of one database and no caller ever gets it. */
  lemma SweepCanLose(hex: Hex, caps: Caps, first: string, second: string, now: Instant, later: Instant)
    requires caps.maxEvents >= 3 && caps.maxAgeMs > 0 && first != "" && second != "" && first != second
    requires now.Parses() && later.Parses() && later.millis.value - now.millis.value >= caps.maxAgeMs
    ensures var h := Run(hex, caps, ThreeReads(first, second, now) + [Sweep(later)]);
      |h.lost| == 1 && h.lost[0].dbId == first && h.emitted == [] && first !in h.state.open
  {
    ThreeReadsAreBuffered(hex, caps, first, second, now);
    SweepOfTwo(hex, caps, Run(hex, caps, ThreeReads(first, second, now)).state, first, second, now, later);
    RunOn(hex, caps, ThreeReads(first, second, now), Sweep(later));
  }

  /** The same at a flush, for instance on shutdown. */
  lemma FlushCanLose(hex: Hex, caps: Caps, first: string, second: string, now: Instant, later: Instant)
    requires caps.maxEvents >= 3 && caps.maxAgeMs > 0 && first != "" && second != "" && first != second
    ensures var h := Run(hex, caps, ThreeReads(first, second, now) + [FlushAll(later)]);
      |h.lost| == 1 && h.lost[0].dbId == first && h.emitted == [] && first !in h.state.open
  {
    ThreeReadsAreBuffered(hex, caps, first, second, now);
    FlushOfTwo(hex, Run(hex, caps, ThreeReads(first, second, now)).state, first, second, now, later);
    RunOn(hex, caps, ThreeReads(first, second, now), FlushAll(later));
  }
}

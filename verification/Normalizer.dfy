/**
 Normalization runs: services/normalization/src/normalizer.ts, accumulator.ts and dedup.ts.
 A record is mapped, grouped with the rest of its transaction, built into a chained CCE and
 emitted, found to be a duplicate, or put into the dead-letter queue.
 */
module Normalization {
  import opened Outcomes
  import opened Digests
  import opened Canonical
  import opened CceModel
  import opened Sequences
  import CanonicalReading

  /**
   A mapped change.  `epoch` holds the parts that identify the snapshot it was read in and `row`
   what identifies the row; both are hashed into a synthetic transaction id when there is no real one.
   */
  datatype ChangeEvent = ChangeEvent(
    dbId: string, txId: Option<string>, epoch: Value, row: Value, header: Value, change: Value)

  /** A transaction under construction; header and database are those of its first change. */
  datatype Group = Group(dbId: string, txId: string, header: Value, snapshot: bool, members: seq<ChangeEvent>)

  // ---------- grouping ----------

  /** `!ev.tx_id`: a snapshot read, which is a transaction of its own. */
  predicate IsSnapshot(e: ChangeEvent) {
    e.txId.None? || e.txId.value == ""
  }

  /** How digests are spelled in synthetic ids: the short epoch id and the row's hexadecimal hash. */
  datatype Names = Names(epoch: Digest -> string, row: Digest -> string)

  /** `snapshotIdentity`: throws when epoch or row identity cannot be serialized. */
  function SnapshotTx(names: Names, e: ChangeEvent): Result<string> {
    var epoch :- CoreHash(e.epoch);
    var hash :- RowKeyHash(e.row);
    Ok("snapshot:" + names.epoch(epoch) + ":" + names.row(hash))
  }

  /** The transaction id to group under; the synthetic one is computed even for an empty real id. */
  function KeyOf(names: Names, e: ChangeEvent): Result<string> {
    if !IsSnapshot(e) then Ok(e.txId.value)
    else
      var synthetic :- SnapshotTx(names, e);
      Ok(if e.txId.Some? then e.txId.value else synthetic)
  }

  function NewGroup(e: ChangeEvent, key: string): Group {
    Group(e.dbId, key, e.header, IsSnapshot(e), [])
  }

  /** The open group after an event, and the groups it completes. */
  datatype Grouping = Grouping(open: Option<Group>, completed: seq<Group>)

  function Grouped(open: Option<Group>, e: ChangeEvent, key: string): Grouping {
    var closes := open.Some? && open.value.txId != key;
    var before := if closes then [open.value] else [];
    var base := if open.Some? && !closes then open.value else NewGroup(e, key);
    var group := base.(members := base.members + [e]);
    if IsSnapshot(e) then Grouping(None, before + [group]) else Grouping(Some(group), before)
  }

  /** What a snapshot read needs, as its producer could check it: an epoch and a row that can be serialized. */
  predicate CanBeGrouped(e: ChangeEvent) {
    IsSnapshot(e) ==> MeaningOf(e.epoch).Ok? && HasRowKey(e.row)
  }

  lemma KeyIff(names: Names, e: ChangeEvent)
    ensures KeyOf(names, e).Ok? <==> CanBeGrouped(e)
  {
    CanonicalReading.SerializableIffMeaningful(e.epoch);
    RowKeyHashIff(e.row);
  }

  // ---------- building and emitting ----------

  /** `core` assembles the hashed part from a group and its context; `valid` is the contract check. */
  datatype Config<!R> = Config(
    mapping: R -> Result<ChangeEvent>, names: Names, core: (Group, Value) -> Result<Value>, valid: Cce -> bool)

  /** `buildCce`, chained to the previous row hash of the database. */
  function Build<R>(cfg: Config<R>, g: Group, context: Value, prev: HashText): Result<Cce> {
    var core :- cfg.core(g, context);
    var event :- CoreHash(core);
    var row :- RowHash(prev, Hash(event));
    var cce := Cce(core, Evidence(Hash(event), Some(prev), Hash(row), None, None));
    if cfg.valid(cce) then Ok(cce) else Err("built CCE failed validation")
  }

  datatype Stats = Stats(emitted: nat, duplicates: nat, dlq: nat)

  datatype State = State(
    open: Option<Group>, seen: map<string, HashText>, lastRow: map<string, HashText>, emitted: seq<Cce>, stats: Stats)

  const INITIAL := State(None, map[], map[], [], Stats(0, 0, 0))

  function LastRow(st: State, db: string): HashText {
    if db in st.lastRow then st.lastRow[db] else GENESIS_ROW_HASH
  }

  function Dlq(st: State): State {
    st.(stats := st.stats.(dlq := st.stats.dlq + 1))
  }

  /** `finalize`: exactly one of emitted, duplicate and dead-lettered. */
  function Finalized<R>(cfg: Config<R>, st: State, g: Group, context: Value): State {
    var built := Build(cfg, g, context, LastRow(st, g.dbId));
    if built.Err? then Dlq(st)
    else
      var cce := built.value;
      var id := OrEmpty(EnvelopeId(cce));
      if id in st.seen && st.seen[id] != cce.evidence.eventHash then Dlq(st)
      else if id in st.seen then st.(stats := st.stats.(duplicates := st.stats.duplicates + 1))
      else
        st.(seen := st.seen[id := cce.evidence.eventHash],
            lastRow := st.lastRow[g.dbId := cce.evidence.rowHash],
            emitted := st.emitted + [cce],
            stats := st.stats.(emitted := st.stats.emitted + 1))
  }

  function FinalizedAll<R>(cfg: Config<R>, st: State, groups: seq<Group>, context: Group -> Value): State
    decreases |groups|
  {
    if groups == [] then st
    else FinalizedAll(cfg, Finalized(cfg, st, groups[0], context(groups[0])), groups[1..], context)
  }

  /** A record that maps but cannot be grouped makes the call throw and leaves no trace. */
  predicate Throws<R>(cfg: Config<R>, record: R) {
    var event := cfg.mapping(record);
    event.Ok? && KeyOf(cfg.names, event.value).Err?
  }

  /** The providers' answers at the time of the call are given as a function of the group. */
  datatype Call<!R> = Process(record: R, context: Group -> Value) | FlushOpen(context: Group -> Value)

  function Called<R>(cfg: Config<R>, st: State, call: Call<R>): State {
    match call
    case Process(record, context) =>
      var event := cfg.mapping(record);
      if event.Err? then Dlq(st)
      else
        var key := KeyOf(cfg.names, event.value);
        if key.Err? then st
        else
          var grouping := Grouped(st.open, event.value, key.value);
          FinalizedAll(cfg, st.(open := grouping.open), grouping.completed, context)
    case FlushOpen(context) =>
      if st.open.None? then st else Finalized(cfg, st.(open := None), st.open.value, context(st.open.value))
  }

  // ---------- runs ----------

  /**
   A run with what the state does not keep: events mapped, those of them grouped and those that
   made the call throw, groups finished, and the number of records not mapped.
   */
  datatype History = History(
    state: State, mapped: seq<ChangeEvent>, grouped: seq<ChangeEvent>, thrown: seq<ChangeEvent>,
    finished: seq<Group>, unmapped: nat)

  const NOTHING := History(INITIAL, [], [], [], [], 0)

  function Next<R>(cfg: Config<R>, h: History, call: Call<R>): History {
    var state := Called(cfg, h.state, call);
    match call
    case Process(record, context) =>
      var event := cfg.mapping(record);
      if event.Err? then h.(state := state, unmapped := h.unmapped + 1)
      else
        var key := KeyOf(cfg.names, event.value);
        if key.Err? then h.(mapped := h.mapped + [event.value], thrown := h.thrown + [event.value])
        else h.(state := state, mapped := h.mapped + [event.value], grouped := h.grouped + [event.value],
                finished := h.finished + Grouped(h.state.open, event.value, key.value).completed)
    case FlushOpen(context) =>
      h.(state := state, finished := h.finished + if h.state.open.Some? then [h.state.open.value] else [])
  }

  function Run<R>(cfg: Config<R>, calls: seq<Call<R>>): History {
    if calls == [] then NOTHING
    else Next(cfg, Run(cfg, calls[..|calls| - 1]), calls[|calls| - 1])
  }

  // ---------- what a run keeps ----------

  function Members(groups: seq<Group>): seq<ChangeEvent> {
    if groups == [] then [] else Members(groups[..|groups| - 1]) + groups[|groups| - 1].members
  }

  function OpenMembers(open: Option<Group>): seq<ChangeEvent> {
    if open.Some? then open.value.members else []
  }

  /** One transaction: it has changes, and they share its id. */
  ghost predicate OneTransaction(names: Names, g: Group) {
    g.members != [] && forall i | 0 <= i < |g.members| :: KeyOf(names, g.members[i]) == Ok(g.txId)
  }

  /** The open group is one transaction with no snapshot read in it. */
  ghost predicate OpenHolds(names: Names, open: Option<Group>) {
    && (open.Some? ==> OneTransaction(names, open.value))
    && (open.Some? ==> forall i | 0 <= i < |open.value.members| :: !IsSnapshot(open.value.members[i]))
  }

  ghost predicate AllTransactions(names: Names, groups: seq<Group>) {
    forall i | 0 <= i < |groups| :: OneTransaction(names, groups[i])
  }

  /** The events that can be grouped, or those that cannot, in order of arrival. */
  function Sifted(events: seq<ChangeEvent>, grouped: bool): seq<ChangeEvent> {
    if events == [] then []
    else
      var last := events[|events| - 1];
      Sifted(events[..|events| - 1], grouped) + if CanBeGrouped(last) == grouped then [last] else []
  }

  /** Every mapped event that can be grouped is in exactly one group; the others threw. */
  ghost predicate GroupsHold(names: Names, h: History) {
    && h.grouped == Members(h.finished) + OpenMembers(h.state.open)
    && h.grouped == Sifted(h.mapped, true) && h.thrown == Sifted(h.mapped, false)
    && AllTransactions(names, h.finished) && OpenHolds(names, h.state.open)
  }

  function EmittedOf(emitted: seq<Cce>, db: string): seq<Cce> {
    if emitted == [] then []
    else
      var last := emitted[|emitted| - 1];
      if DbId(last) == Some(db) then EmittedOf(emitted[..|emitted| - 1], db) + [last] else EmittedOf(emitted[..|emitted| - 1], db)
  }

  /** The row hash after these envelopes. */
  function EndOf(chain: seq<Cce>): HashText {
    if chain == [] then GENESIS_ROW_HASH else chain[|chain| - 1].evidence.rowHash
  }

  /** Sound envelopes, the first linked to genesis and every other to the one before. */
  ghost predicate Unbroken(chain: seq<Cce>) {
    if chain == [] then true
    else
      var init, last := chain[..|chain| - 1], chain[|chain| - 1];
      Unbroken(init) && Sound(last) && last.evidence.prevRowHash == Some(EndOf(init))
  }

  ghost predicate ChainHolds(st: State, db: string) {
    && Unbroken(EmittedOf(st.emitted, db))
    && LastRow(st, db) == EndOf(EmittedOf(st.emitted, db)) && IsHashToken(LastRow(st, db))
  }

  function IdOf(c: Cce): string {
    OrEmpty(EnvelopeId(c))
  }

  /** Emitted envelopes have distinct ids, all of them seen with the hash they were emitted with. */
  ghost predicate IdsHold(st: State) {
    && (forall i | 0 <= i < |st.emitted| :: IdOf(st.emitted[i]) in st.seen
          && st.seen[IdOf(st.emitted[i])] == st.emitted[i].evidence.eventHash)
    && forall i, j | 0 <= i < j < |st.emitted| :: IdOf(st.emitted[i]) != IdOf(st.emitted[j])
  }

  ghost predicate StateHolds(st: State) {
    && st.stats.emitted == |st.emitted| && IdsHold(st) && forall db :: ChainHolds(st, db)
  }

  function Total(s: Stats): nat {
    s.emitted + s.duplicates + s.dlq
  }

  ghost predicate Inv(names: Names, h: History) {
    GroupsHold(names, h) && StateHolds(h.state) && Total(h.state.stats) == h.unmapped + |h.finished|
  }

  /** The assembled core carries the database of its group. */
  ghost predicate Faithful<R(!new)>(cfg: Config<R>) {
    forall g, context | cfg.core(g, context).Ok? ::
      StringOf(Field(Field(cfg.core(g, context).value, "source"), "db_id")) == Some(g.dbId)
  }

  lemma BuiltIsSound<R(!new)>(cfg: Config<R>, g: Group, context: Value, prev: HashText)
    requires Faithful(cfg) && Build(cfg, g, context, prev).Ok? && IsHashToken(prev)
    ensures var c := Build(cfg, g, context, prev).value;
      Sound(c) && c.evidence.prevRowHash == Some(prev) && DbId(c) == Some(g.dbId) && IsHashToken(c.evidence.rowHash)
  {
    VerifyCceIsSoundness(Build(cfg, g, context, prev).value);
  }

  lemma EmittedStep(emitted: seq<Cce>, c: Cce, db: string)
    ensures EmittedOf(emitted + [c], db) == if DbId(c) == Some(db) then EmittedOf(emitted, db) + [c] else EmittedOf(emitted, db)
  {
    assert (emitted + [c])[..|emitted|] == emitted;
  }

  lemma UnbrokenStep(chain: seq<Cce>, c: Cce)
    requires Unbroken(chain) && Sound(c) && c.evidence.prevRowHash == Some(EndOf(chain))
    ensures Unbroken(chain + [c]) && EndOf(chain + [c]) == c.evidence.rowHash
  {
    assert (chain + [c])[..|chain|] == chain;
  }

  /** Adding an envelope linked to its database's last row hash. */
  lemma EmitKeepsChains(st: State, next: State, db: string, c: Cce)
    requires (forall k :: ChainHolds(st, k)) && Sound(c) && DbId(c) == Some(db) && IsHashToken(c.evidence.rowHash)
    requires c.evidence.prevRowHash == Some(LastRow(st, db))
    requires next.emitted == st.emitted + [c] && next.lastRow == st.lastRow[db := c.evidence.rowHash]
    ensures forall k :: ChainHolds(next, k)
  {
    forall k ensures ChainHolds(next, k) {
      assert ChainHolds(st, k);
      EmittedStep(st.emitted, c, k);
      if k == db {
        UnbrokenStep(EmittedOf(st.emitted, k), c);
      }
    }
  }

  lemma SameChains(st: State, next: State)
    requires (forall k :: ChainHolds(st, k)) && next.emitted == st.emitted && next.lastRow == st.lastRow
    ensures forall k :: ChainHolds(next, k)
  {
    forall k ensures ChainHolds(next, k) {
      assert ChainHolds(st, k);
    }
  }

  /** A first emission under an id is remembered with its hash. */
  lemma EmitKeepsIds(st: State, next: State, c: Cce)
    requires IdsHold(st) && IdOf(c) !in st.seen
    requires next.emitted == st.emitted + [c] && next.seen == st.seen[IdOf(c) := c.evidence.eventHash]
    ensures IdsHold(next)
  {
  }

  /** The state after an emission. */
  lemma EmissionKeeps<R(!new)>(cfg: Config<R>, st: State, g: Group, context: Value)
    requires Faithful(cfg) && StateHolds(st) && Build(cfg, g, context, LastRow(st, g.dbId)).Ok?
    requires IdOf(Build(cfg, g, context, LastRow(st, g.dbId)).value) !in st.seen
    ensures StateHolds(Finalized(cfg, st, g, context))
  {
    var next, c := Finalized(cfg, st, g, context), Build(cfg, g, context, LastRow(st, g.dbId)).value;
    assert ChainHolds(st, g.dbId);
    BuiltIsSound(cfg, g, context, LastRow(st, g.dbId));
    EmitKeepsChains(st, next, g.dbId, c);
    EmitKeepsIds(st, next, c);
  }

  lemma FinalizeKeeps<R(!new)>(cfg: Config<R>, st: State, g: Group, context: Value)
    requires Faithful(cfg) && StateHolds(st)
    ensures var next := Finalized(cfg, st, g, context);
      StateHolds(next) && Total(next.stats) == Total(st.stats) + 1 && next.open == st.open
  {
    var built := Build(cfg, g, context, LastRow(st, g.dbId));
    if built.Ok? && IdOf(built.value) !in st.seen {
      EmissionKeeps(cfg, st, g, context);
    } else {
      SameChains(st, Finalized(cfg, st, g, context));
    }
  }

  lemma {:induction false} FinalizeAllKeeps<R(!new)>(cfg: Config<R>, st: State, groups: seq<Group>, context: Group -> Value)
    requires Faithful(cfg) && StateHolds(st)
    ensures var next := FinalizedAll(cfg, st, groups, context);
      StateHolds(next) && Total(next.stats) == Total(st.stats) + |groups| && next.open == st.open
    decreases |groups|
  {
    if groups != [] {
      FinalizeKeeps(cfg, st, groups[0], context(groups[0]));
      FinalizeAllKeeps(cfg, Finalized(cfg, st, groups[0], context(groups[0])), groups[1..], context);
    }
  }

  lemma MembersStep(groups: seq<Group>, g: Group)
    ensures Members(groups + [g]) == Members(groups) + g.members
  {
    assert (groups + [g])[..|groups|] == groups;
  }

  /** The group an event joins. */
  function Joined(open: Option<Group>, e: ChangeEvent, key: string): Group {
    var base := if open.Some? && open.value.txId == key then open.value else NewGroup(e, key);
    base.(members := base.members + [e])
  }

  lemma JoinedIsOneTransaction(names: Names, open: Option<Group>, e: ChangeEvent, key: string)
    requires OpenHolds(names, open) && KeyOf(names, e) == Ok(key)
    ensures OneTransaction(names, Joined(open, e, key))
    ensures !IsSnapshot(e) ==> OpenHolds(names, Some(Joined(open, e, key)))
  {
    var g := Joined(open, e, key);
    var n := |g.members| - 1;
    assert g.members[n] == e;
    if open.Some? && open.value.txId == key {
      assert forall i | 0 <= i < n :: g.members[i] == open.value.members[i];
    }
  }

  /** An event goes to the end of the open group or starts one; nothing is lost or reordered. */
  lemma GroupingKeepsOrder(finished: seq<Group>, open: Option<Group>, e: ChangeEvent, key: string)
    ensures var r := Grouped(open, e, key);
      Members(finished + r.completed) + OpenMembers(r.open) == Members(finished) + OpenMembers(open) + [e]
  {
    var closes := open.Some? && open.value.txId != key;
    var before := if closes then [open.value] else [];
    var group := Joined(open, e, key);
    assert finished + [] == finished;
    if closes {
      MembersStep(finished, open.value);
    }
    assert Members(finished + before) + group.members == Members(finished) + OpenMembers(open) + [e];
    if IsSnapshot(e) {
      MembersStep(finished + before, group);
      Regroup(finished, before, [group]);
    }
  }

  lemma GroupingKeepsTransactions(names: Names, open: Option<Group>, e: ChangeEvent, key: string)
    requires OpenHolds(names, open) && KeyOf(names, e) == Ok(key)
    ensures AllTransactions(names, Grouped(open, e, key).completed) && OpenHolds(names, Grouped(open, e, key).open)
  {
    JoinedIsOneTransaction(names, open, e, key);
    var r := Grouped(open, e, key);
    forall i | 0 <= i < |r.completed| ensures OneTransaction(names, r.completed[i]) {
      assert r.completed[i] == Joined(open, e, key) || r.completed[i] == open.value;
    }
  }

  /** A snapshot read is completed at once, alone exactly when its id is not that of the open group. */
  lemma SnapshotStandsAlone(names: Names, open: Option<Group>, e: ChangeEvent, key: string)
    requires OpenHolds(names, open) && (e.txId.None? || e.txId.value == "") && KeyOf(names, e) == Ok(key)
    ensures var done := Grouped(open, e, key).completed;
      done != [] && (done[|done| - 1].members == [e] <==> open.None? || open.value.txId != key)
  {
    if open.Some? {
      assert open.value.members != [] ==> |open.value.members + [e]| > 1;
    }
    assert [] + [e] == [e];
  }

  lemma SiftedStep(events: seq<ChangeEvent>, e: ChangeEvent, grouped: bool)
    ensures Sifted(events + [e], grouped) == Sifted(events, grouped) + if CanBeGrouped(e) == grouped then [e] else []
  {
    assert (events + [e])[..|events|] == events;
  }

  lemma SiftStep(names: Names, events: seq<ChangeEvent>, e: ChangeEvent)
    ensures KeyOf(names, e).Ok? ==>
      Sifted(events + [e], true) == Sifted(events, true) + [e] && Sifted(events + [e], false) == Sifted(events, false)
    ensures KeyOf(names, e).Err? ==>
      Sifted(events + [e], false) == Sifted(events, false) + [e] && Sifted(events + [e], true) == Sifted(events, true)
  {
    KeyIff(names, e);
    SiftedStep(events, e, true);
    SiftedStep(events, e, false);
    assert Sifted(events, true) + [] == Sifted(events, true) && Sifted(events, false) + [] == Sifted(events, false);
  }

  /** A mapped event that can be grouped. */
  lemma GroupedKeeps<R(!new)>(cfg: Config<R>, h: History, e: ChangeEvent, key: string, context: Group -> Value)
    requires Faithful(cfg) && Inv(cfg.names, h) && KeyOf(cfg.names, e) == Ok(key)
    ensures var grouping := Grouped(h.state.open, e, key);
      var state := FinalizedAll(cfg, h.state.(open := grouping.open), grouping.completed, context);
      Inv(cfg.names, h.(state := state, mapped := h.mapped + [e], grouped := h.grouped + [e], finished := h.finished + grouping.completed))
  {
    var grouping := Grouped(h.state.open, e, key);
    var st := h.state.(open := grouping.open);
    SiftStep(cfg.names, h.mapped, e);
    GroupingKeepsOrder(h.finished, h.state.open, e, key);
    GroupingKeepsTransactions(cfg.names, h.state.open, e, key);
    AllTransactionsConcat(cfg.names, h.finished, grouping.completed);
    SameChains(h.state, st);
    FinalizeAllKeeps(cfg, st, grouping.completed, context);
  }

  lemma AllTransactionsConcat(names: Names, a: seq<Group>, b: seq<Group>)
    requires AllTransactions(names, a) && AllTransactions(names, b)
    ensures AllTransactions(names, a + b)
  {
  }

  lemma FlushKeeps<R(!new)>(cfg: Config<R>, h: History, context: Group -> Value)
    requires Faithful(cfg) && Inv(cfg.names, h) && h.state.open.Some?
    ensures var g := h.state.open.value;
      Inv(cfg.names, h.(state := Finalized(cfg, h.state.(open := None), g, context(g)), finished := h.finished + [g]))
  {
    var g, st := h.state.open.value, h.state.(open := None);
    MembersStep(h.finished, g);
    assert Members(h.finished + [g]) + [] == h.grouped;
    AllTransactionsConcat(cfg.names, h.finished, [g]);
    SameChains(h.state, st);
    FinalizeKeeps(cfg, st, g, context(g));
  }

  lemma NextKeeps<R(!new)>(cfg: Config<R>, h: History, call: Call<R>)
    requires Faithful(cfg) && Inv(cfg.names, h)
    ensures Inv(cfg.names, Next(cfg, h, call))
  {
    match call
    case Process(record, context) =>
      var event := cfg.mapping(record);
      if event.Err? {
        SameChains(h.state, Dlq(h.state));
      } else {
        var key := KeyOf(cfg.names, event.value);
        SiftStep(cfg.names, h.mapped, event.value);
        if key.Ok? {
          GroupedKeeps(cfg, h, event.value, key.value, context);
        }
      }
    case FlushOpen(context) =>
      assert h.finished + [] == h.finished;
      if h.state.open.Some? {
        FlushKeeps(cfg, h, context);
      }
  }

  /**
   In every run: each mapped change lies in exactly one group, in the order of arrival, unless its
   synthetic id cannot be computed and the call throws; emitted, duplicate and dead-lettered add up
   to the records that did not map and the groups finished; emitted ids are distinct; and each
   database's envelopes form one chain from genesis.
   */
  lemma {:induction false} EveryRunHolds<R(!new)>(cfg: Config<R>, calls: seq<Call<R>>)
    requires Faithful(cfg)
    ensures Inv(cfg.names, Run(cfg, calls))
  {
    if calls == [] {
      forall db ensures ChainHolds(INITIAL, db) {
        assert EmittedOf([], db) == [];
      }
      assert Run(cfg, calls) == NOTHING && Members([]) == [];
    } else {
      EveryRunHolds(cfg, calls[..|calls| - 1]);
      NextKeeps(cfg, Run(cfg, calls[..|calls| - 1]), calls[|calls| - 1]);
    }
  }

  // ---------- what is lost ----------

  lemma {:induction false} SiftedNothing(events: seq<ChangeEvent>)
    ensures Sifted(events, false) == [] <==> forall i | 0 <= i < |events| :: CanBeGrouped(events[i])
    ensures Sifted(events, false) == [] ==> Sifted(events, true) == events
    ensures |Sifted(events, true)| + |Sifted(events, false)| == |events|
  {
    if events != [] {
      SiftedNothing(events[..|events| - 1]);
      InitAndLast(events);
    }
  }

  /**
   Nothing is lost exactly when every snapshot read among the mapped changes has an epoch and a row
   that can be serialized; then all mapped changes are in groups, in order of arrival.
   */
  lemma NothingIsLostIff<R(!new)>(cfg: Config<R>, calls: seq<Call<R>>)
    requires Faithful(cfg)
    ensures var h := Run(cfg, calls);
      && (h.thrown == [] <==> forall i | 0 <= i < |h.mapped| :: CanBeGrouped(h.mapped[i]))
      && (h.thrown == [] ==> h.mapped == Members(h.finished) + OpenMembers(h.state.open))
      && |h.mapped| == |Members(h.finished)| + |OpenMembers(h.state.open)| + |h.thrown|
  {
    EveryRunHolds(cfg, calls);
    SiftedNothing(Run(cfg, calls).mapped);
  }

  /** `snapshotEpochId`: the five fields it hashes. */
  function EpochOf(dbId: string, server: string, file: string, pos: int, startTs: string): Value {
    Obj([Member("db_id", Str(Chars(dbId))), Member("server_uuid", Str(Chars(server))),
         Member("snapshot_start_binlog_file", Str(Chars(file))), Member("snapshot_start_binlog_pos", Number(Integral(pos))),
         Member("snapshot_start_ts", Str(Chars(startTs)))])
  }

  /** A snapshot read of a row whose key is the number 2^53, at the start of a binlog file. */
  function WithUnsafeKey(dbId: string): ChangeEvent {
    ChangeEvent(
      dbId, None, EpochOf(dbId, "server", "mysql-bin.000001", 4, "2026-01-01T00:00:00Z"),
      Obj([Member("schema", Str(Chars("public"))), Member("name", Str(Chars("t"))),
           Member("primary_key", Obj([Member("id", Number(Integral(MAX_SAFE + 1)))]))]),
      Null, Null)
  }

  /** The epoch is not what is wrong with it: it can be serialized whenever its position is a safe integer. */
  lemma EpochIsMeaningful(dbId: string, server: string, file: string, pos: int, startTs: string)
    ensures MeaningOf(EpochOf(dbId, server, file, pos, startTs)).Ok? <==> -MAX_SAFE <= pos <= MAX_SAFE
  {
    var ms := EpochOf(dbId, server, file, pos, startTs).members;
    assert ms == [ms[0]] + ([ms[1]] + ([ms[2]] + ([ms[3]] + ([ms[4]] + []))));
    MeaningStep(ms[4], []);
    MeaningStep(ms[3], [ms[4]] + []);
    MeaningStep(ms[2], [ms[3]] + ([ms[4]] + []));
    MeaningStep(ms[1], [ms[2]] + ([ms[3]] + ([ms[4]] + [])));
    MeaningStep(ms[0], [ms[1]] + ([ms[2]] + ([ms[3]] + ([ms[4]] + []))));
  }

  /** It maps, and is then in no group, not emitted, not a duplicate and not in the dead-letter queue. */
  lemma UnsafeKeyIsLost<R(!new)>(cfg: Config<R>, h: History, record: R, dbId: string, context: Group -> Value)
    requires cfg.mapping(record) == Ok(WithUnsafeKey(dbId))
    ensures Throws(cfg, record) && MeaningOf(WithUnsafeKey(dbId).epoch).Ok?
    ensures Next(cfg, h, Process(record, context)) ==
      h.(mapped := h.mapped + [WithUnsafeKey(dbId)], thrown := h.thrown + [WithUnsafeKey(dbId)])
  {
    var e := WithUnsafeKey(dbId);
    KeyIff(cfg.names, e);
    EpochIsMeaningful(dbId, "server", "mysql-bin.000001", 4, "2026-01-01T00:00:00Z");
    var ms := e.row.members;
    assert ms == [ms[0]] + [ms[1], ms[2]];
    LookupStep(ms[0], [ms[1], ms[2]], "primary_key");
    FieldOfTwo(ms[1], ms[2], "primary_key");
    var key := ms[2].value;
    assert MeaningOf(key.members[0].value).Err? && MembersMeaning(key.members[1..]) == Ok(map[]);
    assert MeaningOf(key).Err?;
    assert Field(e.row, "primary_key") == key && !HasRowKey(e.row);
  }
}

/** The normalizer's objects, updated in place as specified. */
module Normalizer {
  import opened Outcomes
  import opened Digests
  import opened CceModel
  import opened Canonical
  import opened Normalization
  import opened NormalizationRuns

  class TransactionAccumulator {
    const names: Names
    var key: Option<string>
    var group: Option<Group>

    ghost predicate Valid()
      reads this
    {
      group.Some? ==> key == Some(group.value.txId)
    }

    constructor (names: Names)
      ensures Valid() && group == None && this.names == names
    {
      this.names, key, group := names, None, None;
    }

    /** Throws before it changes anything when the synthetic id cannot be computed. */
    method Add(e: ChangeEvent) returns (r: Result<seq<Group>>)
      requires Valid()
      modifies this`key, this`group
      ensures Valid()
      ensures var k := KeyOf(names, e);
        && (r.Ok? <==> k.Ok?) && (k.Err? ==> group == old(group))
        && (k.Ok? ==> Grouped(old(group), e, k.value) == Grouping(group, r.value))
    {
      var synthetic: Option<string> := None;
      if IsSnapshot(e) {
        var id :- SnapshotTx(names, e);
        synthetic := Some(id);
      }
      var k := if e.txId.Some? then e.txId.value else synthetic.value;
      var completed: seq<Group> := [];
      if group.Some? && Some(k) != key {
        completed := completed + [group.value];
        group := None;
      }
      if group.None? {
        key, group := Some(k), Some(NewGroup(e, k));
      }
      group := Some(group.value.(members := group.value.members + [e]));
      if IsSnapshot(e) {
        completed := completed + [group.value];
        group, key := None, None;
      }
      r := Ok(completed);
    }

    method Flush() returns (g: Option<Group>)
      modifies this`key, this`group
      ensures g == old(group) && group == None && Valid()
    {
      g := group;
      group, key := None, None;
    }
  }

  datatype EmitAction = EMIT | DUPLICATE | INTEGRITY_VIOLATION

  class CceStreamGuard {
    var seen: map<string, HashText>

    constructor ()
      ensures seen == map[]
    {
      seen := map[];
    }

    method Check(c: Cce) returns (action: EmitAction)
      modifies this
      ensures action == if IdOf(c) !in old(seen) then EMIT
                        else if old(seen)[IdOf(c)] == c.evidence.eventHash then DUPLICATE else INTEGRITY_VIOLATION
      ensures seen == if action == EMIT then old(seen)[IdOf(c) := c.evidence.eventHash] else old(seen)
    {
      var id := IdOf(c);
      if id in seen {
        return if seen[id] != c.evidence.eventHash then INTEGRITY_VIOLATION else DUPLICATE;
      }
      seen := seen[id := c.evidence.eventHash];
      action := EMIT;
    }
  }

  class Normalizer<R> {
    const cfg: Config<R>
    const acc: TransactionAccumulator
    const guard: CceStreamGuard
    var lastRowHash: map<string, HashText>
    var emitted: seq<Cce>
    var stats: Stats

    /** The guard remembers what was emitted. */
    ghost predicate Valid()
      reads this, acc, guard
    {
      acc.Valid() && acc.names == cfg.names && Remembers(Value())
    }

    ghost function Value(): State
      reads this, acc, guard
    {
      State(acc.group, guard.seen, lastRowHash, emitted, stats)
    }

    constructor (cfg: Config<R>)
      ensures Valid() && Value() == INITIAL && this.cfg == cfg && fresh(acc) && fresh(guard)
    {
      this.cfg := cfg;
      acc := new TransactionAccumulator(cfg.names);
      guard := new CceStreamGuard();
      lastRowHash, emitted, stats := map[], [], Stats(0, 0, 0);
    }

    /** `finalize`; the sink and the dead-letter queue take what they are given. */
    method Finalize(g: Group, context: Value)
      requires Valid()
      modifies this`lastRowHash, this`emitted, this`stats, guard
      ensures Valid() && Value() == Finalized(cfg, old(Value()), g, context)
      ensures Settles(cfg, old(Value()), g, context, Value())
    {
      ghost var before := Value();
      FinalizeCounted(g, context);
      FinishedSettles(cfg, before, g, context);
    }

    method FinalizeCounted(g: Group, context: Value)
      modifies this`lastRowHash, this`emitted, this`stats, guard
      ensures Value() == Finalized(cfg, old(Value()), g, context)
    {
      var prev := if g.dbId in lastRowHash then lastRowHash[g.dbId] else GENESIS_ROW_HASH;
      var built := Build(cfg, g, context, prev);
      if built.Err? {
        stats := stats.(dlq := stats.dlq + 1);
        return;
      }
      var action := guard.Check(built.value);
      if action == INTEGRITY_VIOLATION {
        stats := stats.(dlq := stats.dlq + 1);
        return;
      }
      if action == DUPLICATE {
        stats := stats.(duplicates := stats.duplicates + 1);
        return;
      }
      lastRowHash := lastRowHash[g.dbId := built.value.evidence.rowHash];
      emitted := emitted + [built.value];
      stats := stats.(emitted := stats.emitted + 1);
    }

    method FinalizeEach(groups: seq<Group>, context: Group -> Value)
      requires Valid()
      modifies this`lastRowHash, this`emitted, this`stats, guard
      ensures Valid() && Value() == FinalizedAll(cfg, old(Value()), groups, context)
    {
      var rest := groups;
      while rest != []
        invariant Valid()
        invariant FinalizedAll(cfg, Value(), rest, context) == FinalizedAll(cfg, old(Value()), groups, context)
        decreases |rest|
      {
        Finalize(rest[0], context(rest[0]));
        rest := rest[1..];
      }
    }

    method Process(record: R, context: Group -> Value) returns (threw: bool)
      requires Valid()
      modifies this`lastRowHash, this`emitted, this`stats, guard, acc
      ensures Valid() && Value() == Called(cfg, old(Value()), Call.Process(record, context))
      ensures threw <==> Throws(cfg, record)
    {
      var event := cfg.mapping(record);
      if event.Err? {
        stats := stats.(dlq := stats.dlq + 1);
        return false;
      }
      var completed := acc.Add(event.value);
      if completed.Err? {
        return true;
      }
      FinalizeEach(completed.value, context);
      threw := false;
    }

    method Flush(context: Group -> Value)
      requires Valid()
      modifies this`lastRowHash, this`emitted, this`stats, guard, acc
      ensures Valid() && Value() == Called(cfg, old(Value()), FlushOpen(context))
    {
      var g := acc.Flush();
      if g.Some? {
        Finalize(g.value, context(g.value));
      }
    }
  }
}

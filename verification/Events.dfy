/**
 The drift-event table in its two encodings: Postgres stores a missing hash as
 NULL and compares through COALESCE, SQLite stores the empty string.
 */
module Events {
  import opened Base
  import opened Severity

  type Id = nat

  datatype EventType = Added | Modified | Deleted

  /** A detected change; an empty hash means that the file is missing on that side. */
  datatype DriftEvent = DriftEvent(
    moduleId: Id, tagId: Id, filename: string, eventType: EventType,
    previousHash: string, currentHash: string, severity: DriftSeverity, detectedAt: nat)

  datatype Acknowledgement = Acknowledgement(who: string, at: nat)

  datatype PgRow = PgRow(
    id: Id, moduleId: Id, tagId: Id, filename: string, eventType: EventType,
    previousHash: Option<string>, currentHash: Option<string>, severity: DriftSeverity, detectedAt: nat,
    ack: Option<Acknowledgement>)

  datatype LiteRow = LiteRow(
    id: Id, moduleId: Id, tagId: Id, filename: string, eventType: EventType,
    previousHash: string, currentHash: string, severity: DriftSeverity, detectedAt: nat,
    ack: Option<Acknowledgement>)

  /** The columns of the unique index. */
  datatype EventKey = EventKey(
    tagId: Id, filename: string, eventType: EventType, previousHash: string, currentHash: string)

  function KeyOf(e: DriftEvent): EventKey {
    EventKey(e.tagId, e.filename, e.eventType, e.previousHash, e.currentHash)
  }

  function Nullable(hash: string): Option<string> { if hash != "" then Some(hash) else None }

  function Coalesce(hash: Option<string>): string { if hash.Some? then hash.value else "" }

  function PgKey(r: PgRow): EventKey {
    EventKey(r.tagId, r.filename, r.eventType, Coalesce(r.previousHash), Coalesce(r.currentHash))
  }

  function LiteKey(r: LiteRow): EventKey {
    EventKey(r.tagId, r.filename, r.eventType, r.previousHash, r.currentHash)
  }

  function PgRowOf(id: Id, e: DriftEvent): PgRow {
    PgRow(id, e.moduleId, e.tagId, e.filename, e.eventType, Nullable(e.previousHash), Nullable(e.currentHash),
          e.severity, e.detectedAt, None)
  }

  function LiteRowOf(id: Id, e: DriftEvent): LiteRow {
    LiteRow(id, e.moduleId, e.tagId, e.filename, e.eventType, e.previousHash, e.currentHash,
            e.severity, e.detectedAt, None)
  }

  // ---------------------------------------------------------------------------
  // The batch statement: numbered placeholders and one flat argument list

  datatype Arg = Uuid(id: Id) | Text(text: string) | Kind(kind: EventType) | Level(level: DriftSeverity) | Time(at: nat) | Null

  function HashArg(hash: string): Arg { if hash != "" then Text(hash) else Null }

  /** The values of one event, in the order of the INSERT's column list. */
  function Columns(e: DriftEvent): (columns: seq<Arg>)
    ensures |columns| == 8
  {
    [Uuid(e.moduleId), Uuid(e.tagId), Text(e.filename), Kind(e.eventType),
     HashArg(e.previousHash), HashArg(e.currentHash), Level(e.severity), Time(e.detectedAt)]
  }

  /** The values that a row of placeholders denotes. */
  function Bound(args: seq<Arg>, row: seq<nat>): seq<Arg>
    requires InRange(row, |args|)
  {
    seq(|row|, j requires 0 <= j < |row| => args[row[j] - 1])
  }

  predicate InRange(row: seq<nat>, count: nat) {
    forall j :: 0 <= j < |row| ==> 1 <= row[j] <= count
  }

  /** Row i of the VALUES list denotes exactly the columns of event i, and the rows use 1..8n once each. */
  method BuildBatch(events: seq<DriftEvent>) returns (placeholders: seq<seq<nat>>, args: seq<Arg>)
    ensures |placeholders| == |events| && |args| == 8 * |events|
    ensures forall i :: 0 <= i < |events| ==>
              InRange(placeholders[i], |args|) && Bound(args, placeholders[i]) == Columns(events[i])
    ensures forall i :: 0 <= i < |events| ==> placeholders[i] == RowNumbers(8 * i)
  {
    placeholders, args := [], [];
    for i := 0 to |events|
      invariant |placeholders| == i && |args| == 8 * i
      invariant forall k :: 0 <= k < i ==>
                  InRange(placeholders[k], |args|) && Bound(args, placeholders[k]) == Columns(events[k])
      invariant forall k :: 0 <= k < i ==> placeholders[k] == RowNumbers(8 * k)
    {
      var base := i * 8;
      var row := [base + 1, base + 2, base + 3, base + 4, base + 5, base + 6, base + 7, base + 8];
      var e := events[i];
      var prevHash, currHash := Null, Null;
      if e.previousHash != "" {
        prevHash := Text(e.previousHash);
      }
      if e.currentHash != "" {
        currHash := Text(e.currentHash);
      }
      var values := [Uuid(e.moduleId), Uuid(e.tagId), Text(e.filename), Kind(e.eventType),
                     prevHash, currHash, Level(e.severity), Time(e.detectedAt)];
      assert row == RowNumbers(8 * i) && values == Columns(e);
      BoundAppend(args, values, placeholders);
      placeholders := placeholders + [row];
      args := args + values;
    }
  }

  function RowNumbers(base: nat): seq<nat> { seq(8, j => base + j + 1) }

  lemma BoundAppend(args: seq<Arg>, values: seq<Arg>, placeholders: seq<seq<nat>>)
    requires |values| == 8
    requires forall k :: 0 <= k < |placeholders| ==> InRange(placeholders[k], |args|)
    ensures InRange(RowNumbers(|args|), |args + values|) && Bound(args + values, RowNumbers(|args|)) == values
    ensures forall k :: 0 <= k < |placeholders| ==>
              && InRange(placeholders[k], |args + values|)
              && Bound(args + values, placeholders[k]) == Bound(args, placeholders[k])
  {
  }

  // ---------------------------------------------------------------------------
  // INSERT ... ON CONFLICT DO NOTHING, and acknowledgement

  predicate PgHas(table: seq<PgRow>, key: EventKey) { exists r :: r in table && PgKey(r) == key }

  predicate LiteHas(table: seq<LiteRow>, key: EventKey) { exists r :: r in table && LiteKey(r) == key }

  /** One row of the batch; the identifier is drawn whether or not the row goes in. */
  function PgInsert(table: seq<PgRow>, id: Id, e: DriftEvent): seq<PgRow> {
    if PgHas(table, KeyOf(e)) then table else table + [PgRowOf(id, e)]
  }

  function LiteInsert(table: seq<LiteRow>, id: Id, e: DriftEvent): seq<LiteRow> {
    if LiteHas(table, KeyOf(e)) then table else table + [LiteRowOf(id, e)]
  }

  function PgSave(table: seq<PgRow>, firstId: Id, events: seq<DriftEvent>): seq<PgRow> {
    if events == [] then table
    else PgInsert(PgSave(table, firstId, events[..|events| - 1]), firstId + |events| - 1, events[|events| - 1])
  }

  function LiteSave(table: seq<LiteRow>, firstId: Id, events: seq<DriftEvent>): seq<LiteRow> {
    if events == [] then table
    else LiteInsert(LiteSave(table, firstId, events[..|events| - 1]), firstId + |events| - 1, events[|events| - 1])
  }

  function PgAcknowledge(table: seq<PgRow>, id: Id, ack: Acknowledgement): seq<PgRow> {
    seq(|table|, i requires 0 <= i < |table| => if table[i].id == id then table[i].(ack := Some(ack)) else table[i])
  }

  function LiteAcknowledge(table: seq<LiteRow>, id: Id, ack: Acknowledgement): seq<LiteRow> {
    seq(|table|, i requires 0 <= i < |table| => if table[i].id == id then table[i].(ack := Some(ack)) else table[i])
  }

  predicate AreColumns(c: seq<Arg>) {
    && |c| == 8 && c[0].Uuid? && c[1].Uuid? && c[2].Text? && c[3].Kind?
    && (c[4].Text? || c[4].Null?) && (c[5].Text? || c[5].Null?) && c[6].Level? && c[7].Time?
  }

  /** The row that the database makes of the eight values of a VALUES tuple. */
  function RowFromColumns(id: Id, c: seq<Arg>): PgRow
    requires AreColumns(c)
  {
    PgRow(id, c[0].id, c[1].id, c[2].text, c[3].kind,
          if c[4].Text? then Some(c[4].text) else None, if c[5].Text? then Some(c[5].text) else None,
          c[6].level, c[7].at, None)
  }

  lemma RowOfColumns(id: Id, e: DriftEvent)
    ensures RowFromColumns(id, Columns(e)) == PgRowOf(id, e) && PgKey(PgRowOf(id, e)) == KeyOf(e)
  {
  }

  lemma SaveNext(table: seq<PgRow>, firstId: Id, events: seq<DriftEvent>, i: nat)
    requires i < |events|
    ensures PgSave(table, firstId, events[..i + 1]) == PgInsert(PgSave(table, firstId, events[..i]), firstId + i, events[i])
  {
    assert events[..i + 1][..i] == events[..i];
  }

  /** `SaveDriftEvents`: one statement built from the whole batch; each tuple goes in unless its key is taken. */
  method SaveBatch(table: seq<PgRow>, firstId: Id, events: seq<DriftEvent>) returns (rows: seq<PgRow>)
    ensures rows == PgSave(table, firstId, events)
  {
    rows := table;
    if |events| == 0 {
      return;
    }
    var placeholders, args := BuildBatch(events);
    for i := 0 to |events|
      invariant rows == PgSave(table, firstId, events[..i])
    {
      var values := Bound(args, placeholders[i]);
      assert values == Columns(events[i]);
      var row := RowFromColumns(firstId + i, values);
      RowOfColumns(firstId + i, events[i]);
      SaveNext(table, firstId, events, i);
      if !PgHas(rows, PgKey(row)) {
        rows := rows + [row];
      }
    }
    assert events[..|events|] == events;
  }

  datatype Op = Save(events: seq<DriftEvent>) | Acknowledge(id: Id, ack: Acknowledgement)

  /** Identifiers drawn by a run: one per event offered. */
  function IdsDrawn(ops: seq<Op>): nat {
    if ops == [] then 0
    else
      var last := ops[|ops| - 1];
      IdsDrawn(ops[..|ops| - 1]) + (if last.Save? then |last.events| else 0)
  }

  function PgRun(ops: seq<Op>): seq<PgRow> {
    if ops == [] then []
    else
      var init, last := ops[..|ops| - 1], ops[|ops| - 1];
      match last
      case Save(events) => PgSave(PgRun(init), IdsDrawn(init), events)
      case Acknowledge(id, ack) => PgAcknowledge(PgRun(init), id, ack)
  }

  function LiteRun(ops: seq<Op>): seq<LiteRow> {
    if ops == [] then []
    else
      var init, last := ops[..|ops| - 1], ops[|ops| - 1];
      match last
      case Save(events) => LiteSave(LiteRun(init), IdsDrawn(init), events)
      case Acknowledge(id, ack) => LiteAcknowledge(LiteRun(init), id, ack)
  }

  // ---------------------------------------------------------------------------
  // One row per key, and nothing is taken back

  ghost predicate DistinctKeys(table: seq<PgRow>) {
    forall i, j :: 0 <= i < j < |table| ==> PgKey(table[i]) != PgKey(table[j])
  }

  /** The later table keeps every row in place, unchanged except that it may have been acknowledged. */
  ghost predicate Keeps(earlier: seq<PgRow>, later: seq<PgRow>) {
    && |earlier| <= |later|
    && forall i :: 0 <= i < |earlier| ==>
         && later[i].(ack := earlier[i].ack) == earlier[i]
         && (earlier[i].ack.Some? ==> later[i].ack.Some?)
  }

  lemma {:induction false} SaveKeeps(table: seq<PgRow>, firstId: Id, events: seq<DriftEvent>)
    ensures table <= PgSave(table, firstId, events)
    ensures DistinctKeys(table) ==> DistinctKeys(PgSave(table, firstId, events))
    ensures forall e :: e in events ==> PgHas(PgSave(table, firstId, events), KeyOf(e))
  {
    if events != [] {
      var init, last := events[..|events| - 1], events[|events| - 1];
      SaveKeeps(table, firstId, init);
      var before, after := PgSave(table, firstId, init), PgSave(table, firstId, events);
      var row := PgRowOf(firstId + |events| - 1, last);
      if !PgHas(before, KeyOf(last)) {
        assert after == before + [row] && row in after;
      }
      forall e | e in events
        ensures PgHas(after, KeyOf(e))
      {
        if e in init {
          var r :| r in before && PgKey(r) == KeyOf(e);
          assert r in after;
        }
      }
    }
  }

  lemma {:induction false} ResaveIsNoOp(table: seq<PgRow>, firstId: Id, events: seq<DriftEvent>)
    requires forall e :: e in events ==> PgHas(table, KeyOf(e))
    ensures PgSave(table, firstId, events) == table
  {
    if events != [] {
      ResaveIsNoOp(table, firstId, events[..|events| - 1]);
      assert events[|events| - 1] in events;
    }
  }

  /** The row has the five columns of the unique index in common with the event. */
  predicate Conflicts(r: PgRow, e: DriftEvent) {
    && r.tagId == e.tagId && r.filename == e.filename && r.eventType == e.eventType
    && (if r.previousHash.Some? then r.previousHash.value else "") == e.previousHash
    && (if r.currentHash.Some? then r.currentHash.value else "") == e.currentHash
  }

  /** Saving one event: nothing if a row conflicts with it, and otherwise one new row with all its columns, not acknowledged. */
  lemma SaveOneIff(table: seq<PgRow>, id: Id, e: DriftEvent)
    ensures (exists r :: r in table && Conflicts(r, e)) ==> PgSave(table, id, [e]) == table
    ensures !(exists r :: r in table && Conflicts(r, e)) ==>
              var after := PgSave(table, id, [e]);
              && |after| == |table| + 1 && after[..|table|] == table
              && var r := after[|table|];
                 && r.id == id && r.moduleId == e.moduleId && Conflicts(r, e)
                 && r.severity == e.severity && r.detectedAt == e.detectedAt && r.ack == None
  {
    assert [e][..0] == [];
    assert PgSave(table, id, [e]) == PgInsert(table, id, e);
    assert forall r: PgRow :: Conflicts(r, e) <==> PgKey(r) == KeyOf(e);
  }

  lemma {:induction false} RunKeepsKeysDistinct(ops: seq<Op>)
    ensures DistinctKeys(PgRun(ops))
  {
    if ops != [] {
      var init, last := ops[..|ops| - 1], ops[|ops| - 1];
      RunKeepsKeysDistinct(init);
      match last
      case Save(events) => SaveKeeps(PgRun(init), IdsDrawn(init), events);
      case Acknowledge(id, ack) =>
    }
  }

  /**
   Over every run: one row per key; later operations never drop a row, change its severity or clear its
   acknowledgement; offering a batch again changes nothing.
   */
  lemma {:induction false} StoreIsIdempotent(ops: seq<Op>, more: seq<Op>, events: seq<DriftEvent>)
    ensures DistinctKeys(PgRun(ops))
    ensures Keeps(PgRun(ops), PgRun(ops + more))
    ensures PgRun(ops + [Save(events)] + [Save(events)]) == PgRun(ops + [Save(events)])
  {
    RunKeepsKeysDistinct(ops);
    RunKeeps(ops, more);
    var once := ops + [Save(events)];
    assert once[..|ops|] == ops;
    assert (once + [Save(events)])[..|once|] == once;
    SaveKeeps(PgRun(ops), IdsDrawn(ops), events);
    ResaveIsNoOp(PgRun(once), IdsDrawn(once), events);
  }

  lemma {:induction false} RunKeeps(ops: seq<Op>, more: seq<Op>)
    ensures Keeps(PgRun(ops), PgRun(ops + more))
  {
    if more == [] {
      assert ops + more == ops;
    } else {
      var init, last := more[..|more| - 1], more[|more| - 1];
      RunKeeps(ops, init);
      var all := ops + more;
      assert all[..|all| - 1] == ops + init;
      match last
      case Save(events) =>
        SaveKeeps(PgRun(ops + init), IdsDrawn(ops + init), events);
      case Acknowledge(id, ack) =>
    }
  }

  // ---------------------------------------------------------------------------
  // The two encodings hold the same events

  datatype StoredEvent = StoredEvent(id: Id, event: DriftEvent, ack: Option<Acknowledgement>)

  function PgDecode(r: PgRow): StoredEvent {
    StoredEvent(r.id, DriftEvent(r.moduleId, r.tagId, r.filename, r.eventType, Coalesce(r.previousHash),
                                 Coalesce(r.currentHash), r.severity, r.detectedAt), r.ack)
  }

  function LiteDecode(r: LiteRow): StoredEvent {
    StoredEvent(r.id, DriftEvent(r.moduleId, r.tagId, r.filename, r.eventType, r.previousHash, r.currentHash,
                                 r.severity, r.detectedAt), r.ack)
  }

  ghost predicate SameEvents(pg: seq<PgRow>, lite: seq<LiteRow>) {
    |pg| == |lite| && forall i :: 0 <= i < |pg| ==> PgDecode(pg[i]) == LiteDecode(lite[i])
  }

  lemma SameKeys(pg: seq<PgRow>, lite: seq<LiteRow>, key: EventKey)
    requires SameEvents(pg, lite)
    ensures PgHas(pg, key) <==> LiteHas(lite, key)
  {
    assert forall i :: 0 <= i < |pg| ==> PgKey(pg[i]) == KeyOf(PgDecode(pg[i]).event);
    assert forall i :: 0 <= i < |pg| ==> LiteKey(lite[i]) == KeyOf(LiteDecode(lite[i]).event);
    if PgHas(pg, key) {
      var i :| 0 <= i < |pg| && PgKey(pg[i]) == key;
      assert lite[i] in lite && LiteKey(lite[i]) == key;
    }
    if LiteHas(lite, key) {
      var i :| 0 <= i < |lite| && LiteKey(lite[i]) == key;
      assert pg[i] in pg && PgKey(pg[i]) == key;
    }
  }

  lemma {:induction false} SaveRefines(pg: seq<PgRow>, lite: seq<LiteRow>, firstId: Id, events: seq<DriftEvent>)
    requires SameEvents(pg, lite)
    ensures SameEvents(PgSave(pg, firstId, events), LiteSave(lite, firstId, events))
  {
    if events != [] {
      var init, last := events[..|events| - 1], events[|events| - 1];
      SaveRefines(pg, lite, firstId, init);
      SameKeys(PgSave(pg, firstId, init), LiteSave(lite, firstId, init), KeyOf(last));
    }
  }

  /** After any run of saves and acknowledgements, the two tables decode to the same events. */
  lemma {:induction false} EncodingsAgree(ops: seq<Op>)
    ensures SameEvents(PgRun(ops), LiteRun(ops))
  {
    if ops != [] {
      var init, last := ops[..|ops| - 1], ops[|ops| - 1];
      EncodingsAgree(init);
      match last
      case Save(events) => SaveRefines(PgRun(init), LiteRun(init), IdsDrawn(init), events);
      case Acknowledge(id, ack) =>
    }
  }

  // ---------------------------------------------------------------------------
  // Acknowledging

  /** Identifiers are a primary key. */
  ghost predicate DistinctIds(table: seq<PgRow>) {
    forall i, j :: 0 <= i < j < |table| ==> table[i].id != table[j].id
  }

  ghost predicate IdsBelow(table: seq<PgRow>, n: nat) { forall i :: 0 <= i < |table| ==> table[i].id < n }

  lemma {:induction false} SaveKeepsIds(table: seq<PgRow>, firstId: Id, events: seq<DriftEvent>)
    requires DistinctIds(table) && IdsBelow(table, firstId)
    ensures DistinctIds(PgSave(table, firstId, events)) && IdsBelow(PgSave(table, firstId, events), firstId + |events|)
  {
    if events != [] {
      SaveKeepsIds(table, firstId, events[..|events| - 1]);
    }
  }

  lemma {:induction false} RunKeepsIds(ops: seq<Op>)
    ensures DistinctIds(PgRun(ops)) && IdsBelow(PgRun(ops), IdsDrawn(ops))
  {
    if ops != [] {
      var init, last := ops[..|ops| - 1], ops[|ops| - 1];
      RunKeepsIds(init);
      if last.Save? {
        SaveKeepsIds(PgRun(init), IdsDrawn(init), last.events);
      }
    }
  }

  /**
   After any operations, acknowledging an event marks its row, with that acknowledgement, and no other
   row; an identifier without a row marks nothing.
   */
  lemma AcknowledgeMarksOne(ops: seq<Op>, id: Id, ack: Acknowledgement)
    ensures var before, after := PgRun(ops), PgRun(ops + [Acknowledge(id, ack)]);
            && |after| == |before|
            && (forall i :: 0 <= i < |before| && before[i].id != id ==> after[i] == before[i])
            && (forall i :: 0 <= i < |before| && before[i].id == id ==>
                  && after[i].ack == Some(ack) && after[i].(ack := before[i].ack) == before[i]
                  && forall j :: 0 <= j < |before| && j != i ==> after[j] == before[j])
  {
    RunKeepsIds(ops);
    assert (ops + [Acknowledge(id, ack)])[..|ops|] == ops;
  }
}

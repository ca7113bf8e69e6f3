/** Reading a field day out of a database: each required surface is enumerated
    up to a limit, and the report says how far the enumeration can be trusted. */
module CoverageReport {
  import opened JsText
  import opened Wrappers
  import opened Sql
  import opened Coverage

  datatype Source = Nuclear | CognitiveSidecar | CognitiveObservability | Continuity

  /** A surface whose rows carry an instant, in one format. */
  type DatedSurface = s: Surface | AgreeingFormats(s) && (s.timestamp.Some? || s.relation.Some?)
    witness Surface("", [], Some(TimestampShape(["created_at"], IsoText)), None)

  function Own(table: string, columns: seq<string>, stamps: seq<string>, format: Format): DatedSurface
    requires |stamps| > 0
  {
    Surface(table, columns, Some(TimestampShape(stamps, format)), None)
  }

  /** Related by a key to a row that is dated. */
  function Related(table: string, columns: seq<string>, key: string, other: string, otherKey: string,
                   stamps: seq<string>, format: Format): DatedSurface
    requires |stamps| > 0
  {
    Surface(table, columns, None, Some(Relation(key, other, otherKey, TimestampShape(stamps, format))))
  }

  function NuclearSurfaces(): seq<DatedSurface> {
    [
      Own("mem_messages", ["created_at"], ["created_at"], IsoText),
      Own("delivery_reservations", ["id", "owner_id", "channel", "thread_id", "trigger", "delivery_lane", "state",
        "error_category", "finalization_reason", "created_at", "finalized_at", "cognitive_v021_projection_key"],
        ["created_at", "finalized_at"], IsoText),
      Surface("delivery_bubbles", ["reservation_id", "ordinal", "discord_message_id", "sent_at"],
        Some(TimestampShape(["sent_at"], IsoText)), Some(Relation("reservation_id", "delivery_reservations", "id",
        TimestampShape(["created_at", "finalized_at"], IsoText)))),
      Own("attention_requests", ["id", "purpose", "model_alias", "provider_id", "route_alias", "state", "outcome",
        "created_at", "dispatch_started_at", "ended_at", "actual_input_tokens", "actual_output_tokens"],
        ["created_at", "dispatch_started_at", "ended_at"], IsoText)
    ]
  }

  function CognitiveSidecarSurfaces(): seq<DatedSurface> {
    [
      Own("inbox_events", ["id", "conversation_id", "kind", "created_at_ms", "status", "state", "terminal_reason",
        "wake_id"], ["created_at_ms"], EpochMs),
      Own("cycle_records", ["cycle_id", "conversation_id", "generation", "state", "admitted_at_ms", "updated_at_ms"],
        ["admitted_at_ms", "updated_at_ms"], EpochMs),
      Own("observations", ["observation_id", "cycle_id", "generation", "derived", "replay_safe", "modality",
        "provenance", "created_at_ms"], ["created_at_ms"], EpochMs),
      Own("wakes", ["wake_id", "occurrence_id", "conversation_id", "cycle_id", "state", "terminal_reason",
        "created_at_ms", "updated_at_ms"], ["created_at_ms", "updated_at_ms"], EpochMs),
      Related("settlements", ["settlement_id", "cycle_id", "generation", "payload_json"], "cycle_id", "cycle_records",
        "cycle_id", ["admitted_at_ms", "updated_at_ms"], EpochMs),
      Own("thought_steps", ["request_id", "cycle_id", "generation", "pass", "kind", "payload_json", "created_at_ms"],
        ["created_at_ms"], EpochMs),
      Related("speech_outbox", ["outbox_id", "settlement_id", "projection_key", "cycle_id", "generation",
        "send_status", "nuclear_reservation_id", "discord_message_ids_json"], "cycle_id", "cycle_records", "cycle_id",
        ["admitted_at_ms", "updated_at_ms"], EpochMs),
      Related("system_notice_outbox", ["notice_id", "cycle_id", "conversation_id", "send_status",
        "nuclear_reservation_id", "discord_message_id"], "cycle_id", "cycle_records", "cycle_id", ["admitted_at_ms",
        "updated_at_ms"], EpochMs),
      Own("conversation_evidence_log", ["row_id", "lineage_id", "version", "conversation_id", "role", "created_at_ms",
        "discord_message_ids_json", "reservation_id", "producing_cycle_id", "content_hash", "source_status",
        "secret_omitted", "delivered"], ["created_at_ms"], EpochMs),
      Own("desk_entries", ["id", "concern_ref", "body", "author_kind", "source_refs_json", "verbatim", "form",
        "endorsement_ref", "audience_scope_json", "lifecycle", "superseded_by", "updated_cycle", "updated_generation",
        "created_at_ms", "updated_at_ms"], ["updated_at_ms"], EpochMs),
      Own("periodic_cognition_schedule", ["id", "authority_epoch", "next_eligible_at_ms", "updated_at_ms"],
        ["updated_at_ms"], EpochMs),
      Own("periodic_cognition_occurrence_receipts", ["schedule_occurrence_id", "disposition", "wake_id",
        "authority_epoch", "eligible_at_ms", "closed_at_ms"], ["eligible_at_ms", "closed_at_ms"], EpochMs),
      Related("causal_ledger", ["id", "cycle_id", "generation", "thought_unavailable"], "cycle_id", "cycle_records",
        "cycle_id", ["admitted_at_ms", "updated_at_ms"], EpochMs)
    ]
  }

  function CognitiveObservabilitySurfaces(): seq<DatedSurface> {
    [
      Own("allocation_receipts", ["request_id", "cycle_id", "generation", "created_at_ms"], ["created_at_ms"],
        EpochMs),
      Own("thought_dispatch_diagnostics", ["id", "cycle_id", "generation", "request_id", "pass", "code", "stage",
        "dispatch_truth", "created_at_ms"], ["created_at_ms"], EpochMs)
    ]
  }

  function ContinuitySurfaces(): seq<DatedSurface> {
    [
      Own("lineage_state", ["lineage_id", "updated_at"], ["updated_at"], IsoText),
      Own("continuity_events", ["occurred_at"], ["occurred_at"], IsoText),
      Own("runtime_sessions", ["session_id", "started_at"], ["started_at"], IsoText)
    ]
  }

  function RequiredSurfaces(source: Source): seq<DatedSurface> {
    match source
    case Nuclear => NuclearSurfaces()
    case CognitiveSidecar => CognitiveSidecarSurfaces()
    case CognitiveObservability => CognitiveObservabilitySurfaces()
    case Continuity => ContinuitySurfaces()
  }

  const ENUMERATION_LIMIT := 501
  const MAX_ENUMERATED := ENUMERATION_LIMIT - 1
  const SAFE_INTEGER_MAX := 9007199254740991
  const DATE_MAX := 8640000000000000
  const SOURCE_ALIAS := "source"

  // ---- Reading one surface ----

  predicate Whole(r: real) {
    r.Floor as real == r
  }

  predicate IsDate(ms: int) {
    -DATE_MAX <= ms <= DATE_MAX
  }

  /** The instant a stored value reads as, or nothing. */
  function ParseTimestamp(v: Value, format: Format): Option<int> {
    match format
    case EpochMs =>
      if v.Number? && Whole(v.r) && -SAFE_INTEGER_MAX <= v.r.Floor <= SAFE_INTEGER_MAX && IsDate(v.r.Floor)
      then Some(v.r.Floor) else None
    case IsoText => if v.Iso? && IsDate(v.ms) then Some(v.ms) else None
  }

  /** A value reads as an instant exactly if it is a whole number, or the text of
      a date, that a date can hold. Whether it is a safe integer adds nothing. */
  lemma ParsesIff(v: Value, format: Format, ms: int)
    ensures ParseTimestamp(v, format) == Some(ms) <==>
            && -8_640_000_000_000_000 <= ms <= 8_640_000_000_000_000
            && v == if format == EpochMs then Number(ms as real) else Iso(ms)
  {
    if v.Number? {
      assert (ms as real).Floor == ms;
    }
  }

  datatype Reading = Threw | Read(observed: seq<int>, overflow: bool)

  method ReadSurfaceTimestamps(db: Database, s: Surface, w: Window) returns (reading: Reading)
    ensures Dateable(s, w) ==> reading == SurfaceReading(db, s, w)
  {
    hide RunQuery, DayInstants, SortValues;
    var expression, where := SurfaceExpression(s, w, SOURCE_ALIAS), SurfaceWhere(s, w, SOURCE_ALIAS);
    var answer := RunQuery(db, Select(expression.sql, s.table, SOURCE_ALIAS, where.sql, ENUMERATION_LIMIT),
                           expression.args + where.args);
    if Dateable(s, w) {
      QueryAnswers(db, s, w);
    }
    if answer.None? {
      return Threw;
    }
    var rows := answer.value;
    var observed := [];
    var i := 0;
    while i < |rows|
      invariant 0 <= i <= |rows| && |observed| == i
      invariant Dateable(s, w) ==> forall k | 0 <= k < i :: !Fractional(rows[k]) && observed[k] == MsOf(rows[k])
    {
      var timestamp := ParseTimestamp(rows[i], FormatOf(s));
      if Dateable(s, w) {
        ReadsUnlessFractional(rows[i], FormatOf(s), w);
      }
      if timestamp.None? || timestamp.value < w.start || timestamp.value >= w.end {
        return Threw;
      }
      observed := observed + [timestamp.value];
      i := i + 1;
    }
    return Read(Take(observed, MAX_ENUMERATED), |rows| > MAX_ENUMERATED);
  }

  /** The surface has a timestamp or a relation, of one format, and the window's
      bounds are dates. */
  ghost predicate Dateable(s: Surface, w: Window) {
    AgreeingFormats(s) && (s.timestamp.Some? || s.relation.Some?) && IsDate(w.start) && IsDate(w.end)
  }

  predicate Fractional(v: Value) {
    v.Number? && !Whole(v.r)
  }

  function MsOf(v: Value): int {
    match v case Number(r) => r.Floor case Iso(ms) => ms case _ => 0
  }

  /** The instants of the rows that belong to the day, in table order. */
  function DayInstants(db: Database, s: Surface, w: Window, rows: seq<Row>): seq<Value> {
    if rows == [] then []
    else
      (if BelongsToDay(db, s, w, rows[0]) then [InstantOf(db, s, w, SOURCE_ALIAS, rows[0])] else []) +
      DayInstants(db, s, w, rows[1..])
  }

  function Enumerated(db: Database, s: Surface, w: Window): seq<Value> {
    SortValues(DayInstants(db, s, w, Rows(db, s.table)))
  }

  /** The first instants of the day in ascending order, unless one of those
      fetched is not a whole number of milliseconds. */
  function SurfaceReading(db: Database, s: Surface, w: Window): Reading {
    var all := Enumerated(db, s, w);
    if exists i :: 0 <= i < |all| && i < ENUMERATION_LIMIT && Fractional(all[i]) then Threw
    else Read(Milliseconds(Take(all, MAX_ENUMERATED)), |all| > MAX_ENUMERATED)
  }

  function Milliseconds(s: seq<Value>): (r: seq<int>)
    ensures |r| == |s|
    ensures forall i | 0 <= i < |s| :: r[i] == MsOf(s[i])
  {
    seq(|s|, i requires 0 <= i < |s| => MsOf(s[i]))
  }

  lemma ReadsUnlessFractional(v: Value, format: Format, w: Window)
    requires InWindow(v, format, w) && IsDate(w.start) && IsDate(w.end)
    ensures ParseTimestamp(v, format) == if Fractional(v) then None else Some(MsOf(v))
    ensures !Fractional(v) ==> w.start <= MsOf(v) < w.end
  {
  }

  lemma {:induction false} ProjectionIs(db: Database, s: Surface, w: Window, q: Select, rows: seq<Row>)
    requires s.timestamp.Some? || s.relation.Some?
    requires q.alias == SOURCE_ALIAS
    requires q.expression == ExpressionBound(s, w, q.alias) && q.where == WhereBound(s, w, q.alias)
    ensures Projection(db, q, rows) == DayInstants(db, s, w, rows)
  {
    hide ExpressionBound, WhereBound, InstantOf, BelongsToDay;
    if rows != [] {
      SurfaceMeans(db, s, w, SOURCE_ALIAS, rows[0]);
      InstantIff(db, s, w, SOURCE_ALIAS, rows[0]);
      ProjectionIs(db, s, w, q, rows[1..]);
    }
  }

  lemma {:induction false} DayInstantsAreInWindow(db: Database, s: Surface, w: Window, rows: seq<Row>)
    requires AgreeingFormats(s)
    ensures forall v <- DayInstants(db, s, w, rows) :: InWindow(v, FormatOf(s), w)
  {
    hide InstantOf, BelongsToDay, InWindow;
    if rows != [] {
      InstantIff(db, s, w, SOURCE_ALIAS, rows[0]);
      DayInstantsAreInWindow(db, s, w, rows[1..]);
    }
  }

  lemma SortedKeepsMembers(s: seq<Value>)
    ensures |SortValues(s)| == |s|
    ensures forall v :: v in SortValues(s) <==> v in s
  {
    hide SortValues;
    SortValuesSorts(s);
    assert forall v :: v in SortValues(s) <==> v in multiset(SortValues(s));
  }

  /** The query answers with the day's instants in order, up to the limit, each
      of them inside the window. */
  lemma QueryAnswers(db: Database, s: Surface, w: Window)
    requires Dateable(s, w)
    ensures var expression, where := SurfaceExpression(s, w, SOURCE_ALIAS), SurfaceWhere(s, w, SOURCE_ALIAS);
            var q := Select(expression.sql, s.table, SOURCE_ALIAS, where.sql, ENUMERATION_LIMIT);
            RunQuery(db, q, expression.args + where.args) == Some(Take(Enumerated(db, s, w), ENUMERATION_LIMIT))
    ensures forall i | 0 <= i < |Enumerated(db, s, w)| :: InWindow(Enumerated(db, s, w)[i], FormatOf(s), w)
  {
    hide SurfaceExpression, SurfaceWhere, ExpressionBound, WhereBound, SortValues, DayInstants, InWindow, FormatOf,
         Projection;
    var expression, where := SurfaceExpression(s, w, SOURCE_ALIAS), SurfaceWhere(s, w, SOURCE_ALIAS);
    SurfaceBinds(s, w, SOURCE_ALIAS, where.args);
    SurfaceBinds(s, w, SOURCE_ALIAS, []);
    assert where.args + [] == where.args;
    var q := Select(ExpressionBound(s, w, SOURCE_ALIAS), s.table, SOURCE_ALIAS, WhereBound(s, w, SOURCE_ALIAS),
                    ENUMERATION_LIMIT);
    ProjectionIs(db, s, w, q, Rows(db, s.table));
    DayInstantsAreInWindow(db, s, w, Rows(db, s.table));
    SortedKeepsMembers(DayInstants(db, s, w, Rows(db, s.table)));
  }

  predicate WholeMilliseconds(db: Database) {
    forall table <- db.tables, row <- db.tables[table], column <- row :: !Fractional(row[column])
  }

  /** Over a database whose numbers are whole the read never throws. */
  lemma WholeNumbersNeverThrow(db: Database, s: Surface, w: Window)
    requires WholeMilliseconds(db) && Dateable(s, w)
    ensures SurfaceReading(db, s, w).Read?
  {
    hide SortValues, DayInstants, Fractional;
    InstantsAreWhole(db, s, w, Rows(db, s.table));
    SortedKeepsMembers(DayInstants(db, s, w, Rows(db, s.table)));
  }

  lemma {:induction false} OwnIsWhole(row: Row, columns: seq<string>, format: Format, w: Window)
    requires forall column <- row :: !Fractional(row[column])
    ensures !Fractional(OwnInstant(row, columns, format, w))
  {
    if columns != [] {
      OwnIsWhole(row, columns[1..], format, w);
    }
  }

  lemma {:induction false} DatedAreRows(row: Row, r: Relation, w: Window, rows: seq<Row>)
    ensures forall related <- DatedRows(row, r, w, rows) :: related in rows
  {
    hide OwnInstant;
    if rows != [] {
      DatedAreRows(row, r, w, rows[1..]);
    }
  }

  lemma RelatedIsWhole(db: Database, env: Env, row: Row, r: Relation, w: Window)
    requires WholeMilliseconds(db)
    ensures !Fractional(RelatedInstant(db, env, row, r, w))
  {
    hide OwnInstant, DatedRows;
    var dated := DatedRows(row, r, w, Rows(db, r.relatedTable));
    DatedAreRows(row, r, w, Rows(db, r.relatedTable));
    if dated != [] {
      OwnIsWhole(Chosen(db, env, dated), r.timestamp.columns, r.timestamp.format, w);
    }
  }

  lemma {:induction false} InstantsAreWhole(db: Database, s: Surface, w: Window, rows: seq<Row>)
    requires WholeMilliseconds(db)
    requires forall row <- rows, column <- row :: !Fractional(row[column])
    ensures forall v <- DayInstants(db, s, w, rows) :: !Fractional(v)
  {
    hide OwnInstant, RelatedInstant, BelongsToDay, Fractional;
    if rows != [] {
      if s.timestamp.Some? {
        OwnIsWhole(rows[0], s.timestamp.value.columns, s.timestamp.value.format, w);
      }
      if s.relation.Some? {
        RelatedIsWhole(db, map[SOURCE_ALIAS := rows[0]], rows[0], s.relation.value, w);
      }
      assert !Fractional(Null) by {
        NullIsWhole();
      }
      assert forall row <- rows[1..] :: row in rows;
      InstantsAreWhole(db, s, w, rows[1..]);
    }
  }

  lemma NullIsWhole()
    ensures !Fractional(Null)
  {
  }

  // ---- The interval that was seen ----

  datatype Interval = UnknownInterval | NoInterval | Spanning(first: int, last: int)

  predicate Spans(interval: Interval, values: seq<int>) {
    match interval
    case UnknownInterval => false
    case NoInterval => values == []
    case Spanning(first, last) => first in values && last in values && forall v <- values :: first <= v <= last
  }

  method ObservedInterval(values: seq<int>) returns (interval: Interval)
    ensures Spans(interval, values)
  {
    if values == [] {
      return NoInterval;
    }
    var first, last := values[0], values[0];
    var i := 1;
    while i < |values|
      invariant 1 <= i <= |values|
      invariant first in values && last in values
      invariant forall k | 0 <= k < i :: first <= values[k] <= last
    {
      if values[i] < first {
        first := values[i];
      }
      if values[i] > last {
        last := values[i];
      }
      i := i + 1;
    }
    return Spanning(first, last);
  }

  lemma SpanIsUnique(a: Interval, b: Interval, values: seq<int>)
    requires Spans(a, values) && Spans(b, values)
    ensures a == b
  {
  }

  // ---- One source ----

  datatype DatabaseFile = DatabaseFile(schema: map<string, set<string>>, data: Database)

  datatype Failure =
    | SurfaceAbsent(table: string)
    | ColumnAbsent(table: string, column: string)
    | RelationUnknown(table: string)
    | EnumerationOverflow(table: string)
    | QueryFailed(table: string)

  datatype Enumeration =
    | Found(matching: nat, observed: seq<int>, overflow: bool, uncertain: bool)
    | Failed(failure: Failure)

  function FirstMissing(columns: seq<string>, available: set<string>): Option<string> {
    if columns == [] then None
    else if columns[0] !in available then Some(columns[0]) else FirstMissing(columns[1..], available)
  }

  /** Some row has no related row. */
  predicate HasOrphan(db: Database, s: Surface, r: Relation) {
    exists i :: 0 <= i < |Rows(db, s.table)| && Orphan(db, r, Rows(db, s.table)[i])
  }

  predicate Orphan(db: Database, r: Relation, row: Row) {
    forall j | 0 <= j < |Rows(db, r.relatedTable)| :: !Matches(row, r, Rows(db, r.relatedTable)[j])
  }

  // The query that looks for orphans: the source joined on its left to the
  // related table by the keys, where the related key IS NULL.

  function Partners(db: Database, r: Relation, row: Row): seq<Row> {
    Matching(db, map[SOURCE_ALIAS := row], RELATED,
             Same(Column(RELATED, r.relatedColumn), Column(SOURCE_ALIAS, r.localColumn)), Rows(db, r.relatedTable))
  }

  /** The related rows of the join, nothing for a row that stays alone. */
  function LeftJoin(db: Database, r: Relation, rows: seq<Row>): seq<Option<Row>> {
    if rows == [] then []
    else
      var partners := Partners(db, r, rows[0]);
      (if partners == [] then [None] else Somes(partners)) + LeftJoin(db, r, rows[1..])
  }

  function Somes(rows: seq<Row>): (joined: seq<Option<Row>>)
    ensures |joined| == |rows| && forall i :: 0 <= i < |rows| ==> joined[i] == Some(rows[i])
  {
    seq(|rows|, i requires 0 <= i < |rows| => Some(rows[i]))
  }

  predicate KeyIsNull(related: Option<Row>, r: Relation) {
    related.None? || Lookup(related.value, r.relatedColumn) == Null
  }

  function Unmatched(db: Database, s: Surface, r: Relation): seq<Option<Row>> {
    Filter((x: Option<Row>) => KeyIsNull(x, r), LeftJoin(db, r, Rows(db, s.table)))
  }

  lemma {:induction false} PartnersMatch(db: Database, r: Relation, row: Row, rows: seq<Row>)
    ensures var on := Same(Column(RELATED, r.relatedColumn), Column(SOURCE_ALIAS, r.localColumn));
            forall x :: x in Matching(db, map[SOURCE_ALIAS := row], RELATED, on, rows) <==>
                        x in rows && Matches(row, r, x)
  {
    if rows != [] {
      PartnersMatch(db, r, row, rows[1..]);
      var test := Same(Column(RELATED, r.relatedColumn), Column(SOURCE_ALIAS, r.localColumn));
      var env: Env := map[SOURCE_ALIAS := row];
      var inner := env[RELATED := rows[0]];
      assert EvalScalar(db, inner, test.a) == Lookup(rows[0], r.relatedColumn);
      assert EvalScalar(db, inner, test.b) == Lookup(row, r.localColumn);
      assert EvalCond(db, inner, test) == True3 <==> Matches(row, r, rows[0]);
    }
  }

  lemma {:induction false} LoneRows(db: Database, r: Relation, rows: seq<Row>)
    ensures (exists x <- LeftJoin(db, r, rows) :: KeyIsNull(x, r)) <==> exists row <- rows :: Orphan(db, r, row)
  {
    hide Partners, Orphan;
    if rows != [] {
      LoneRows(db, r, rows[1..]);
      PartnersIff(db, r, rows[0]);
      var own := if Partners(db, r, rows[0]) == [] then [None] else Somes(Partners(db, r, rows[0]));
      assert (exists x <- own :: KeyIsNull(x, r)) <==> Orphan(db, r, rows[0]) by {
        if Partners(db, r, rows[0]) == [] {
          assert own[0] in own;
        }
      }
      assert forall x :: x in LeftJoin(db, r, rows) <==> x in own || x in LeftJoin(db, r, rows[1..]);
      assert forall row :: row in rows <==> row == rows[0] || row in rows[1..];
    }
  }

  lemma PartnersIff(db: Database, r: Relation, row: Row)
    ensures Partners(db, r, row) == [] <==> Orphan(db, r, row)
    ensures forall x <- Partners(db, r, row) :: Lookup(x, r.relatedColumn) != Null
  {
    hide Matching;
    PartnersMatch(db, r, row, Rows(db, r.relatedTable));
    SomeMember(Partners(db, r, row));
  }

  lemma SomeMember<T>(s: seq<T>)
    ensures s != [] <==> exists x :: x in s
  {
    if s != [] {
      assert s[0] in s;
    }
  }

  /** The query answers with a row exactly if some row is an orphan. */
  lemma UnmatchedIff(db: Database, s: Surface, r: Relation)
    ensures Unmatched(db, s, r) != [] <==> HasOrphan(db, s, r)
  {
    hide Orphan, LeftJoin;
    LoneRows(db, r, Rows(db, s.table));
    var joined := LeftJoin(db, r, Rows(db, s.table));
    SomeMember(Unmatched(db, s, r));
    assert forall x :: x in Unmatched(db, s, r) <==> x in joined && KeyIsNull(x, r);
  }

  /** Why a surface cannot be queried at all. */
  function SchemaFailure(file: DatabaseFile, s: Surface): Option<Failure> {
    if s.table !in file.schema then Some(SurfaceAbsent(s.table))
    else
      var available := file.schema[s.table];
      var missing := FirstMissing(s.columns, available);
      if missing.Some? then Some(ColumnAbsent(s.table, missing.value))
      else if s.relation.Some? then
        var r := s.relation.value;
        if r.relatedTable !in file.schema then Some(QueryFailed(s.table))
        else
          var related := file.schema[r.relatedTable];
          var stamp := FirstMissing(r.timestamp.columns, related);
          if r.relatedColumn !in related then Some(ColumnAbsent(r.relatedTable, r.relatedColumn))
          else if stamp.Some? then Some(ColumnAbsent(r.relatedTable, stamp.value))
          else if r.localColumn !in available ||
                  (s.timestamp.Some? && FirstMissing(s.timestamp.value.columns, available).Some?)
          then Some(QueryFailed(s.table))
          else None
      else if s.timestamp.Some? then
        var stamp := FirstMissing(s.timestamp.value.columns, available);
        if stamp.Some? then Some(ColumnAbsent(s.table, stamp.value)) else None
      else None
  }

  predicate AllIn(columns: seq<string>, available: set<string>) {
    forall c <- columns :: c in available
  }

  lemma {:induction false} FirstMissingIff(columns: seq<string>, available: set<string>)
    ensures FirstMissing(columns, available).None? <==> AllIn(columns, available)
    ensures FirstMissing(columns, available).Some? ==>
              FirstMissing(columns, available).value in columns && FirstMissing(columns, available).value !in available
  {
    if columns != [] {
      FirstMissingIff(columns[1..], available);
      assert columns == [columns[0]] + columns[1..];
    }
  }

  /** A surface can be queried exactly when every table and column that its
      query names is there. */
  lemma SchemaIsWholeIff(file: DatabaseFile, s: Surface)
    ensures SchemaFailure(file, s).None? <==>
            && s.table in file.schema && AllIn(s.columns, file.schema[s.table])
            && (s.timestamp.Some? ==> AllIn(s.timestamp.value.columns, file.schema[s.table]))
            && (s.relation.Some? ==>
                  var r := s.relation.value;
                  && r.localColumn in file.schema[s.table] && r.relatedTable in file.schema
                  && r.relatedColumn in file.schema[r.relatedTable]
                  && AllIn(r.timestamp.columns, file.schema[r.relatedTable]))
  {
    hide AllIn, FirstMissing;
    if s.table in file.schema {
      FirstMissingIff(s.columns, file.schema[s.table]);
      if s.timestamp.Some? {
        FirstMissingIff(s.timestamp.value.columns, file.schema[s.table]);
      }
    }
    if s.relation.Some? && s.relation.value.relatedTable in file.schema {
      FirstMissingIff(s.relation.value.timestamp.columns, file.schema[s.relation.value.relatedTable]);
    }
  }

  function EnumerationOf(file: DatabaseFile, s: Surface, w: Window): Enumeration {
    match SchemaFailure(file, s)
    case Some(failure) => Failed(failure)
    case None =>
      if s.timestamp.None? && s.relation.None? then
        var present := Rows(file.data, s.table) != [];
        Found(if present then 1 else 0, [], false, present)
      else
        match SurfaceReading(file.data, s, w)
        case Threw => Failed(QueryFailed(s.table))
        case Read(observed, overflow) =>
          Found(|observed|, observed, overflow, s.relation.Some? && HasOrphan(file.data, s, s.relation.value))
  }

  method EnumerateRequiredSurface(file: DatabaseFile, s: Surface, w: Window) returns (e: Enumeration)
    requires AgreeingFormats(s) && IsDate(w.start) && IsDate(w.end)
    ensures e == EnumerationOf(file, s, w)
  {
    hide SchemaFailure, SurfaceReading, HasOrphan, Unmatched;
    var failure := SchemaFailure(file, s);
    if failure.Some? {
      return Failed(failure.value);
    }
    if s.timestamp.None? && s.relation.None? {
      var present := Rows(file.data, s.table) != [];
      return Found(if present then 1 else 0, [], false, present);
    }
    var unmatched := s.relation.Some? && Unmatched(file.data, s, s.relation.value) != [];
    if s.relation.Some? {
      UnmatchedIff(file.data, s, s.relation.value);
    }
    var reading := ReadSurfaceTimestamps(file.data, s, w);
    if reading.Threw? {
      return Failed(QueryFailed(s.table));
    }
    return Found(|reading.observed|, reading.observed, reading.overflow, unmatched);
  }

  function FailuresOf(s: Surface, e: Enumeration): seq<Failure> {
    match e
    case Failed(failure) => [failure]
    case Found(_, _, overflow, uncertain) =>
      (if overflow then [EnumerationOverflow(s.table)] else []) + if uncertain then [RelationUnknown(s.table)] else []
  }

  function Observed(e: Enumeration): seq<int> {
    if e.Found? then e.observed else []
  }

  function MatchingCount(e: Enumeration): nat {
    if e.Found? then e.matching else 0
  }

  datatype Totals = Totals(count: nat, observed: seq<int>, failures: seq<Failure>)

  function TotalsOf(file: DatabaseFile, surfaces: seq<Surface>, w: Window): Totals {
    if surfaces == [] then Totals(0, [], [])
    else
      var before := TotalsOf(file, surfaces[..|surfaces| - 1], w);
      var s := surfaces[|surfaces| - 1];
      var e := EnumerationOf(file, s, w);
      Totals(before.count + MatchingCount(e), before.observed + Observed(e), before.failures + FailuresOf(s, e))
  }

  datatype Disposition = CompleteEmpty | CompleteNonempty | Partial | CompletenessUnknown | UnavailableOrUnchecked

  datatype Report = Report(disposition: Disposition, interval: Interval, count: Option<nat>, failures: seq<Failure>)

  method SourceCoverageForDatabase(file: Option<DatabaseFile>, source: Source, w: Window) returns (report: Report)
    requires IsDate(w.start) && IsDate(w.end)
    ensures Reports(report, file, RequiredSurfaces(source), w)
  {
    hide EnumerationOf, FailuresOf, AgreeingFormats, Spans, RequiredSurfaces;
    var surfaces := RequiredSurfaces(source);
    if file.None? {
      return Report(UnavailableOrUnchecked, UnknownInterval, None, []);
    }
    var t := Totals(0, [], []);
    var i := 0;
    while i < |surfaces|
      invariant 0 <= i <= |surfaces|
      invariant t == TotalsOf(file.value, surfaces[..i], w)
    {
      var s := surfaces[i];
      var e := EnumerateRequiredSurface(file.value, s, w);
      assert surfaces[..i + 1][..i] == surfaces[..i];
      t := Totals(t.count + MatchingCount(e), t.observed + Observed(e), t.failures + FailuresOf(s, e));
      i := i + 1;
    }
    assert surfaces[..i] == surfaces;
    var interval := ObservedInterval(t.observed);
    if |t.failures| == 0 {
      return Report(if t.count == 0 then CompleteEmpty else CompleteNonempty, interval, Some(t.count), []);
    }
    if t.count > 0 {
      return Report(Partial, interval, Some(t.count), t.failures);
    }
    return Report(CompletenessUnknown, UnknownInterval, None, t.failures);
  }

  /** What a report must say of the totals over the surfaces. */
  predicate Reports(report: Report, file: Option<DatabaseFile>, surfaces: seq<Surface>, w: Window) {
    if file.None? then report == Report(UnavailableOrUnchecked, UnknownInterval, None, [])
    else
      var t := TotalsOf(file.value, surfaces, w);
      && report.failures == t.failures
      && report.disposition == (if t.failures == [] then if t.count == 0 then CompleteEmpty else CompleteNonempty
                                else if t.count > 0 then Partial else CompletenessUnknown)
      && (if report.disposition == CompletenessUnknown then report.interval == UnknownInterval && report.count.None?
          else Spans(report.interval, t.observed) && report.count == Some(t.count))
  }

  // ---- What a complete report promises ----

  /** Every row of the day was seen and none can be missing: the schema is
      whole, the day fits the limit, its instants are whole numbers, and every
      row has a related row where the surface relies on one. */
  predicate WhollyRead(file: DatabaseFile, s: Surface, w: Window) {
    && SchemaFailure(file, s).None?
    && if s.timestamp.None? && s.relation.None? then Rows(file.data, s.table) == []
       else
         && |DayInstants(file.data, s, w, Rows(file.data, s.table))| <= MAX_ENUMERATED
         && (forall v <- DayInstants(file.data, s, w, Rows(file.data, s.table)) :: !Fractional(v))
         && (s.relation.Some? ==> !HasOrphan(file.data, s, s.relation.value))
  }

  function DayCount(file: DatabaseFile, s: Surface, w: Window): nat {
    if s.timestamp.None? && s.relation.None? then 0 else |DayInstants(file.data, s, w, Rows(file.data, s.table))|
  }

  lemma ReadIffWhole(file: DatabaseFile, s: Surface, w: Window)
    ensures FailuresOf(s, EnumerationOf(file, s, w)) == [] <==> WhollyRead(file, s, w)
    ensures WhollyRead(file, s, w) ==>
              && MatchingCount(EnumerationOf(file, s, w)) == DayCount(file, s, w)
              && (s.timestamp.Some? || s.relation.Some? ==>
                    Observed(EnumerationOf(file, s, w)) == Milliseconds(Enumerated(file.data, s, w)))
              && (s.timestamp.None? && s.relation.None? ==> Observed(EnumerationOf(file, s, w)) == [])
  {
    hide SchemaFailure, DayInstants, SortValues, HasOrphan, Fractional;
    SortedKeepsMembers(DayInstants(file.data, s, w, Rows(file.data, s.table)));
  }

  function DayTotal(file: DatabaseFile, surfaces: seq<Surface>, w: Window): nat {
    if surfaces == [] then 0
    else DayTotal(file, surfaces[..|surfaces| - 1], w) + DayCount(file, surfaces[|surfaces| - 1], w)
  }

  /** The instants of the day's rows over all surfaces, in milliseconds. */
  function DayMilliseconds(file: DatabaseFile, surfaces: seq<Surface>, w: Window): seq<int> {
    if surfaces == [] then []
    else
      var s := surfaces[|surfaces| - 1];
      DayMilliseconds(file, surfaces[..|surfaces| - 1], w) +
      if s.timestamp.None? && s.relation.None? then [] else Milliseconds(Enumerated(file.data, s, w))
  }

  lemma {:induction false} TotalsIff(file: DatabaseFile, surfaces: seq<Surface>, w: Window)
    ensures TotalsOf(file, surfaces, w).failures == [] <==> forall s <- surfaces :: WhollyRead(file, s, w)
    ensures TotalsOf(file, surfaces, w).failures == [] ==>
              && TotalsOf(file, surfaces, w).count == DayTotal(file, surfaces, w)
              && TotalsOf(file, surfaces, w).observed == DayMilliseconds(file, surfaces, w)
  {
    hide EnumerationOf, FailuresOf, WhollyRead, DayCount, MatchingCount, Observed, Milliseconds;
    if surfaces != [] {
      var init, s := surfaces[..|surfaces| - 1], surfaces[|surfaces| - 1];
      TotalsIff(file, init, w);
      ReadIffWhole(file, s, w);
      assert surfaces == init + [s];
      assert |TotalsOf(file, surfaces, w).failures| ==
             |TotalsOf(file, init, w).failures| + |FailuresOf(s, EnumerationOf(file, s, w))|;
    }
  }

  /** A report is complete exactly when every surface was wholly read, and then
      its count is the number of the day's rows, empty only when there is none,
      and its interval is the one that spans their instants. */
  lemma CompleteIff(report: Report, file: DatabaseFile, surfaces: seq<Surface>, w: Window)
    requires Reports(report, Some(file), surfaces, w)
    ensures report.disposition in {CompleteEmpty, CompleteNonempty} <==>
            forall s <- surfaces :: WhollyRead(file, s, w)
    ensures report.disposition in {CompleteEmpty, CompleteNonempty} ==>
            && report.count == Some(DayTotal(file, surfaces, w))
            && (report.disposition == CompleteEmpty <==> DayTotal(file, surfaces, w) == 0)
            && (forall i :: Spans(i, DayMilliseconds(file, surfaces, w)) <==> i == report.interval)
  {
    hide WhollyRead, TotalsOf, DayTotal, Spans, DayMilliseconds;
    TotalsIff(file, surfaces, w);
    if report.disposition in {CompleteEmpty, CompleteNonempty} {
      forall i | Spans(i, DayMilliseconds(file, surfaces, w)) ensures i == report.interval {
        SpanIsUnique(i, report.interval, DayMilliseconds(file, surfaces, w));
      }
    }
  }

  /** For surfaces whose rows are dated, as all required ones are, complete
      means: whole schema, days within the limit, whole numbers, no orphans. */
  lemma DatedIsCompleteIff(report: Report, file: DatabaseFile, surfaces: seq<DatedSurface>, w: Window)
    requires Reports(report, Some(file), surfaces, w)
    ensures report.disposition in {CompleteEmpty, CompleteNonempty} <==>
            forall i | 0 <= i < |surfaces| :: ReadInFull(file, surfaces[i], w)
  {
    hide Reports, SchemaFailure, DayInstants, HasOrphan, Fractional;
    CompleteIff(report, file, surfaces, w);
    forall i | 0 <= i < |surfaces|
      ensures WhollyRead(file, surfaces[i], w) <==> ReadInFull(file, surfaces[i], w)
    {
    }
  }

  predicate ReadInFull(file: DatabaseFile, s: DatedSurface, w: Window) {
    && SchemaFailure(file, s).None?
    && |DayInstants(file.data, s, w, Rows(file.data, s.table))| <= MAX_ENUMERATED
    && (forall v <- DayInstants(file.data, s, w, Rows(file.data, s.table)) :: !Fractional(v))
    && (s.relation.Some? ==> !HasOrphan(file.data, s, s.relation.value))
  }

  // ---- What any report says ----

  /** The surface can be queried, and no number among the instants fetched is
      fractional. */
  ghost predicate Answers(file: DatabaseFile, s: Surface, w: Window) {
    && SchemaFailure(file, s).None?
    && (s.timestamp.Some? || s.relation.Some? ==>
          var all := Enumerated(file.data, s, w);
          forall i | 0 <= i < |all| && i < 501 :: !(all[i].Number? && all[i].r.Floor as real != all[i].r))
  }

  predicate IsUndated(s: Surface) {
    s.timestamp.None? && s.relation.None?
  }

  /** The instants of a surface that were seen: the first five hundred, in order. */
  ghost function Seen(file: DatabaseFile, s: Surface, w: Window): seq<int> {
    if !Answers(file, s, w) || IsUndated(s) then []
    else
      var all := Enumerated(file.data, s, w);
      Milliseconds(if |all| <= 500 then all else all[..500])
  }

  /** How many rows a surface adds to the count: those seen, and one for any rows
      at all where they carry no instant. */
  ghost function SeenCount(file: DatabaseFile, s: Surface, w: Window): nat {
    if IsUndated(s) && Answers(file, s, w) then (if Rows(file.data, s.table) == [] then 0 else 1)
    else |Seen(file, s, w)|
  }

  /** What is said against a surface. */
  ghost predicate SaidOf(file: DatabaseFile, s: Surface, w: Window, f: Failure) {
    || SchemaFailure(file, s) == Some(f)
    || (f == QueryFailed(s.table) && SchemaFailure(file, s).None? && !Answers(file, s, w))
    || (f == EnumerationOverflow(s.table) && Answers(file, s, w) && !IsUndated(s) &&
        |Enumerated(file.data, s, w)| > 500)
    || (f == RelationUnknown(s.table) && Answers(file, s, w) &&
        if IsUndated(s) then Rows(file.data, s.table) != []
        else s.relation.Some? && HasOrphan(file.data, s, s.relation.value))
  }

  lemma TakeIs(s: seq<Value>)
    ensures Take(s, 500) == if |s| <= 500 then s else s[..500]
  {
  }

  lemma EnumerationIs(file: DatabaseFile, s: Surface, w: Window, f: Failure)
    ensures var e := EnumerationOf(file, s, w);
            && Observed(e) == Seen(file, s, w) && MatchingCount(e) == SeenCount(file, s, w)
            && (f in FailuresOf(s, e) <==> SaidOf(file, s, w, f))
  {
    hide SchemaFailure, Enumerated, HasOrphan, Milliseconds, Rows;
    TakeIs(Enumerated(file.data, s, w));
  }

  ghost function AllSeen(file: DatabaseFile, surfaces: seq<Surface>, w: Window): seq<int> {
    if surfaces == [] then []
    else AllSeen(file, surfaces[..|surfaces| - 1], w) + Seen(file, surfaces[|surfaces| - 1], w)
  }

  ghost function TotalSeen(file: DatabaseFile, surfaces: seq<Surface>, w: Window): nat {
    if surfaces == [] then 0
    else TotalSeen(file, surfaces[..|surfaces| - 1], w) + SeenCount(file, surfaces[|surfaces| - 1], w)
  }

  lemma {:induction false} TotalsAre(file: DatabaseFile, surfaces: seq<Surface>, w: Window, f: Failure)
    ensures TotalsOf(file, surfaces, w).count == TotalSeen(file, surfaces, w)
    ensures TotalsOf(file, surfaces, w).observed == AllSeen(file, surfaces, w)
    ensures f in TotalsOf(file, surfaces, w).failures <==> exists s <- surfaces :: SaidOf(file, s, w, f)
  {
    hide EnumerationOf, FailuresOf, Seen, SeenCount, SaidOf, MatchingCount, Observed;
    if surfaces != [] {
      var init, s := surfaces[..|surfaces| - 1], surfaces[|surfaces| - 1];
      TotalsAre(file, init, w, f);
      EnumerationIs(file, s, w, f);
      assert s in surfaces && forall x <- surfaces :: x == s || x in init;
      assert forall x <- init :: x in surfaces;
    }
  }

  /** Any report on a database, also one that is not complete: it names exactly
      what can be said against the surfaces, counts and spans exactly what was
      seen of them, and is partial, or says nothing of the day, by whether
      anything was seen. */
  lemma ReportIs(report: Report, file: DatabaseFile, surfaces: seq<Surface>, w: Window)
    requires Reports(report, Some(file), surfaces, w)
    ensures forall f :: f in report.failures <==> exists s <- surfaces :: SaidOf(file, s, w, f)
    ensures report.disposition ==
            if report.failures == [] then
              (if TotalSeen(file, surfaces, w) == 0 then CompleteEmpty else CompleteNonempty)
            else if TotalSeen(file, surfaces, w) > 0 then Partial else CompletenessUnknown
    ensures report.count ==
            if report.disposition == CompletenessUnknown then None else Some(TotalSeen(file, surfaces, w))
    ensures report.disposition == CompletenessUnknown ==> report.interval == UnknownInterval
    ensures report.disposition != CompletenessUnknown ==>
              forall i :: Spans(i, AllSeen(file, surfaces, w)) <==> i == report.interval
  {
    hide SaidOf, TotalsOf, TotalSeen, AllSeen, Spans;
    forall f {
      TotalsAre(file, surfaces, w, f);
    }
    TotalsAre(file, surfaces, w, QueryFailed(""));
    if report.disposition != CompletenessUnknown {
      forall i | Spans(i, AllSeen(file, surfaces, w)) ensures i == report.interval {
        SpanIsUnique(i, report.interval, AllSeen(file, surfaces, w));
      }
    }
  }

  /** Why a surface cannot be queried. */
  lemma SchemaFailureIs(file: DatabaseFile, s: Surface, f: Failure)
    requires SchemaFailure(file, s) == Some(f)
    ensures f.SurfaceAbsent? <==> s.table !in file.schema
    ensures f.SurfaceAbsent? ==> f.table == s.table
    ensures f.ColumnAbsent? ==> f.table in file.schema && f.column !in file.schema[f.table]
    ensures f.ColumnAbsent? && f.table == s.table ==>
              || f.column in s.columns
              || (s.timestamp.Some? && f.column in s.timestamp.value.columns)
              || (s.relation.Some? && s.relation.value.relatedTable == s.table)
    ensures f.ColumnAbsent? && f.table != s.table ==>
              && s.relation.Some? && f.table == s.relation.value.relatedTable
              && (f.column == s.relation.value.relatedColumn || f.column in s.relation.value.timestamp.columns)
    ensures f.QueryFailed? ==> f.table == s.table && s.relation.Some?
    ensures !f.EnumerationOverflow? && !f.RelationUnknown?
  {
    hide FirstMissing;
    if s.table in file.schema {
      FirstMissingIff(s.columns, file.schema[s.table]);
      if s.timestamp.Some? {
        FirstMissingIff(s.timestamp.value.columns, file.schema[s.table]);
      }
    }
    if s.relation.Some? && s.relation.value.relatedTable in file.schema {
      FirstMissingIff(s.relation.value.timestamp.columns, file.schema[s.relation.value.relatedTable]);
    }
  }
}

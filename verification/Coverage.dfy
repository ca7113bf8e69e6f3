/** The window queries over the required surfaces: how their text and their
    positional arguments are composed, and what the composition means. */
module Coverage {
  import opened JsText
  import opened Wrappers
  import opened Sql

  datatype Format = EpochMs | IsoText

  /** Every timestamp of the source names at least one column. */
  datatype TimestampShape = TimestampShape(columns: seq<string>, format: Format)
  type Timestamps = t: TimestampShape | |t.columns| > 0 witness TimestampShape(["created_at"], IsoText)

  datatype Relation = Relation(localColumn: string, relatedTable: string, relatedColumn: string, timestamp: Timestamps)

  datatype Surface = Surface(table: string, columns: seq<string>, timestamp: Option<Timestamps>,
                             relation: Option<Relation>)

  datatype Window = Window(start: int, end: int)

  /** A condition or a projection, and the arguments of its parameters. */
  datatype Fragment<E> = Fragment(sql: E, args: seq<Value>)

  const RELATED := "related"

  // ---- The builders ----

  /** The two operands a column is compared with: parameters in the text, the
      window's bounds once they are bound. */
  datatype Bounds = Bounds(lo: Scalar, hi: Scalar)

  const Holes := Bounds(Param, Param)

  function Instant(format: Format, ms: int): Value {
    if format == EpochMs then Number(ms as real) else Iso(ms)
  }

  function WindowBounds(format: Format, w: Window): seq<Value> {
    [Instant(format, w.start), Instant(format, w.end)]
  }

  function Filled(format: Format, w: Window): Bounds {
    Bounds(Const(Instant(format, w.start)), Const(Instant(format, w.end)))
  }

  function InRange(alias: string, column: string, b: Bounds): Cond {
    Both(AtLeast(Column(alias, column), b.lo), Below(Column(alias, column), b.hi))
  }

  function AnyColumn(columns: seq<string>, alias: string, b: Bounds): Cond
    requires columns != []
  {
    if |columns| == 1 then InRange(alias, columns[0], b)
    else Either(InRange(alias, columns[0], b), AnyColumn(columns[1..], alias, b))
  }

  function FirstColumn(columns: seq<string>, alias: string, b: Bounds): Whens {
    if columns == [] then NoWhen
    else When(InRange(alias, columns[0], b), Column(alias, columns[0]), FirstColumn(columns[1..], alias, b))
  }

  function Repeated(columns: seq<string>, bounds: seq<Value>): seq<Value> {
    if columns == [] then [] else bounds + Repeated(columns[1..], bounds)
  }

  function TimestampPredicate(t: Timestamps, alias: string, w: Window): Fragment<Cond> {
    Fragment(AnyColumn(t.columns, alias, Holes), Repeated(t.columns, WindowBounds(t.format, w)))
  }

  function TimestampExpression(t: Timestamps, alias: string, w: Window): Fragment<Scalar> {
    Fragment(Case(FirstColumn(t.columns, alias, Holes)), Repeated(t.columns, WindowBounds(t.format, w)))
  }

  function Joined(r: Relation, alias: string, window: Cond): Cond {
    Both(Same(Column(RELATED, r.relatedColumn), Column(alias, r.localColumn)), window)
  }

  function RelationPredicate(r: Relation, alias: string, w: Window): Fragment<Cond> {
    var window := TimestampPredicate(r.timestamp, RELATED, w);
    Fragment(Exists(r.relatedTable, RELATED, Joined(r, alias, window.sql)), window.args)
  }

  function RelationExpression(r: Relation, alias: string, w: Window): Fragment<Scalar> {
    var expression := TimestampExpression(r.timestamp, RELATED, w);
    var window := TimestampPredicate(r.timestamp, RELATED, w);
    Fragment(SelectOne(r.relatedTable, RELATED, expression.sql, Joined(r, alias, window.sql)),
             expression.args + window.args)
  }

  function SurfaceWhere(s: Surface, w: Window, alias: string): Fragment<Cond> {
    match (s.timestamp, s.relation)
    case (Some(t), Some(r)) =>
      var own, related := TimestampPredicate(t, alias, w), RelationPredicate(r, alias, w);
      Fragment(Either(own.sql, related.sql), own.args + related.args)
    case (Some(t), None) => TimestampPredicate(t, alias, w)
    case (None, Some(r)) => RelationPredicate(r, alias, w)
    case (None, None) => Fragment(Always, [])
  }

  function SurfaceExpression(s: Surface, w: Window, alias: string): Fragment<Scalar> {
    match (s.timestamp, s.relation)
    case (Some(t), Some(r)) =>
      var own, first := TimestampPredicate(t, alias, w), TimestampExpression(t, alias, w);
      var related := RelationExpression(r, alias, w);
      Fragment(CaseElse(own.sql, first.sql, related.sql), own.args + first.args + related.args)
    case (Some(t), None) => TimestampExpression(t, alias, w)
    case (None, Some(r)) => RelationExpression(r, alias, w)
    case (None, None) => Fragment(Const(Null), [])
  }

  function FormatOf(s: Surface): Format {
    if s.timestamp.Some? then s.timestamp.value.format
    else if s.relation.Some? then s.relation.value.timestamp.format else EpochMs
  }

  /** A surface's own timestamp and its relation's are stored alike. */
  predicate AgreeingFormats(s: Surface) {
    s.timestamp.Some? && s.relation.Some? ==> s.timestamp.value.format == s.relation.value.timestamp.format
  }

  // ---- What they are for ----

  predicate InWindow(v: Value, format: Format, w: Window) {
    match format
    case EpochMs => v.Number? && w.start as real <= v.r < w.end as real
    case IsoText => v.Iso? && w.start <= v.ms < w.end
  }

  /** The first listed column of a row that lies in the window. */
  function OwnInstant(row: Row, columns: seq<string>, format: Format, w: Window): Value {
    if columns == [] then Null
    else if InWindow(Lookup(row, columns[0]), format, w) then Lookup(row, columns[0])
    else OwnInstant(row, columns[1..], format, w)
  }

  predicate Matches(row: Row, r: Relation, related: Row) {
    && r.relatedColumn in related && r.localColumn in row
    && related[r.relatedColumn] == row[r.localColumn] != Null
  }

  /** The related rows that have an instant. */
  function DatedRows(row: Row, r: Relation, w: Window, rows: seq<Row>): seq<Row> {
    if rows == [] then []
    else
      var v := OwnInstant(rows[0], r.timestamp.columns, r.timestamp.format, w);
      (if Matches(row, r, rows[0]) && v != Null then [rows[0]] else []) + DatedRows(row, r, w, rows[1..])
  }

  /** The instant of one of them, whichever the engine picks. */
  function RelatedInstant(db: Database, env: Env, row: Row, r: Relation, w: Window): Value {
    var dated := DatedRows(row, r, w, Rows(db, r.relatedTable));
    if dated == [] then Null
    else OwnInstant(Chosen(db, env, dated), r.timestamp.columns, r.timestamp.format, w)
  }

  function InstantOf(db: Database, s: Surface, w: Window, alias: string, row: Row): Value {
    var own :=
      if s.timestamp.Some? then OwnInstant(row, s.timestamp.value.columns, s.timestamp.value.format, w) else Null;
    if own != Null then own
    else if s.relation.Some? then RelatedInstant(db, map[alias := row], row, s.relation.value, w)
    else Null
  }

  predicate Dated(row: Row, t: Timestamps, w: Window) {
    exists i :: 0 <= i < |t.columns| && t.columns[i] in row && InWindow(row[t.columns[i]], t.format, w)
  }

  predicate RelatedDated(row: Row, r: Relation, w: Window, rows: seq<Row>) {
    exists i :: 0 <= i < |rows| && Matches(row, r, rows[i]) && Dated(rows[i], r.timestamp, w)
  }

  predicate BelongsToDay(db: Database, s: Surface, w: Window, row: Row) {
    || (s.timestamp.Some? && Dated(row, s.timestamp.value, w))
    || (s.relation.Some? && s.relation.value.relatedTable in db.tables &&
        RelatedDated(row, s.relation.value, w, db.tables[s.relation.value.relatedTable]))
  }

  // ---- The arguments line up ----

  lemma BindInRange(alias: string, column: string, lo: Value, hi: Value, more: seq<Value>)
    ensures BindCond(InRange(alias, column, Holes), [lo, hi] + more) ==
            (InRange(alias, column, Bounds(Const(lo), Const(hi))), more)
  {
    assert ([lo, hi] + more)[1..] == [hi] + more;
    assert ([hi] + more)[1..] == more;
    var read := Column(alias, column);
    assert BindScalar(read, [lo, hi] + more) == (read, [lo, hi] + more);
    assert BindCond(AtLeast(read, Param), [lo, hi] + more) == (AtLeast(read, Const(lo)), [hi] + more);
    assert BindScalar(read, [hi] + more) == (read, [hi] + more);
    assert BindCond(Below(read, Param), [hi] + more) == (Below(read, Const(hi)), more);
  }

  lemma {:induction false} BindAnyColumn(columns: seq<string>, alias: string, lo: Value, hi: Value, more: seq<Value>)
    requires columns != []
    ensures BindCond(AnyColumn(columns, alias, Holes), Repeated(columns, [lo, hi]) + more) ==
            (AnyColumn(columns, alias, Bounds(Const(lo), Const(hi))), more)
  {
    hide InRange;
    var rest := Repeated(columns[1..], [lo, hi]);
    Associative([lo, hi], rest, more);
    BindInRange(alias, columns[0], lo, hi, rest + more);
    if |columns| == 1 {
      assert rest == [] && rest + more == more;
    } else {
      BindAnyColumn(columns[1..], alias, lo, hi, more);
    }
  }

  lemma {:induction false} BindFirstColumn(columns: seq<string>, alias: string, lo: Value, hi: Value, more: seq<Value>)
    ensures BindWhens(FirstColumn(columns, alias, Holes), Repeated(columns, [lo, hi]) + more) ==
            (FirstColumn(columns, alias, Bounds(Const(lo), Const(hi))), more)
  {
    hide InRange;
    if columns == [] {
      assert Repeated(columns, [lo, hi]) + more == more;
    } else {
      var rest := Repeated(columns[1..], [lo, hi]);
      Associative([lo, hi], rest, more);
      BindInRange(alias, columns[0], lo, hi, rest + more);
      BindFirstColumn(columns[1..], alias, lo, hi, more);
    }
  }

  function OwnWhere(t: Timestamps, alias: string, w: Window): Cond {
    AnyColumn(t.columns, alias, Filled(t.format, w))
  }

  function OwnCase(t: Timestamps, alias: string, w: Window): Scalar {
    Case(FirstColumn(t.columns, alias, Filled(t.format, w)))
  }

  function RelatedWhere(r: Relation, alias: string, w: Window): Cond {
    Exists(r.relatedTable, RELATED, Joined(r, alias, OwnWhere(r.timestamp, RELATED, w)))
  }

  function RelatedOne(r: Relation, alias: string, w: Window): Scalar {
    SelectOne(r.relatedTable, RELATED, OwnCase(r.timestamp, RELATED, w),
                Joined(r, alias, OwnWhere(r.timestamp, RELATED, w)))
  }

  /** The bound forms: every parameter replaced by its own bound. */
  function WhereBound(s: Surface, w: Window, alias: string): Cond {
    match (s.timestamp, s.relation)
    case (Some(t), Some(r)) => Either(OwnWhere(t, alias, w), RelatedWhere(r, alias, w))
    case (Some(t), None) => OwnWhere(t, alias, w)
    case (None, Some(r)) => RelatedWhere(r, alias, w)
    case (None, None) => Always
  }

  function ExpressionBound(s: Surface, w: Window, alias: string): Scalar {
    match (s.timestamp, s.relation)
    case (Some(t), Some(r)) => CaseElse(OwnWhere(t, alias, w), OwnCase(t, alias, w), RelatedOne(r, alias, w))
    case (Some(t), None) => OwnCase(t, alias, w)
    case (None, Some(r)) => RelatedOne(r, alias, w)
    case (None, None) => Const(Null)
  }

  lemma BindTimestamp(t: Timestamps, alias: string, w: Window, more: seq<Value>)
    ensures BindCond(TimestampPredicate(t, alias, w).sql, TimestampPredicate(t, alias, w).args + more) ==
            (OwnWhere(t, alias, w), more)
    ensures BindScalar(TimestampExpression(t, alias, w).sql, TimestampExpression(t, alias, w).args + more) ==
            (OwnCase(t, alias, w), more)
  {
    var lo, hi := Instant(t.format, w.start), Instant(t.format, w.end);
    BindAnyColumn(t.columns, alias, lo, hi, more);
    BindFirstColumn(t.columns, alias, lo, hi, more);
  }

  lemma BindRelation(r: Relation, alias: string, w: Window, more: seq<Value>)
    ensures BindCond(RelationPredicate(r, alias, w).sql, RelationPredicate(r, alias, w).args + more) ==
            (RelatedWhere(r, alias, w), more)
    ensures BindScalar(RelationExpression(r, alias, w).sql, RelationExpression(r, alias, w).args + more) ==
            (RelatedOne(r, alias, w), more)
  {
    hide TimestampPredicate, TimestampExpression, OwnWhere, OwnCase;
    var first, window := TimestampExpression(r.timestamp, RELATED, w), TimestampPredicate(r.timestamp, RELATED, w);
    BindTimestamp(r.timestamp, RELATED, w, more);
    BindTimestamp(r.timestamp, RELATED, w, window.args + more);
    Associative(first.args, window.args, more);
    BindJoined(r, alias, window.sql, window.args + more);
  }

  lemma BindJoined(r: Relation, alias: string, window: Cond, args: seq<Value>)
    ensures BindCond(Joined(r, alias, window), args) ==
            (Joined(r, alias, BindCond(window, args).0), BindCond(window, args).1)
  {
    var test := Same(Column(RELATED, r.relatedColumn), Column(alias, r.localColumn));
    assert BindScalar(test.a, args) == (test.a, args) && BindScalar(test.b, args) == (test.b, args);
    assert BindCond(test, args) == (test, args);
  }

  /** For every shape of surface each parameter receives its own bound, and the
      arguments that follow are left for what follows. */
  lemma SurfaceBinds(s: Surface, w: Window, alias: string, more: seq<Value>)
    ensures BindCond(SurfaceWhere(s, w, alias).sql, SurfaceWhere(s, w, alias).args + more) ==
            (WhereBound(s, w, alias), more)
    ensures BindScalar(SurfaceExpression(s, w, alias).sql, SurfaceExpression(s, w, alias).args + more) ==
            (ExpressionBound(s, w, alias), more)
  {
    hide TimestampPredicate, TimestampExpression, RelationPredicate, RelationExpression,
         OwnWhere, OwnCase, RelatedWhere, RelatedOne;
    match (s.timestamp, s.relation)
    case (Some(t), Some(r)) =>
      var own, first := TimestampPredicate(t, alias, w), TimestampExpression(t, alias, w);
      var test, value := RelationPredicate(r, alias, w), RelationExpression(r, alias, w);
      Associative(own.args, test.args, more);
      Associative(own.args, first.args, value.args);
      Associative(own.args, first.args + value.args, more);
      Associative(first.args, value.args, more);
      BindTimestamp(t, alias, w, test.args + more);
      BindTimestamp(t, alias, w, first.args + (value.args + more));
      BindTimestamp(t, alias, w, value.args + more);
      BindRelation(r, alias, w, more);
    case (Some(t), None) => BindTimestamp(t, alias, w, more);
    case (None, Some(r)) => BindRelation(r, alias, w, more);
    case (None, None) =>
      assert [] + more == more;
  }

  // ---- What the bound forms mean, row by row ----

  lemma InRangeIff(db: Database, env: Env, alias: string, column: string, format: Format, w: Window)
    requires alias in env
    ensures EvalCond(db, env, InRange(alias, column, Filled(format, w))) == True3 <==>
            InWindow(Lookup(env[alias], column), format, w)
  {
    var b, v := Filled(format, w), Lookup(env[alias], column);
    assert EvalScalar(db, env, Column(alias, column)) == v;
    assert EvalScalar(db, env, b.lo) == Instant(format, w.start) && EvalScalar(db, env, b.hi) == Instant(format, w.end);
    assert EvalCond(db, env, AtLeast(Column(alias, column), b.lo)) == AtLeastValue(v, Instant(format, w.start));
    assert EvalCond(db, env, Below(Column(alias, column), b.hi)) == BelowValue(v, Instant(format, w.end));
  }

  lemma {:induction false} AnyColumnIff(db: Database, env: Env, alias: string, columns: seq<string>, format: Format,
                                        w: Window)
    requires alias in env && columns != []
    ensures EvalCond(db, env, AnyColumn(columns, alias, Filled(format, w))) == True3 <==>
            OwnInstant(env[alias], columns, format, w) != Null
  {
    hide InRange, Filled;
    InRangeIff(db, env, alias, columns[0], format, w);
    if |columns| > 1 {
      AnyColumnIff(db, env, alias, columns[1..], format, w);
    } else {
      assert OwnInstant(env[alias], columns[1..], format, w) == Null;
    }
  }

  lemma {:induction false} FirstColumnIs(db: Database, env: Env, alias: string, columns: seq<string>, format: Format,
                                         w: Window)
    requires alias in env
    ensures EvalWhens(db, env, FirstColumn(columns, alias, Filled(format, w))) ==
            OwnInstant(env[alias], columns, format, w)
  {
    hide InRange, Filled;
    if columns != [] {
      InRangeIff(db, env, alias, columns[0], format, w);
      FirstColumnIs(db, env, alias, columns[1..], format, w);
    }
  }

  lemma OwnIff(db: Database, env: Env, alias: string, t: Timestamps, w: Window)
    requires alias in env
    ensures EvalCond(db, env, OwnWhere(t, alias, w)) == True3 <==>
            OwnInstant(env[alias], t.columns, t.format, w) != Null
    ensures EvalScalar(db, env, OwnCase(t, alias, w)) == OwnInstant(env[alias], t.columns, t.format, w)
  {
    hide AnyColumn, FirstColumn, OwnInstant;
    AnyColumnIff(db, env, alias, t.columns, t.format, w);
    FirstColumnIs(db, env, alias, t.columns, t.format, w);
  }

  lemma JoinedIff(db: Database, env: Env, alias: string, r: Relation, related: Row, w: Window)
    requires alias in env && alias != RELATED
    ensures var inner := env[RELATED := related];
            EvalCond(db, inner, Joined(r, alias, OwnWhere(r.timestamp, RELATED, w))) == True3 <==>
            Matches(env[alias], r, related) &&
            OwnInstant(related, r.timestamp.columns, r.timestamp.format, w) != Null
  {
    hide OwnWhere, OwnInstant;
    var inner: Env := env[RELATED := related];
    OwnIff(db, inner, RELATED, r.timestamp, w);
    var test := Same(Column(RELATED, r.relatedColumn), Column(alias, r.localColumn));
    assert EvalScalar(db, inner, test.a) == Lookup(related, r.relatedColumn);
    assert EvalScalar(db, inner, test.b) == Lookup(env[alias], r.localColumn);
    assert EvalCond(db, inner, test) == True3 <==> Matches(env[alias], r, related);
  }

  lemma {:induction false} MatchingIsDated(db: Database, env: Env, alias: string, r: Relation, w: Window,
                                           rows: seq<Row>)
    requires alias in env && alias != RELATED
    ensures Matching(db, env, RELATED, Joined(r, alias, OwnWhere(r.timestamp, RELATED, w)), rows) ==
            DatedRows(env[alias], r, w, rows)
  {
    hide OwnWhere, OwnInstant, Joined;
    if rows != [] {
      JoinedIff(db, env, alias, r, rows[0], w);
      MatchingIsDated(db, env, alias, r, w, rows[1..]);
    }
  }

  lemma RelationIs(db: Database, env: Env, alias: string, r: Relation, w: Window)
    requires alias in env && alias != RELATED
    ensures var v := RelatedInstant(db, env, env[alias], r, w);
            && (EvalCond(db, env, RelatedWhere(r, alias, w)) == True3 <==> v != Null)
            && EvalScalar(db, env, RelatedOne(r, alias, w)) == v
  {
    hide OwnWhere, OwnCase, OwnInstant, Joined, DatedRows;
    MatchingIsDated(db, env, alias, r, w, Rows(db, r.relatedTable));
    var dated := DatedRows(env[alias], r, w, Rows(db, r.relatedTable));
    if dated != [] {
      var chosen := Chosen(db, env, dated);
      DatedRowsIff(env[alias], r, w, Rows(db, r.relatedTable));
      OwnIff(db, env[RELATED := chosen], RELATED, r.timestamp, w);
    }
  }

  /** The condition selects a row exactly when the projection gives it an
      instant, and the projection is that instant. */
  lemma SurfaceMeans(db: Database, s: Surface, w: Window, alias: string, row: Row)
    requires alias != RELATED
    ensures var env: Env := map[alias := row];
            && EvalScalar(db, env, ExpressionBound(s, w, alias)) == InstantOf(db, s, w, alias, row)
            && (EvalCond(db, env, WhereBound(s, w, alias)) == True3 <==>
                  InstantOf(db, s, w, alias, row) != Null || (s.timestamp.None? && s.relation.None?))
  {
    hide OwnWhere, OwnCase, OwnInstant, RelatedWhere, RelatedOne, RelatedInstant;
    var env: Env := map[alias := row];
    if s.timestamp.Some? {
      OwnIff(db, env, alias, s.timestamp.value, w);
    }
    if s.relation.Some? {
      RelationIs(db, env, alias, s.relation.value, w);
    }
  }

  // ---- What an instant is ----

  lemma {:induction false} OwnInstantIff(row: Row, columns: seq<string>, format: Format, w: Window)
    ensures OwnInstant(row, columns, format, w) != Null ==> InWindow(OwnInstant(row, columns, format, w), format, w)
    ensures OwnInstant(row, columns, format, w) != Null <==>
            exists i :: 0 <= i < |columns| && columns[i] in row && InWindow(row[columns[i]], format, w)
  {
    if columns != [] {
      OwnInstantIff(row, columns[1..], format, w);
      assert columns == [columns[0]] + columns[1..];
    }
  }

  /** It is the first of the columns that lies in the window. */
  lemma {:induction false} OwnInstantIsFirst(row: Row, columns: seq<string>, format: Format, w: Window, i: nat)
    requires i < |columns| && InWindow(Lookup(row, columns[i]), format, w)
    requires forall k :: 0 <= k < i ==> !InWindow(Lookup(row, columns[k]), format, w)
    ensures OwnInstant(row, columns, format, w) == Lookup(row, columns[i])
  {
    hide InWindow;
    if i > 0 {
      assert !InWindow(Lookup(row, columns[0]), format, w);
      OwnInstantIsFirst(row, columns[1..], format, w, i - 1);
    }
  }

  lemma {:induction false} DatedRowsIff(row: Row, r: Relation, w: Window, rows: seq<Row>)
    ensures DatedRows(row, r, w, rows) != [] <==> RelatedDated(row, r, w, rows)
    ensures forall related <- DatedRows(row, r, w, rows) ::
              OwnInstant(related, r.timestamp.columns, r.timestamp.format, w) != Null
  {
    hide OwnInstant, InWindow;
    if rows != [] {
      OwnInstantIff(rows[0], r.timestamp.columns, r.timestamp.format, w);
      DatedRowsIff(row, r, w, rows[1..]);
      assert rows == [rows[0]] + rows[1..];
    }
  }

  /** Whichever row the engine picks: there is an instant exactly when a related
      row is dated, and it lies in the window. */
  lemma RelatedInstantIff(db: Database, env: Env, row: Row, r: Relation, w: Window)
    ensures var v := RelatedInstant(db, env, row, r, w);
            && (v != Null ==> InWindow(v, r.timestamp.format, w))
            && (v != Null <==> RelatedDated(row, r, w, Rows(db, r.relatedTable)))
  {
    hide OwnInstant, InWindow, DatedRows, RelatedDated;
    DatedRowsIff(row, r, w, Rows(db, r.relatedTable));
    var dated := DatedRows(row, r, w, Rows(db, r.relatedTable));
    if dated != [] {
      OwnInstantIff(Chosen(db, env, dated), r.timestamp.columns, r.timestamp.format, w);
    }
  }

  lemma NobodyIsDated(row: Row, r: Relation, w: Window)
    ensures !RelatedDated(row, r, w, [])
  {
  }

  /** A row has an instant exactly when it belongs to the day, by a column of
      its own or by a related row; the instant lies in the window. */
  lemma InstantIff(db: Database, s: Surface, w: Window, alias: string, row: Row)
    ensures InstantOf(db, s, w, alias, row) != Null <==> BelongsToDay(db, s, w, row)
    ensures InstantOf(db, s, w, alias, row) != Null && AgreeingFormats(s) ==>
              InWindow(InstantOf(db, s, w, alias, row), FormatOf(s), w)
  {
    hide OwnInstant, RelatedInstant, InWindow, RelatedDated;
    if s.timestamp.Some? {
      OwnInstantIff(row, s.timestamp.value.columns, s.timestamp.value.format, w);
    }
    if s.relation.Some? {
      NobodyIsDated(row, s.relation.value, w);
      RelatedInstantIff(db, map[alias := row], row, s.relation.value, w);
    }
  }

  /** The composed condition, with its own arguments, selects exactly the rows
      that belong to the day. */
  lemma WhereSelectsTheDay(db: Database, s: Surface, w: Window, alias: string, row: Row)
    requires alias != RELATED && (s.timestamp.Some? || s.relation.Some?)
    ensures var where := SurfaceWhere(s, w, alias);
            && BindCond(where.sql, where.args).1 == []
            && (EvalCond(db, map[alias := row], BindCond(where.sql, where.args).0) == True3 <==>
                  BelongsToDay(db, s, w, row))
  {
    hide BelongsToDay, InstantOf, WhereBound, ExpressionBound, SurfaceExpression;
    var where := SurfaceWhere(s, w, alias);
    assert where.args + [] == where.args;
    SurfaceBinds(s, w, alias, []);
    SurfaceMeans(db, s, w, alias, row);
    InstantIff(db, s, w, alias, row);
  }
}

/** The fragment of SQL the coverage queries are written in: positional
    parameters, three-valued conditions, CASE, EXISTS and a correlated
    subselect. A statement is bound first, left to right, and then evaluated. */
module Sql {
  import opened JsText
  import opened Wrappers

  /** A stored value. An Iso is the text a Date prints for an instant; Token is
      any other text, which sorts away from them. */
  datatype Value = Null | Number(r: real) | Iso(ms: int) | Token(s: Text)
  {
    function Class(): nat {
      match this case Null => 0 case Number(_) => 1 case Iso(_) => 2 case Token(_) => 3
    }
  }

  type Row = map<string, Value>
  type Env = map<string, Row>

  /** Tables, and the engine's choice: which of several matching rows a
      subselect with LIMIT 1 and no order answers with, outer row by outer row. */
  datatype Database = Database(tables: map<string, seq<Row>>, pick: (Env, seq<Row>) -> nat)

  function Lookup(row: Row, column: string): Value {
    if column in row then row[column] else Null
  }

  function Rows(db: Database, table: string): seq<Row> {
    if table in db.tables then db.tables[table] else []
  }

  /** The engine's choice among some rows. */
  function Chosen(db: Database, env: Env, rows: seq<Row>): (row: Row)
    requires rows != []
    ensures row in rows
  {
    rows[db.pick(env, rows) % |rows|]
  }

  datatype Scalar =
    | Column(alias: string, name: string)
    | Param
    | Const(value: Value)
    | Case(whens: Whens)
    | CaseElse(cond: Cond, yes: Scalar, no: Scalar)
    | SelectOne(table: string, subAlias: string, select: Scalar, where: Cond)

  datatype Whens = NoWhen | When(cond: Cond, result: Scalar, rest: Whens)

  datatype Cond =
    | AtLeast(a: Scalar, b: Scalar)
    | Below(a: Scalar, b: Scalar)
    | Same(a: Scalar, b: Scalar)
    | Both(p: Cond, q: Cond)
    | Either(p: Cond, q: Cond)
    | Exists(table: string, subAlias: string, where: Cond)
    | Always

  // ---- Binding positional arguments in the order of the text ----

  function BindScalar(e: Scalar, args: seq<Value>): (Scalar, seq<Value>) {
    match e
    case Column(_, _) => (e, args)
    case Const(_) => (e, args)
    case Param => if args == [] then (Const(Null), []) else (Const(args[0]), args[1..])
    case Case(whens) => var (w, rest) := BindWhens(whens, args); (Case(w), rest)
    case CaseElse(c, yes, no) =>
      var (c', rest) := BindCond(c, args);
      var (yes', rest') := BindScalar(yes, rest);
      var (no', rest'') := BindScalar(no, rest');
      (CaseElse(c', yes', no'), rest'')
    case SelectOne(table, alias, select, where) =>
      var (select', rest) := BindScalar(select, args);
      var (where', rest') := BindCond(where, rest);
      (SelectOne(table, alias, select', where'), rest')
  }

  function BindWhens(whens: Whens, args: seq<Value>): (Whens, seq<Value>) {
    match whens
    case NoWhen => (NoWhen, args)
    case When(c, e, more) =>
      var (c', rest) := BindCond(c, args);
      var (e', rest') := BindScalar(e, rest);
      var (more', rest'') := BindWhens(more, rest');
      (When(c', e', more'), rest'')
  }

  function BindCond(c: Cond, args: seq<Value>): (Cond, seq<Value>) {
    match c
    case AtLeast(a, b) =>
      var (a', rest) := BindScalar(a, args); var (b', rest') := BindScalar(b, rest); (AtLeast(a', b'), rest')
    case Below(a, b) =>
      var (a', rest) := BindScalar(a, args); var (b', rest') := BindScalar(b, rest); (Below(a', b'), rest')
    case Same(a, b) =>
      var (a', rest) := BindScalar(a, args); var (b', rest') := BindScalar(b, rest); (Same(a', b'), rest')
    case Both(p, q) =>
      var (p', rest) := BindCond(p, args); var (q', rest') := BindCond(q, rest); (Both(p', q'), rest')
    case Either(p, q) =>
      var (p', rest) := BindCond(p, args); var (q', rest') := BindCond(q, rest); (Either(p', q'), rest')
    case Exists(table, alias, where) =>
      var (where', rest) := BindCond(where, args); (Exists(table, alias, where'), rest)
    case Always => (Always, args)
  }

  // ---- Evaluation ----

  datatype Tri = True3 | False3 | Unknown3

  function Known(b: bool): Tri {
    if b then True3 else False3
  }

  predicate Precedes(a: Value, b: Value) {
    || a.Class() < b.Class()
    || (a.Class() == b.Class() &&
        match a
        case Null => false
        case Number(r) => r < b.r
        case Iso(ms) => ms < b.ms
        case Token(s) => Before(s, b.s))
  }

  function BelowValue(a: Value, b: Value): Tri {
    if a.Null? || b.Null? then Unknown3 else Known(Precedes(a, b))
  }

  function AtLeastValue(a: Value, b: Value): Tri {
    if a.Null? || b.Null? then Unknown3 else Known(!Precedes(a, b))
  }

  function SameValue(a: Value, b: Value): Tri {
    if a.Null? || b.Null? then Unknown3 else Known(a == b)
  }

  function And3(a: Tri, b: Tri): Tri {
    if a == False3 || b == False3 then False3 else if a == True3 && b == True3 then True3 else Unknown3
  }

  function Or3(a: Tri, b: Tri): Tri {
    if a == True3 || b == True3 then True3 else if a == False3 && b == False3 then False3 else Unknown3
  }

  /** False, unknown, true: a conjunction is the least of two, a disjunction the
      greatest. */
  function Truth(t: Tri): nat {
    match t case False3 => 0 case Unknown3 => 1 case True3 => 2
  }

  lemma LeastAndGreatest(a: Tri, b: Tri)
    ensures Truth(And3(a, b)) == if Truth(a) <= Truth(b) then Truth(a) else Truth(b)
    ensures Truth(Or3(a, b)) == if Truth(a) <= Truth(b) then Truth(b) else Truth(a)
  {
  }

  /** Comparisons are unknown exactly where a side is NULL; otherwise they go by
      the class of the values, and within one by numbers, instants or texts. */
  lemma ComparisonsIff(a: Value, b: Value)
    ensures forall t <- [BelowValue(a, b), AtLeastValue(a, b), SameValue(a, b)] ::
              t == Unknown3 <==> a == Null || b == Null
    ensures BelowValue(a, b) == True3 <==> AtLeastValue(a, b) == False3
    ensures SameValue(a, b) == True3 <==> a == b != Null
    ensures BelowValue(a, b) == True3 <==>
            || (a.Number? && b.Number? && a.r < b.r)
            || (a.Iso? && b.Iso? && a.ms < b.ms)
            || (a.Token? && b.Token? && Before(a.s, b.s))
            || (a.Number? && (b.Iso? || b.Token?))
            || (a.Iso? && b.Token?)
  {
    var three := [BelowValue(a, b), AtLeastValue(a, b), SameValue(a, b)];
    assert forall t <- three :: t == three[0] || t == three[1] || t == three[2];
  }

  function EvalScalar(db: Database, env: Env, e: Scalar): Value
    decreases e, 0, 0
  {
    match e
    case Column(alias, name) => if alias in env then Lookup(env[alias], name) else Null
    case Param => Null
    case Const(v) => v
    case Case(whens) => EvalWhens(db, env, whens)
    case CaseElse(c, yes, no) =>
      if EvalCond(db, env, c) == True3 then EvalScalar(db, env, yes) else EvalScalar(db, env, no)
    case SelectOne(table, alias, select, where) =>
      var matching := Matching(db, env, alias, where, Rows(db, table));
      if matching == [] then Null else EvalScalar(db, env[alias := Chosen(db, env, matching)], select)
  }

  function EvalWhens(db: Database, env: Env, whens: Whens): Value
    decreases whens, 0, 0
  {
    match whens
    case NoWhen => Null
    case When(c, e, more) => if EvalCond(db, env, c) == True3 then EvalScalar(db, env, e) else EvalWhens(db, env, more)
  }

  function EvalCond(db: Database, env: Env, c: Cond): Tri
    decreases c, 0, 0
  {
    match c
    case AtLeast(a, b) => AtLeastValue(EvalScalar(db, env, a), EvalScalar(db, env, b))
    case Below(a, b) => BelowValue(EvalScalar(db, env, a), EvalScalar(db, env, b))
    case Same(a, b) => SameValue(EvalScalar(db, env, a), EvalScalar(db, env, b))
    case Both(p, q) => And3(EvalCond(db, env, p), EvalCond(db, env, q))
    case Either(p, q) => Or3(EvalCond(db, env, p), EvalCond(db, env, q))
    case Exists(table, alias, where) => Known(Matching(db, env, alias, where, Rows(db, table)) != [])
    case Always => True3
  }

  /** The rows on which a condition is true. */
  function Matching(db: Database, env: Env, alias: string, where: Cond, rows: seq<Row>): seq<Row>
    decreases where, 1, |rows|
  {
    if rows == [] then []
    else
      (if EvalCond(db, env[alias := rows[0]], where) == True3 then [rows[0]] else []) +
      Matching(db, env, alias, where, rows[1..])
  }

  // ---- SELECT expression FROM table AS alias WHERE condition ORDER BY 1 LIMIT n ----

  datatype Select = Select(expression: Scalar, table: string, alias: string, where: Cond, limit: nat)

  function Projection(db: Database, q: Select, rows: seq<Row>): seq<Value> {
    if rows == [] then []
    else
      var env: Env := map[q.alias := rows[0]];
      (if EvalCond(db, env, q.where) == True3 then [EvalScalar(db, env, q.expression)] else []) +
      Projection(db, q, rows[1..])
  }

  function InsertValue(v: Value, sorted: seq<Value>): seq<Value> {
    if sorted == [] || !Precedes(sorted[0], v) then [v] + sorted else [sorted[0]] + InsertValue(v, sorted[1..])
  }

  function SortValues(s: seq<Value>): seq<Value> {
    if s == [] then [] else InsertValue(s[0], SortValues(s[1..]))
  }

  function Take<T>(s: seq<T>, n: nat): (r: seq<T>)
    ensures r <= s && |r| == if |s| <= n then |s| else n
  {
    if |s| <= n then s else s[..n]
  }

  /** The answer of the engine: nothing when an argument is left over. */
  function RunQuery(db: Database, q: Select, args: seq<Value>): Option<seq<Value>> {
    var (expression, rest) := BindScalar(q.expression, args);
    var (where, left) := BindCond(q.where, rest);
    if left != [] then None
    else
      var bound := q.(expression := expression, where := where);
      Some(Take(SortValues(Projection(db, bound, Rows(db, q.table))), q.limit))
  }

  predicate Ascending(s: seq<Value>) {
    forall i, j | 0 <= i < j < |s| :: !Precedes(s[j], s[i])
  }

  lemma PrecedesIsTransitive(a: Value, b: Value, c: Value)
    ensures Precedes(a, b) && Precedes(b, c) ==> Precedes(a, c)
    ensures Precedes(a, b) ==> !Precedes(b, a)
    ensures Precedes(a, b) ==> Precedes(a, c) || Precedes(c, b)
  {
    if a.Token? && b.Token? {
      BeforeIsTotal(a.s, b.s);
      if c.Token? && Before(a.s, b.s) {
        TextSplits(a.s, b.s, c.s);
      }
    }
  }

  lemma TextSplits(a: Text, b: Text, c: Text)
    requires Before(a, b)
    ensures Before(a, c) || Before(c, b)
    ensures Before(b, c) ==> Before(a, c)
  {
    BeforeIsTotal(a, c);
    if Before(c, a) {
      BeforeIsTransitive(c, a, b);
    }
    if Before(b, c) {
      BeforeIsTransitive(a, b, c);
    }
  }

  lemma {:induction false} InsertValueSorts(v: Value, s: seq<Value>)
    ensures multiset(InsertValue(v, s)) == multiset(s) + multiset{v}
    ensures Ascending(s) ==> Ascending(InsertValue(v, s))
  {
    if s != [] && Precedes(s[0], v) {
      InsertValueSorts(v, s[1..]);
      assert s == [s[0]] + s[1..];
      if Ascending(s) {
        TailAscending(s);
        var t := InsertValue(v, s[1..]);
        forall x | x in t ensures !Precedes(x, s[0]) {
          assert x in multiset(t);
          PrecedesIsTransitive(s[0], v, s[0]);
        }
        ConsAscending(s[0], t);
      }
    } else if Ascending(s) {
      forall x | x in s ensures !Precedes(x, v) {
        PrecedesIsTransitive(x, v, s[0]);
      }
      ConsAscending(v, s);
    }
  }

  lemma TailAscending(s: seq<Value>)
    requires s != [] && Ascending(s)
    ensures Ascending(s[1..])
  {
  }

  lemma ConsAscending(v: Value, s: seq<Value>)
    requires Ascending(s) && forall x | x in s :: !Precedes(x, v)
    ensures Ascending([v] + s)
  {
  }

  lemma {:induction false} SortValuesSorts(s: seq<Value>)
    ensures multiset(SortValues(s)) == multiset(s) && Ascending(SortValues(s))
    ensures |SortValues(s)| == |s|
  {
    if s != [] {
      SortValuesSorts(s[1..]);
      InsertValueSorts(s[0], SortValues(s[1..]));
      assert s == [s[0]] + s[1..];
      assert |SortValues(s)| == |multiset(SortValues(s))|;
    }
  }
}

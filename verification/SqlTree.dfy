/**
 SQL queries as trees, and the two walks over them that must stay in step: one renders the
 text with its placeholders, the other lists the parameters.
 */
module SqlTree {
  import opened Prelude

  datatype Param = Number(n: int) | Text(s: string) | Many(items: seq<Param>)

  datatype Order = Ascending | AscendingNullsFirst | AscendingNullsLast
                 | Descending | DescendingNullsFirst | DescendingNullsLast

  datatype JoinType = Inner | Outer | Cross | Left | Right

  datatype Operator = Equal | NotEqual | GreaterThan | GreaterThanEqualTo | LessThan
                    | LessThanEqualTo | Like | NotLike | Within | NotIn | IsNull | IsNotNull

  datatype Field = Field(table: string, column: string, fn: Option<string>)

  datatype Value = Value(value: Param, fn: Option<string>)

  datatype Operand = OfField(f: Field) | OfValue(v: Value) | OfQuery(q: QueryTree)

  datatype Where = Where(field: Operand, operator: Operator, value: Operand)

  datatype JoinTree = JoinTree(joinType: JoinType, table: string, where: seq<Where>)

  datatype QueryTree = QueryTree(
    table: string,
    joins: seq<JoinTree>,
    select: seq<Field>,
    where: seq<Where>,
    having: seq<Where>,
    group: seq<Field>,
    order: seq<(Field, Order)>,
    limit: Option<int>,
    offset: Option<int>,
    fn: Option<string>)

  /** A piece of rendered text: literal text, or the placeholder `%s`. */
  datatype Token = Lit(text: string) | Hole

  type Tokens = seq<Token>

  function OrderText(o: Order): string {
    match o
    case Ascending => "ASC"
    case AscendingNullsFirst => "ASC NULLS FIRST"
    case AscendingNullsLast => "ASC NULLS LAST"
    case Descending => "DESC"
    case DescendingNullsFirst => "DESC NULLS FIRST"
    case DescendingNullsLast => "DESC NULLS LAST"
  }

  function JoinTypeText(j: JoinType): string {
    match j
    case Inner => "INNER JOIN"
    case Outer => "FULL OUTER JOIN"
    case Cross => "CROSS JOIN"
    case Left => "LEFT JOIN"
    case Right => "RIGHT JOIN"
  }

  predicate IsNullTest(o: Operator) {
    o.IsNull? || o.IsNotNull?
  }

  /** What stands after the first operand, and before the second when there is one. */
  function OperatorText(o: Operator): string {
    match o
    case Equal => " = "
    case NotEqual => " != "
    case GreaterThan => " > "
    case GreaterThanEqualTo => " >= "
    case LessThan => " < "
    case LessThanEqualTo => " <= "
    case Like => " LIKE "
    case NotLike => " NOT LIKE "
    case Within => " IN "
    case NotIn => " NOT IN "
    case IsNull => " IS NULL"
    case IsNotNull => " IS NOT NULL"
  }

  /** Python's truth of an optional string: absent and empty both count as false. */
  predicate Given(f: Option<string>) {
    f.Some? && f.value != ""
  }

  predicate NonZero(n: Option<int>) {
    n.Some? && n.value != 0
  }

  function FieldText(f: Field): string {
    var name := f.table + "." + f.column;
    if Given(f.fn) then f.fn.value + "(" + name + ")" else name
  }

  /** Python's `sep.join(parts)`. */
  function Joined(parts: seq<string>, sep: string): string {
    if parts == [] then ""
    else if |parts| == 1 then parts[0]
    else parts[0] + sep + Joined(parts[1..], sep)
  }

  function FieldNames(fs: seq<Field>): (names: seq<string>)
    ensures |names| == |fs|
  {
    seq(|fs|, i requires 0 <= i < |fs| => FieldText(fs[i]))
  }

  function OrderNames(os: seq<(Field, Order)>): (names: seq<string>)
    ensures |names| == |os|
  {
    seq(|os|, i requires 0 <= i < |os| => FieldText(os[i].0) + " " + OrderText(os[i].1))
  }

  function ValueText(v: Value): Tokens {
    if Given(v.fn) then [Lit(v.fn.value + "("), Hole, Lit(")")] else [Hole]
  }

  /** Text one after the other; a failed assertion anywhere fails the whole. */
  function Then(a: Option<Tokens>, b: Option<Tokens>): Option<Tokens> {
    if a.Some? && b.Some? then Some(a.value + b.value) else None
  }

  // The text walk. None is an AssertionError.

  function OperandText(o: Operand): Option<Tokens>
    decreases o
  {
    match o
    case OfField(f) => Some([Lit(FieldText(f))])
    case OfValue(v) => Some(ValueText(v))
    case OfQuery(q) =>
      var open := if Given(q.fn) then q.fn.value + "(" else "(";
      Then(Some([Lit(open)]), Then(QueryText(q), Some([Lit(")")])))
  }

  function WhereText(w: Where): Option<Tokens>
    decreases w
  {
    var operator := Some([Lit(OperatorText(w.operator))]);
    if IsNullTest(w.operator) then Then(OperandText(w.field), operator)
    else Then(OperandText(w.field), Then(operator, OperandText(w.value)))
  }

  function WheresText(ws: seq<Where>): Option<Tokens>
    decreases ws, 0
  {
    if ws == [] then Some([])
    else if |ws| == 1 then WhereText(ws[0])
    else Then(WhereText(ws[0]), Then(Some([Lit(" AND ")]), WheresText(ws[1..])))
  }

  function JoinText(j: JoinTree): Option<Tokens>
    decreases j
  {
    if j.where == [] then None
    else Then(Some([Lit(JoinTypeText(j.joinType) + " " + j.table + " ON ")]), WheresText(j.where))
  }

  /** The joins, each preceded by a space. */
  function JoinsText(js: seq<JoinTree>): Option<Tokens>
    decreases js
  {
    if js == [] then Some([])
    else Then(Some([Lit(" ")]), Then(JoinText(js[0]), JoinsText(js[1..])))
  }

  function WhereClause(keyword: string, ws: seq<Where>): Option<Tokens>
    decreases ws, 1
  {
    if ws == [] then Some([]) else Then(Some([Lit(keyword)]), WheresText(ws))
  }

  function CountClause(keyword: string, n: Option<int>): Tokens {
    if NonZero(n) then [Lit(keyword), Hole] else []
  }

  function GroupClause(fs: seq<Field>): Tokens {
    if fs == [] then [] else [Lit(" GROUP BY " + Joined(FieldNames(fs), ","))]
  }

  function OrderClause(os: seq<(Field, Order)>): Tokens {
    if os == [] then [] else [Lit(" ORDER BY " + Joined(OrderNames(os), ","))]
  }

  function SelectClause(q: QueryTree): Tokens {
    [Lit("SELECT " + Joined(FieldNames(q.select), ",") + " FROM " + q.table)]
  }

  function TailClauses(q: QueryTree): Tokens {
    OrderClause(q.order) + CountClause(" LIMIT ", q.limit) + CountClause(" OFFSET ", q.offset)
  }

  function QueryText(q: QueryTree): Option<Tokens>
    decreases q
  {
    if q.select == [] then None
    else
      Then(Some(SelectClause(q)),
      Then(JoinsText(q.joins),
      Then(WhereClause(" WHERE ", q.where),
      Then(Some(GroupClause(q.group)),
      Then(WhereClause(" HAVING ", q.having),
           Some(TailClauses(q)))))))
  }

  // The parameter walk.

  function Both(a: Option<seq<Param>>, b: Option<seq<Param>>): Option<seq<Param>> {
    if a.Some? && b.Some? then Some(a.value + b.value) else None
  }

  function OperandParams(o: Operand): Option<seq<Param>>
    decreases o
  {
    match o
    case OfField(_) => Some([])
    case OfValue(v) => Some([v.value])
    case OfQuery(q) => QueryParams(q)
  }

  function WhereParams(w: Where): Option<seq<Param>>
    decreases w
  {
    Both(OperandParams(w.field),
         if IsNullTest(w.operator) then Some([]) else OperandParams(w.value))
  }

  function WheresParams(ws: seq<Where>): Option<seq<Param>>
    decreases ws
  {
    if ws == [] then Some([]) else Both(WhereParams(ws[0]), WheresParams(ws[1..]))
  }

  function JoinsParams(js: seq<JoinTree>): Option<seq<Param>>
    decreases js
  {
    if js == [] then Some([]) else Both(WheresParams(js[0].where), JoinsParams(js[1..]))
  }

  function CountParams(n: Option<int>): seq<Param> {
    if NonZero(n) then [Number(n.value)] else []
  }

  function QueryParams(q: QueryTree): Option<seq<Param>>
    decreases q
  {
    if q.select == [] then None
    else
      Both(JoinsParams(q.joins),
      Both(WheresParams(q.where),
      Both(WheresParams(q.having),
           Some(CountParams(q.limit) + CountParams(q.offset)))))
  }
}

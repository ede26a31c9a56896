/**
 A reader of SQL text, written without looking at how the text is made: from the characters of
 a query and the list of its parameters back to the tree. What is read is a value, the text
 behind it, and the parameters that are left.
 */
module SqlReader {
  import opened Prelude
  import opened SqlTree

  datatype Reading<+T> = Unread | Reading(value: T, rest: string, params: seq<Param>)

  /** Characters that stand in names and other words. */
  predicate WordChar(c: char) {
    c != ' ' && c != '(' && c != ')' && c != ',' && c != '%' && c != ';'
  }

  predicate IsWord(s: string) {
    forall i :: 0 <= i < |s| ==> WordChar(s[i])
  }

  /** The word that the text starts with. */
  function Word(s: string): (w: string)
    ensures |w| <= |s|
  {
    if s == "" || !WordChar(s[0]) then "" else s[..1] + Word(s[1..])
  }

  function AfterWord(s: string): (rest: string)
    ensures |rest| <= |s|
  {
    s[|Word(s)|..]
  }

  /** The word behind a space, empty if there is none. */
  function Keyword(s: string): string {
    if s != "" && s[0] == ' ' then Word(s[1..]) else ""
  }

  function AfterKeyword(s: string): (rest: string)
    requires Keyword(s) != ""
    ensures |rest| < |s|
  {
    AfterWord(s[1..])
  }

  /** The text starts with this character. */
  predicate At(s: string, c: char) {
    s != "" && s[0] == c
  }

  /** A name and what it is qualified with, by its last dot. */
  function Qualified(w: string): Option<(string, string)> {
    if w == "" then None
    else
      var last := |w| - 1;
      if w[last] == '.' then Some((w[..last], ""))
      else
        match Qualified(w[..last])
        case None => None
        case Some(n) => Some((n.0, n.1 + [w[last]]))
  }

  function NamedField(w: string, fn: Option<string>): Option<Field> {
    var n := Qualified(w);
    if n.Some? then Some(Field(n.value.0, n.value.1, fn)) else None
  }

  /** A column, or a function of one. */
  function ReadField(s: string): (r: Option<(Field, string)>)
    ensures r.Some? ==> |r.value.1| <= |s|
  {
    var word, rest := Word(s), AfterWord(s);
    if At(rest, '(') then
      var inner, behind := Word(rest[1..]), AfterWord(rest[1..]);
      var f := NamedField(inner, Some(word));
      if f.Some? && At(behind, ')') then Some((f.value, behind[1..])) else None
    else
      var f := NamedField(word, None);
      if f.Some? then Some((f.value, rest)) else None
  }

  function ReadFields(s: string): (r: Option<(seq<Field>, string)>)
    ensures r.Some? ==> |r.value.1| <= |s|
    decreases |s|
  {
    match ReadField(s)
    case None => None
    case Some((f, rest)) =>
      if !At(rest, ',') then Some(([f], rest))
      else
        match ReadFields(rest[1..])
        case None => None
        case Some((fs, behind)) => Some(([f] + fs, behind))
  }

  function ReadDirection(s: string): (r: Option<(Order, string)>)
    ensures r.Some? ==> |r.value.1| <= |s|
  {
    var ascending := Keyword(s) == "ASC";
    if !ascending && Keyword(s) != "DESC" then None
    else
      var rest := AfterKeyword(s);
      if Keyword(rest) != "NULLS" then Some((if ascending then Ascending else Descending, rest))
      else
        var behind := AfterKeyword(rest);
        if Keyword(behind) == "FIRST" then
          Some((if ascending then AscendingNullsFirst else DescendingNullsFirst, AfterKeyword(behind)))
        else if Keyword(behind) == "LAST" then
          Some((if ascending then AscendingNullsLast else DescendingNullsLast, AfterKeyword(behind)))
        else None
  }

  function ReadOrders(s: string): (r: Option<(seq<(Field, Order)>, string)>)
    ensures r.Some? ==> |r.value.1| <= |s|
    decreases |s|
  {
    match ReadField(s)
    case None => None
    case Some((f, afterField)) =>
      match ReadDirection(afterField)
      case None => None
      case Some((d, rest)) =>
        if !At(rest, ',') then Some(([(f, d)], rest))
        else
          match ReadOrders(rest[1..])
          case None => None
          case Some((os, behind)) => Some(([(f, d)] + os, behind))
  }

  /** A table, perhaps with an alias. */
  function ReadTable(s: string): (r: Option<(string, string)>)
    ensures r.Some? ==> |r.value.1| <= |s|
  {
    var table, rest := Word(s), AfterWord(s);
    if Keyword(rest) != "AS" then Some((table, rest))
    else
      var behind := AfterKeyword(rest);
      if Keyword(behind) == "" then None
      else Some((table + " AS " + Keyword(behind), AfterKeyword(behind)))
  }

  function ReadOperator(s: string): (r: Option<(Operator, string)>)
    ensures r.Some? ==> |r.value.1| < |s|
  {
    var k := Keyword(s);
    if k == "" then None
    else
      var rest := AfterKeyword(s);
      if k == "=" then Some((Equal, rest))
      else if k == "!=" then Some((NotEqual, rest))
      else if k == ">" then Some((GreaterThan, rest))
      else if k == ">=" then Some((GreaterThanEqualTo, rest))
      else if k == "<" then Some((LessThan, rest))
      else if k == "<=" then Some((LessThanEqualTo, rest))
      else if k == "LIKE" then Some((Like, rest))
      else if k == "IN" then Some((Within, rest))
      else if k == "NOT" then
        if Keyword(rest) == "LIKE" then Some((NotLike, AfterKeyword(rest)))
        else if Keyword(rest) == "IN" then Some((NotIn, AfterKeyword(rest)))
        else None
      else if k == "IS" then
        if Keyword(rest) == "NULL" then Some((IsNull, AfterKeyword(rest)))
        else if Keyword(rest) == "NOT" && Keyword(AfterKeyword(rest)) == "NULL" then
          Some((IsNotNull, AfterKeyword(AfterKeyword(rest))))
        else None
      else None
  }

  /** A placeholder, which stands for the next parameter. */
  predicate AtHole(s: string) {
    |s| >= 2 && s[0] == '%' && s[1] == 's'
  }

  /** What stands for the second operand where there is none. */
  const NOTHING := OfValue(Value(Number(0), None))

  /** A placeholder, a column, a query in parentheses, or a function of one of these. */
  function ReadOperand(s: string, ps: seq<Param>): (r: Reading<Operand>)
    ensures r.Reading? ==> |r.rest| <= |s|
    decreases |s|, 0
  {
    if AtHole(s) then
      if ps == [] then Unread else Reading(OfValue(Value(ps[0], None)), s[2..], ps[1..])
    else
      var word, rest := Word(s), AfterWord(s);
      var inside := if At(rest, '(') then rest[1..] else "";
      var fn := if word == "" then None else Some(word);
      if !At(rest, '(') || At(AfterWord(inside), ')') then
        var f := ReadField(s);
        if f.None? then Unread else Reading(OfField(f.value.0), f.value.1, ps)
      else if AtHole(inside) then
        if ps == [] || !At(inside[2..], ')') then Unread
        else Reading(OfValue(Value(ps[0], fn)), inside[3..], ps[1..])
      else
        var q := ReadQuery(inside, ps);
        if q.Unread? || !At(q.rest, ')') then Unread
        else Reading(OfQuery(q.value.(fn := fn)), q.rest[1..], q.params)
  }

  function ReadWhere(s: string, ps: seq<Param>): (r: Reading<Where>)
    ensures r.Reading? ==> |r.rest| <= |s|
    decreases |s|, 1
  {
    var left := ReadOperand(s, ps);
    if left.Unread? then Unread
    else
      match ReadOperator(left.rest)
      case None => Unread
      case Some((operator, behind)) =>
        if operator == IsNull || operator == IsNotNull then
          Reading(Where(left.value, operator, NOTHING), behind, left.params)
        else if !At(behind, ' ') then Unread
        else
          var right := ReadOperand(behind[1..], left.params);
          if right.Unread? then Unread
          else Reading(Where(left.value, operator, right.value), right.rest, right.params)
  }

  /** One or more conditions. */
  function ReadWheres(s: string, ps: seq<Param>): (r: Reading<seq<Where>>)
    ensures r.Reading? ==> |r.rest| <= |s|
    decreases |s|, 2
  {
    var first := ReadWhere(s, ps);
    if first.Unread? then Unread
    else if Keyword(first.rest) != "AND" then Reading([first.value], first.rest, first.params)
    else
      var behind := AfterKeyword(first.rest);
      if !At(behind, ' ') then Unread
      else
        var others := ReadWheres(behind[1..], first.params);
        if others.Unread? then Unread
        else Reading([first.value] + others.value, others.rest, others.params)
  }

  /** A clause of conditions, none if another clause follows. */
  function ReadClause(keyword: string, s: string, ps: seq<Param>): (r: Reading<seq<Where>>)
    ensures r.Reading? ==> |r.rest| <= |s|
    decreases |s|, 3
  {
    if keyword == "" || Keyword(s) != keyword then Reading([], s, ps)
    else if !At(AfterKeyword(s), ' ') then Unread
    else ReadWheres(AfterKeyword(s)[1..], ps)
  }

  function ReadJoinType(s: string): (r: Option<(JoinType, string)>)
    ensures r.Some? ==> |r.value.1| < |s|
  {
    var k := Keyword(s);
    if k == "" then None
    else
      var rest := AfterKeyword(s);
      if k == "FULL" then
        if Keyword(rest) != "OUTER" then None
        else
          var behind := AfterKeyword(rest);
          if Keyword(behind) == "JOIN" then Some((Outer, AfterKeyword(behind))) else None
      else if Keyword(rest) != "JOIN" then None
      else
        var behind := AfterKeyword(rest);
        if k == "INNER" then Some((Inner, behind))
        else if k == "CROSS" then Some((Cross, behind))
        else if k == "LEFT" then Some((Left, behind))
        else if k == "RIGHT" then Some((Right, behind))
        else None
  }

  /** Joins, as many as follow. */
  function ReadJoins(s: string, ps: seq<Param>): (r: Reading<seq<JoinTree>>)
    ensures r.Reading? ==> |r.rest| <= |s|
    decreases |s|, 4
  {
    match ReadJoinType(s)
    case None => Reading([], s, ps)
    case Some((joinType, behind)) =>
      if !At(behind, ' ') then Unread
      else
        match ReadTable(behind[1..])
        case None => Unread
        case Some((table, afterTable)) =>
          var where := ReadClause("ON", afterTable, ps);
          if where.Unread? then Unread
          else
            var others := ReadJoins(where.rest, where.params);
            if others.Unread? then Unread
            else Reading([JoinTree(joinType, table, where.value)] + others.value, others.rest, others.params)
  }

  /** Two keywords and the space behind them. */
  function AfterBy(keyword: string, s: string): (r: Option<string>)
    ensures r.Some? ==> |r.value| < |s|
  {
    if keyword == "" || Keyword(s) != keyword || Keyword(AfterKeyword(s)) != "BY"
       || !At(AfterKeyword(AfterKeyword(s)), ' ')
    then None
    else Some(AfterKeyword(AfterKeyword(s))[1..])
  }

  function ReadGroup(s: string): (r: Option<(seq<Field>, string)>)
    ensures r.Some? ==> |r.value.1| <= |s|
  {
    match AfterBy("GROUP", s)
    case None => Some(([], s))
    case Some(behind) => ReadFields(behind)
  }

  function ReadOrder(s: string): (r: Option<(seq<(Field, Order)>, string)>)
    ensures r.Some? ==> |r.value.1| <= |s|
  {
    match AfterBy("ORDER", s)
    case None => Some(([], s))
    case Some(behind) => ReadOrders(behind)
  }

  /** A count behind its keyword. */
  function ReadCount(keyword: string, s: string, ps: seq<Param>): (r: Reading<Option<int>>)
    ensures r.Reading? ==> |r.rest| <= |s|
  {
    if keyword == "" || Keyword(s) != keyword then Reading(None, s, ps)
    else
      var behind := AfterKeyword(s);
      if !At(behind, ' ') || !AtHole(behind[1..]) || ps == [] || !ps[0].Number? then Unread
      else Reading(Some(ps[0].n), behind[3..], ps[1..])
  }

  /** What follows the table. */
  function ReadTail(q: QueryTree, s: string, ps: seq<Param>): (r: Reading<QueryTree>)
    ensures r.Reading? ==> |r.rest| <= |s|
    decreases |s|, 5
  {
    var joins := ReadJoins(s, ps);
    if joins.Unread? then Unread
    else
      var where := ReadClause("WHERE", joins.rest, joins.params);
      if where.Unread? then Unread
      else
        match ReadGroup(where.rest)
        case None => Unread
        case Some((group, afterGroup)) =>
          var having := ReadClause("HAVING", afterGroup, where.params);
          if having.Unread? then Unread
          else ReadEnd(q.(joins := joins.value, where := where.value, group := group, having := having.value),
                       having.rest, having.params)
  }

  function ReadEnd(q: QueryTree, s: string, ps: seq<Param>): (r: Reading<QueryTree>)
    ensures r.Reading? ==> |r.rest| <= |s|
  {
    match ReadOrder(s)
    case None => Unread
    case Some((order, afterOrder)) =>
      var limit := ReadCount("LIMIT", afterOrder, ps);
      if limit.Unread? then Unread
      else
        var offset := ReadCount("OFFSET", limit.rest, limit.params);
        if offset.Unread? then Unread
        else Reading(q.(order := order, limit := limit.value, offset := offset.value), offset.rest, offset.params)
  }

  function ReadQuery(s: string, ps: seq<Param>): (r: Reading<QueryTree>)
    ensures r.Reading? ==> |r.rest| <= |s|
    decreases |s|, 6
  {
    if Word(s) != "SELECT" || !At(AfterWord(s), ' ') then Unread
    else
      match ReadFields(AfterWord(s)[1..])
      case None => Unread
      case Some((select, afterFields)) =>
        if Keyword(afterFields) != "FROM" || !At(AfterKeyword(afterFields), ' ') then Unread
        else
          match ReadTable(AfterKeyword(afterFields)[1..])
          case None => Unread
          case Some((table, behind)) =>
            ReadTail(QueryTree(table, [], select, [], [], [], [], None, None, None), behind, ps)
  }

  /** A whole text: a query and a semicolon, with no parameter left over. */
  function Read(s: string, ps: seq<Param>): Option<QueryTree> {
    var q := ReadQuery(s, ps);
    if q.Reading? && q.rest == ";" && q.params == [] then Some(q.value) else None
  }
}

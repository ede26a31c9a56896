/** Reading undoes rendering: what is built from a query tree is read back as that tree. */
module SqlReadBack {
  import opened Prelude
  import opened SqlTree
  import opened SqlTheorems
  import opened SqlReader
  import opened SqlDriver

  /** Every value shown as its placeholder. */
  const PLACE: Show := (p: Param) => "%s"

  // Names that can be told from the text around them.

  predicate PlainField(f: Field) {
    IsWord(f.table) && IsWord(f.column) && '.' !in f.column && (f.fn.Some? ==> IsWord(f.fn.value))
  }

  /** A word, perhaps with an alias. */
  ghost predicate PlainTable(t: string) {
    IsWord(t) || exists a, b :: Aliased(t, a, b)
  }

  predicate Aliased(t: string, a: string, b: string) {
    IsWord(a) && IsWord(b) && b != "" && t == a + " AS " + b
  }

  ghost predicate PlainOperand(o: Operand)
    decreases o
  {
    match o
    case OfField(f) => PlainField(f)
    case OfValue(v) => v.fn.Some? ==> IsWord(v.fn.value)
    case OfQuery(q) => (q.fn.Some? ==> IsWord(q.fn.value)) && PlainQuery(q)
  }

  /** The second operand of a null test is not rendered. */
  ghost predicate PlainWhere(w: Where)
    decreases w
  {
    PlainOperand(w.field) && (w.operator == IsNull || w.operator == IsNotNull || PlainOperand(w.value))
  }

  ghost predicate PlainJoin(j: JoinTree)
    decreases j
  {
    PlainTable(j.table) && forall w :: w in j.where ==> PlainWhere(w)
  }

  /** All names that are rendered are words, columns without dots. */
  ghost predicate PlainQuery(q: QueryTree)
    decreases q
  {
    && PlainTable(q.table)
    && (forall j :: j in q.joins ==> PlainJoin(j))
    && (forall f :: f in q.select ==> PlainField(f))
    && (forall w :: w in q.where ==> PlainWhere(w))
    && (forall f :: f in q.group ==> PlainField(f))
    && (forall w :: w in q.having ==> PlainWhere(w))
    && (forall o :: o in q.order ==> PlainField(o.0))
  }

  // What of a tree is rendered.

  function SeenFn(fn: Option<string>): Option<string> {
    if fn == Some("") then None else fn
  }

  function SeenCount(n: Option<int>): Option<int> {
    if n == Some(0) then None else n
  }

  function SeenField(f: Field): Field {
    f.(fn := SeenFn(f.fn))
  }

  function SeenFields(fs: seq<Field>): seq<Field> {
    if fs == [] then [] else [SeenField(fs[0])] + SeenFields(fs[1..])
  }

  function SeenOrders(os: seq<(Field, Order)>): seq<(Field, Order)> {
    if os == [] then [] else [(SeenField(os[0].0), os[0].1)] + SeenOrders(os[1..])
  }

  function SeenOperand(o: Operand): Operand
    decreases o
  {
    match o
    case OfField(f) => OfField(SeenField(f))
    case OfValue(v) => OfValue(v.(fn := SeenFn(v.fn)))
    case OfQuery(q) => OfQuery(Seen(q).(fn := SeenFn(q.fn)))
  }

  function SeenWhere(w: Where): Where
    decreases w
  {
    Where(SeenOperand(w.field), w.operator,
          if w.operator == IsNull || w.operator == IsNotNull then NOTHING else SeenOperand(w.value))
  }

  function SeenWheres(ws: seq<Where>): seq<Where>
    decreases ws
  {
    if ws == [] then [] else [SeenWhere(ws[0])] + SeenWheres(ws[1..])
  }

  function SeenJoins(js: seq<JoinTree>): seq<JoinTree>
    decreases js
  {
    if js == [] then [] else [js[0].(where := SeenWheres(js[0].where))] + SeenJoins(js[1..])
  }

  /**
   The tree without what no query shows: empty function names, counts of zero, the second
   operand of a null test, and the function around the query itself.
   */
  function Seen(q: QueryTree): QueryTree
    decreases q
  {
    QueryTree(q.table, SeenJoins(q.joins), SeenFields(q.select), SeenWheres(q.where), SeenWheres(q.having),
              SeenFields(q.group), SeenOrders(q.order), SeenCount(q.limit), SeenCount(q.offset), None)
  }

  // Words and keywords.

  /** No word goes on here. */
  predicate Stops(rest: string) {
    rest == "" || !WordChar(rest[0])
  }

  lemma {:induction false} WordOf(w: string, rest: string)
    requires IsWord(w) && Stops(rest)
    ensures Word(w + rest) == w && AfterWord(w + rest) == rest
    decreases |w|
  {
    if w == "" {
      assert w + rest == rest;
    } else {
      assert (w + rest)[1..] == w[1..] + rest && (w + rest)[..1] == w[..1];
      WordOf(w[1..], rest);
      assert w[..1] + w[1..] == w;
    }
  }

  lemma KeywordOf(k: string, rest: string, s: string)
    requires IsWord(k) && Stops(rest) && s == " " + k + rest
    ensures At(s, ' ') && Keyword(s) == k && (k != "" ==> AfterKeyword(s) == rest)
  {
    assert s[1..] == k + rest;
    WordOf(k, rest);
  }

  lemma TwoKeywords(k: string, l: string, rest: string, s: string)
    requires IsWord(k) && IsWord(l) && k != "" && l != "" && Stops(rest) && s == " " + k + " " + l + rest
    ensures Keyword(s) == k && Keyword(AfterKeyword(s)) == l && AfterKeyword(AfterKeyword(s)) == rest
  {
    var behind := " " + l + rest;
    assert s == " " + k + behind;
    KeywordOf(k, behind, s);
    KeywordOf(l, rest, behind);
  }

  lemma ThreeKeywords(k: string, l: string, m: string, rest: string, s: string)
    requires IsWord(k) && IsWord(l) && IsWord(m) && k != "" && l != "" && m != ""
    requires Stops(rest) && s == " " + k + " " + l + " " + m + rest
    ensures Keyword(s) == k && Keyword(AfterKeyword(s)) == l && Keyword(AfterKeyword(AfterKeyword(s))) == m
    ensures AfterKeyword(AfterKeyword(AfterKeyword(s))) == rest
  {
    var behind := " " + m + rest;
    assert s == " " + k + " " + l + behind;
    TwoKeywords(k, l, behind, s);
    KeywordOf(m, rest, behind);
  }

  lemma {:induction false} QualifiedOf(t: string, c: string)
    requires '.' !in c
    ensures Qualified(t + "." + c) == Some((t, c))
    decreases |c|
  {
    var w := t + "." + c;
    if c == "" {
      assert w[..|w| - 1] == t;
    } else {
      var last := |c| - 1;
      assert w[..|w| - 1] == t + "." + c[..last] && w[|w| - 1] == c[last];
      assert c[last] in c && '.' !in c[..last];
      QualifiedOf(t, c[..last]);
      assert c == c[..last] + [c[last]];
    }
  }

  // Fields.

  lemma NameReads(f: Field, fn: Option<string>)
    requires PlainField(f)
    ensures IsWord(f.table + "." + f.column) && f.table + "." + f.column != ""
    ensures NamedField(f.table + "." + f.column, fn) == Some(f.(fn := fn))
  {
    QualifiedOf(f.table, f.column);
  }

  lemma CallText(fn: string, inner: string, rest: string, s: string)
    requires IsWord(fn) && s == fn + "(" + inner + ")" + rest
    ensures Word(s) == fn && At(AfterWord(s), '(') && AfterWord(s)[1..] == inner + (")" + rest)
    ensures fn != "" ==> s[0] == fn[0]
  {
    var behind := "(" + (inner + (")" + rest));
    assert s == fn + behind && behind[1..] == inner + (")" + rest);
    WordOf(fn, behind);
  }

  lemma FieldReads(f: Field, rest: string)
    requires PlainField(f) && Stops(rest) && !At(rest, '(')
    ensures ReadField(FieldText(f) + rest) == Some((SeenField(f), rest))
  {
    var name := f.table + "." + f.column;
    if Given(f.fn) {
      NameReads(f, f.fn);
      CallText(f.fn.value, name, rest, FieldText(f) + rest);
      WordOf(name, ")" + rest);
      assert (")" + rest)[1..] == rest;
    } else {
      NameReads(f, None);
      WordOf(name, rest);
    }
  }

  /** Names one after the other, with commas between them. */
  lemma JoinedNext(names: seq<string>, sep: string, rest: string)
    requires |names| > 1
    ensures Joined(names, sep) + rest == names[0] + (sep + (Joined(names[1..], sep) + rest))
  {
    var others := Joined(names[1..], sep);
    assert names[0] + sep + others + rest == names[0] + (sep + (others + rest));
  }

  lemma CommaFollows(rest: string)
    ensures var s := "," + rest; At(s, ',') && s[1..] == rest && Stops(s) && !At(s, '(')
  {
  }

  lemma {:induction false} FieldsRead(fs: seq<Field>, rest: string)
    requires fs != [] && (forall f :: f in fs ==> PlainField(f))
    requires Stops(rest) && !At(rest, '(') && !At(rest, ',')
    ensures ReadFields(Joined(FieldNames(fs), ",") + rest) == Some((SeenFields(fs), rest))
    decreases |fs|
  {
    var names := FieldNames(fs);
    assert fs[0] in fs;
    if |fs| == 1 {
      FieldReads(fs[0], rest);
      assert names[0] == FieldText(fs[0]) && SeenFields(fs) == [SeenField(fs[0])];
    } else {
      assert names[1..] == FieldNames(fs[1..]);
      JoinedNext(names, ",", rest);
      var more := Joined(names[1..], ",") + rest;
      CommaFollows(more);
      FieldReads(fs[0], "," + more);
      FieldsRead(fs[1..], rest);
    }
  }

  // Orderings.

  lemma BareDirectionReads(d: Order, rest: string, s: string)
    requires d == Ascending || d == Descending
    requires Stops(rest) && Keyword(rest) != "NULLS" && s == " " + OrderText(d) + rest
    ensures ReadDirection(s) == Some((d, rest))
  {
    KeywordOf(OrderText(d), rest, s);
  }

  lemma NullsDirectionReads(up: bool, first: bool, text: string, rest: string, s: string)
    requires Stops(rest) && s == " " + text + rest
    requires text == (if up then "ASC" else "DESC") + " " + "NULLS" + " " + if first then "FIRST" else "LAST"
    ensures ReadDirection(s) == Some((
      if up then if first then AscendingNullsFirst else AscendingNullsLast
      else if first then DescendingNullsFirst else DescendingNullsLast, rest))
  {
    var word, place := if up then "ASC" else "DESC", if first then "FIRST" else "LAST";
    assert s == " " + word + " " + "NULLS" + " " + place + rest;
    NullsKeywords(word, place, rest, s);
  }

  lemma NullsKeywords(word: string, place: string, rest: string, s: string)
    requires (word == "ASC" || word == "DESC") && (place == "FIRST" || place == "LAST") && Stops(rest)
    requires s == " " + word + " " + "NULLS" + " " + place + rest
    ensures Keyword(s) == word && Keyword(AfterKeyword(s)) == "NULLS"
    ensures Keyword(AfterKeyword(AfterKeyword(s))) == place
    ensures AfterKeyword(AfterKeyword(AfterKeyword(s))) == rest
  {
    ThreeKeywords(word, "NULLS", place, rest, s);
  }

  lemma NullsTexts()
    ensures OrderText(AscendingNullsFirst) == "ASC" + " " + "NULLS" + " " + "FIRST"
    ensures OrderText(AscendingNullsLast) == "ASC" + " " + "NULLS" + " " + "LAST"
    ensures OrderText(DescendingNullsFirst) == "DESC" + " " + "NULLS" + " " + "FIRST"
    ensures OrderText(DescendingNullsLast) == "DESC" + " " + "NULLS" + " " + "LAST"
  {
  }

  lemma DirectionReads(d: Order, text: string, rest: string, s: string)
    requires Stops(rest) && Keyword(rest) != "NULLS" && text == OrderText(d) && s == " " + text + rest
    ensures ReadDirection(s) == Some((d, rest))
  {
    NullsTexts();
    match d
    case Ascending => BareDirectionReads(d, rest, s);
    case Descending => BareDirectionReads(d, rest, s);
    case AscendingNullsFirst => NullsDirectionReads(true, true, text, rest, s);
    case AscendingNullsLast => NullsDirectionReads(true, false, text, rest, s);
    case DescendingNullsFirst => NullsDirectionReads(false, true, text, rest, s);
    case DescendingNullsLast => NullsDirectionReads(false, false, text, rest, s);
  }

  lemma OrderReads(f: Field, direction: string, rest: string, name: string)
    requires PlainField(f) && name == FieldText(f) + " " + direction
    ensures ReadField(name + rest) == Some((SeenField(f), " " + direction + rest))
  {
    var behind := " " + direction + rest;
    assert name + rest == FieldText(f) + behind;
    FieldReads(f, behind);
  }

  /** One ordering and what it leaves to be read. */
  lemma OneOrderReads(o: (Field, Order), rest: string, name: string)
    requires PlainField(o.0) && Stops(rest) && Keyword(rest) != "NULLS" && name == OrderNames([o])[0]
    ensures ReadOrders(name + rest) ==
      if !At(rest, ',') then Some(([(SeenField(o.0), o.1)], rest))
      else if ReadOrders(rest[1..]).None? then None
      else Some(([(SeenField(o.0), o.1)] + ReadOrders(rest[1..]).value.0, ReadOrders(rest[1..]).value.1))
  {
    var text := OrderText(o.1);
    OrderReads(o.0, text, rest, name);
    DirectionReads(o.1, text, rest, " " + text + rest);
  }

  /** The names of a list of orderings, one by one. */
  ghost predicate Named(names: seq<string>, os: seq<(Field, Order)>) {
    |names| == |os| && forall i :: 0 <= i < |os| ==> names[i] == OrderNames([os[i]])[0]
  }

  lemma NamesAreNamed(os: seq<(Field, Order)>)
    ensures Named(OrderNames(os), os)
  {
  }

  lemma {:induction false} OrdersRead(os: seq<(Field, Order)>, rest: string, names: seq<string>)
    requires os != [] && (forall o :: o in os ==> PlainField(o.0)) && Named(names, os)
    requires Stops(rest) && Keyword(rest) != "NULLS" && !At(rest, ',')
    ensures ReadOrders(Joined(names, ",") + rest) == Some((SeenOrders(os), rest))
    decreases |os|
  {
    assert os[0] in os;
    if |os| == 1 {
      OneOrderReads(os[0], rest, names[0]);
      assert SeenOrders(os) == [(SeenField(os[0].0), os[0].1)];
    } else {
      JoinedNext(names, ",", rest);
      var more := Joined(names[1..], ",") + rest;
      CommaFollows(more);
      OneOrderReads(os[0], "," + more, names[0]);
      OrdersRead(os[1..], rest, names[1..]);
    }
  }

  // Tables, operators, joins.

  lemma AliasReads(a: string, b: string, rest: string, s: string)
    requires IsWord(a) && IsWord(b) && b != "" && Stops(rest) && s == a + " AS " + b + rest
    ensures ReadTable(s) == Some((a + " AS " + b, rest))
  {
    var alias := " " + b + rest;
    var behind := " " + "AS" + alias;
    assert s == a + behind;
    WordOf(a, behind);
    KeywordOf("AS", alias, behind);
    KeywordOf(b, rest, alias);
  }

  lemma TableReads(t: string, rest: string)
    requires PlainTable(t) && Stops(rest) && Keyword(rest) != "AS"
    ensures ReadTable(t + rest) == Some((t, rest))
  {
    if IsWord(t) {
      WordOf(t, rest);
    } else {
      var a, b :| Aliased(t, a, b);
      AliasReads(a, b, rest, t + rest);
    }
  }

  lemma SignReads(o: Operator, k: string, rest: string, s: string)
    requires (o == Equal && k == "=") || (o == NotEqual && k == "!=") || (o == GreaterThan && k == ">")
          || (o == GreaterThanEqualTo && k == ">=") || (o == LessThan && k == "<") || (o == LessThanEqualTo && k == "<=")
          || (o == Like && k == "LIKE") || (o == Within && k == "IN")
    requires Stops(rest) && s == " " + k + rest
    ensures ReadOperator(s) == Some((o, rest))
  {
    KeywordOf(k, rest, s);
  }

  lemma NotReads(o: Operator, k: string, rest: string, s: string)
    requires (o == NotLike && k == "LIKE") || (o == NotIn && k == "IN")
    requires Stops(rest) && s == " " + "NOT" + " " + k + rest
    ensures ReadOperator(s) == Some((o, rest))
  {
    TwoKeywords("NOT", k, rest, s);
  }

  lemma SpaceBehind(a: string, b: string, rest: string)
    requires a == b + " "
    ensures a + rest == b + (" " + rest)
  {
  }

  /** Operators between two operands stand between spaces. */
  lemma OperatorReads(o: Operator, rest: string)
    requires o != IsNull && o != IsNotNull
    ensures ReadOperator(OperatorText(o) + rest) == Some((o, " " + rest))
  {
    var s, behind := OperatorText(o) + rest, " " + rest;
    match o
    case NotLike =>
      SpaceBehind(OperatorText(o), " " + "NOT" + " " + "LIKE", rest);
      NotReads(o, "LIKE", behind, s);
    case NotIn =>
      SpaceBehind(OperatorText(o), " " + "NOT" + " " + "IN", rest);
      NotReads(o, "IN", behind, s);
    case Equal => SignReads(o, "=", behind, s);
    case NotEqual => SignReads(o, "!=", behind, s);
    case GreaterThan => SignReads(o, ">", behind, s);
    case GreaterThanEqualTo => SignReads(o, ">=", behind, s);
    case LessThan => SignReads(o, "<", behind, s);
    case LessThanEqualTo => SignReads(o, "<=", behind, s);
    case Like => SignReads(o, "LIKE", behind, s);
    case Within => SignReads(o, "IN", behind, s);
  }

  lemma NotNullReads(rest: string, s: string)
    requires Stops(rest) && s == " " + "IS" + " " + "NOT" + " " + "NULL" + rest
    ensures ReadOperator(s) == Some((IsNotNull, rest))
  {
    assert IsWord("IS") && IsWord("NOT") && IsWord("NULL");
    ThreeKeywords("IS", "NOT", "NULL", rest, s);
    NotNullFrom(rest, s);
  }

  lemma NotNullFrom(rest: string, s: string)
    requires Keyword(s) == "IS" && Keyword(AfterKeyword(s)) == "NOT"
    requires Keyword(AfterKeyword(AfterKeyword(s))) == "NULL" && AfterKeyword(AfterKeyword(AfterKeyword(s))) == rest
    ensures ReadOperator(s) == Some((IsNotNull, rest))
  {
  }

  lemma NullReads(rest: string, s: string)
    requires Stops(rest) && s == " " + "IS" + " " + "NULL" + rest
    ensures ReadOperator(s) == Some((IsNull, rest))
  {
    TwoKeywords("IS", "NULL", rest, s);
  }

  /** Null tests end what they test. */
  lemma NullTestReads(o: Operator, rest: string)
    requires (o == IsNull || o == IsNotNull) && Stops(rest)
    ensures ReadOperator(OperatorText(o) + rest) == Some((o, rest))
  {
    if o == IsNull {
      assert OperatorText(o) == " " + "IS" + " " + "NULL";
      NullReads(rest, OperatorText(o) + rest);
    } else {
      assert OperatorText(o) == " " + "IS" + " " + "NOT" + " " + "NULL";
      NotNullReads(rest, OperatorText(o) + rest);
    }
  }

  lemma OuterReads(rest: string, s: string)
    requires Stops(rest) && s == " " + "FULL" + " " + "OUTER" + " " + "JOIN" + rest
    ensures ReadJoinType(s) == Some((Outer, rest))
  {
    ThreeKeywords("FULL", "OUTER", "JOIN", rest, s);
  }

  lemma OtherJoinReads(t: JoinType, k: string, rest: string, s: string)
    requires (t == Inner && k == "INNER") || (t == Cross && k == "CROSS") || (t == Left && k == "LEFT")
          || (t == Right && k == "RIGHT")
    requires Stops(rest) && s == " " + k + " " + "JOIN" + rest
    ensures ReadJoinType(s) == Some((t, rest))
  {
    TwoKeywords(k, "JOIN", rest, s);
  }

  lemma JoinTexts()
    ensures JoinTypeText(Outer) == "FULL" + " " + "OUTER" + " " + "JOIN"
    ensures JoinTypeText(Inner) == "INNER" + " " + "JOIN" && JoinTypeText(Cross) == "CROSS" + " " + "JOIN"
    ensures JoinTypeText(Left) == "LEFT" + " " + "JOIN" && JoinTypeText(Right) == "RIGHT" + " " + "JOIN"
  {
  }

  lemma JoinTypeReads(t: JoinType, text: string, rest: string, s: string)
    requires Stops(rest) && text == JoinTypeText(t) && s == " " + text + rest
    ensures ReadJoinType(s) == Some((t, rest))
  {
    JoinTexts();
    match t
    case Outer => OuterReads(rest, s);
    case Inner => OtherJoinReads(t, "INNER", rest, s);
    case Cross => OtherJoinReads(t, "CROSS", rest, s);
    case Left => OtherJoinReads(t, "LEFT", rest, s);
    case Right => OtherJoinReads(t, "RIGHT", rest, s);
  }

  // What stands behind a clause.

  /** The place of a clause among those behind the table and its joins, zero for other words. */
  function Stage(k: string): nat {
    if k == "WHERE" then 1 else if k == "GROUP" then 2 else if k == "HAVING" then 3
    else if k == "ORDER" then 4 else if k == "LIMIT" then 5 else if k == "OFFSET" then 6 else 0
  }

  /** The text ends here, or goes on with a clause of a later stage. */
  predicate Follows(rest: string, n: nat) {
    rest == "" || At(rest, ')') || At(rest, ';') || (At(rest, ' ') && Stage(Keyword(rest)) > n)
  }

  /** Nothing goes on that could be taken for more of a list or an operand. */
  predicate Ends(rest: string) {
    && Stops(rest) && !At(rest, '(') && !At(rest, ',')
    && Keyword(rest) != "AND" && Keyword(rest) != "AS" && Keyword(rest) != "NULLS"
  }

  lemma FollowsEnds(rest: string, n: nat)
    requires Follows(rest, n)
    ensures Ends(rest) && ReadJoinType(rest).None?
  {
  }

  // Conditions.

  lemma Grouped<T>(a: seq<T>, b: seq<T>, c: seq<T>)
    ensures a + b + c == a + (b + c)
  {
  }

  lemma FourParts(a: string, b: string, c: string, d: string)
    ensures a + b + c + d == a + (b + (c + d))
  {
  }

  lemma {:induction false} OperandReads(o: Operand, rest: string, ps: seq<Param>)
    requires PlainOperand(o) && (o.OfQuery? ==> WellFormed(o.q)) && OperandParams(o).Some?
    requires Stops(rest) && !At(rest, '(')
    ensures ReadOperand(ShowOperand(o, PLACE) + rest, OperandParams(o).value + ps) == Reading(SeenOperand(o), rest, ps)
    decreases o
  {
    match o
    case OfField(f) =>
      FieldOperandReads(f, rest, ps);
      assert [] + ps == ps;
    case OfValue(v) => ValueReads(v, rest, ps);
    case OfQuery(q) =>
      QueryReads(q, ")" + rest, ps);
      WrappedReads(q.fn, ShowQuery(q, PLACE), Seen(q), rest, QueryParams(q).value + ps, ps);
  }

  lemma FieldOperandReads(f: Field, rest: string, ps: seq<Param>)
    requires PlainField(f) && Stops(rest) && !At(rest, '(')
    ensures ReadOperand(FieldText(f) + rest, ps) == Reading(OfField(SeenField(f)), rest, ps)
  {
    var name := f.table + "." + f.column;
    FieldReads(f, rest);
    NameReads(f, None);
    if Given(f.fn) {
      CallText(f.fn.value, name, rest, FieldText(f) + rest);
      WordOf(name, ")" + rest);
    } else {
      WordOf(name, rest);
    }
  }

  lemma CalledValueReads(fn: string, p: Param, rest: string, ps: seq<Param>, s: string)
    requires IsWord(fn) && fn != "" && s == fn + "(" + "%s" + ")" + rest
    ensures ReadOperand(s, [p] + ps) == Reading(OfValue(Value(p, Some(fn))), rest, ps)
  {
    CallText(fn, "%s", rest, s);
    var inside := "%s" + (")" + rest);
    assert inside[2..] == ")" + rest && inside[3..] == rest && Word(inside) == "";
    assert ([p] + ps)[1..] == ps && !AtHole(s);
  }

  lemma PlaceReads(p: Param, rest: string, ps: seq<Param>)
    ensures ReadOperand("%s" + rest, [p] + ps) == Reading(OfValue(Value(p, None)), rest, ps)
  {
    assert ("%s" + rest)[2..] == rest && ([p] + ps)[1..] == ps;
  }

  lemma ValueReads(v: Value, rest: string, ps: seq<Param>)
    requires v.fn.Some? ==> IsWord(v.fn.value)
    ensures ReadOperand(ShowOperand(OfValue(v), PLACE) + rest, [v.value] + ps)
         == Reading(OfValue(v.(fn := SeenFn(v.fn))), rest, ps)
  {
    if Given(v.fn) {
      CalledValueReads(v.fn.value, v.value, rest, ps, ShowOperand(OfValue(v), PLACE) + rest);
    } else {
      PlaceReads(v.value, rest, ps);
    }
  }

  function Wrapped(fn: Option<string>, shown: string): string {
    (if fn.Some? then fn.value else "") + "(" + shown + ")"
  }

  lemma WrappedReads(fn: Option<string>, shown: string, seen: QueryTree, rest: string, qs: seq<Param>, ps: seq<Param>)
    requires fn.Some? ==> IsWord(fn.value)
    requires ReadQuery(shown + (")" + rest), qs) == Reading(seen, ")" + rest, ps)
    ensures ReadOperand(Wrapped(fn, shown) + rest, qs) == Reading(OfQuery(seen.(fn := SeenFn(fn))), rest, ps)
  {
    SubqueryReads(if fn.Some? then fn.value else "", shown, rest, qs, Reading(seen, ")" + rest, ps),
                  Wrapped(fn, shown) + rest);
  }

  lemma SubqueryReads(fn: string, shown: string, rest: string, ps: seq<Param>, q: Reading<QueryTree>, s: string)
    requires IsWord(fn) && s == fn + "(" + shown + ")" + rest
    requires ReadQuery(shown + (")" + rest), ps) == q && q.Reading? && q.rest == ")" + rest
    ensures ReadOperand(s, ps) == Reading(OfQuery(q.value.(fn := if fn == "" then None else Some(fn))), rest, q.params)
  {
    CallText(fn, shown, rest, s);
    assert (")" + rest)[1..] == rest;
    QueryStarts(shown + (")" + rest), ps);
    EnclosedReads(s, fn, shown + (")" + rest), ps, q);
  }

  lemma EnclosedReads(s: string, fn: string, inside: string, ps: seq<Param>, q: Reading<QueryTree>)
    requires Word(s) == fn && At(AfterWord(s), '(') && AfterWord(s)[1..] == inside && (fn != "" ==> s[0] == fn[0])
    requires IsWord(fn) && !AtHole(inside) && !At(AfterWord(inside), ')')
    requires ReadQuery(inside, ps) == q && q.Reading? && At(q.rest, ')')
    ensures ReadOperand(s, ps)
         == Reading(OfQuery(q.value.(fn := if fn == "" then None else Some(fn))), q.rest[1..], q.params)
  {
    assert !AtHole(s);
  }

  lemma QueryStarts(s: string, ps: seq<Param>)
    requires ReadQuery(s, ps).Reading?
    ensures !AtHole(s) && !At(AfterWord(s), ')')
  {
  }

  lemma OperatorStarts(o: Operator, rest: string)
    ensures var s := OperatorText(o) + rest; Stops(s) && !At(s, '(')
  {
  }

  lemma {:induction false} WhereReads(w: Where, rest: string, ps: seq<Param>)
    requires PlainWhere(w) && WellFormedWhere(w) && WhereParams(w).Some?
    requires Stops(rest) && !At(rest, '(')
    ensures ReadWhere(ShowWhere(w, PLACE) + rest, WhereParams(w).value + ps) == Reading(SeenWhere(w), rest, ps)
    decreases w
  {
    var left, operator := ShowOperand(w.field, PLACE), OperatorText(w.operator);
    var qs := OperandParams(w.field).value;
    if w.operator == IsNull || w.operator == IsNotNull {
      OperatorStarts(w.operator, rest);
      OperandReads(w.field, operator + rest, ps);
      TestReads(left, w.operator, rest, qs + ps, ps, SeenOperand(w.field));
      assert ShowWhere(w, PLACE) == left + operator && WhereParams(w).value == qs;
    } else {
      var right, rs := ShowOperand(w.value, PLACE), OperandParams(w.value).value;
      OperatorStarts(w.operator, right + rest);
      OperandReads(w.field, operator + (right + rest), rs + ps);
      OperandReads(w.value, rest, ps);
      Grouped(qs, rs, ps);
      ComparisonReads(left, w.operator, right, rest, qs + (rs + ps), rs + ps, ps,
                      SeenOperand(w.field), SeenOperand(w.value));
    }
  }

  lemma TestReads(left: string, o: Operator, rest: string, ps: seq<Param>, behind: seq<Param>, l: Operand)
    requires (o == IsNull || o == IsNotNull) && Stops(rest)
    requires ReadOperand(left + (OperatorText(o) + rest), ps) == Reading(l, OperatorText(o) + rest, behind)
    ensures ReadWhere(left + OperatorText(o) + rest, ps) == Reading(Where(l, o, NOTHING), rest, behind)
  {
    NullTestReads(o, rest);
    Grouped(left, OperatorText(o), rest);
  }

  lemma ComparisonReads(left: string, o: Operator, right: string, rest: string,
                        ps: seq<Param>, qs: seq<Param>, behind: seq<Param>, l: Operand, r: Operand)
    requires o != IsNull && o != IsNotNull
    requires ReadOperand(left + (OperatorText(o) + (right + rest)), ps) == Reading(l, OperatorText(o) + (right + rest), qs)
    requires ReadOperand(right + rest, qs) == Reading(r, rest, behind)
    ensures ReadWhere(left + OperatorText(o) + right + rest, ps) == Reading(Where(l, o, r), rest, behind)
  {
    OperatorReads(o, right + rest);
    FourParts(left, OperatorText(o), right, rest);
    assert (" " + (right + rest))[1..] == right + rest;
    WhereFrom(left + (OperatorText(o) + (right + rest)), ps, OperatorText(o) + (right + rest), qs,
              " " + (right + rest), l, o, ReadOperand(right + rest, qs));
  }

  lemma WhereFrom(s: string, ps: seq<Param>, t: string, qs: seq<Param>, u: string,
                  l: Operand, o: Operator, r: Reading<Operand>)
    requires ReadOperand(s, ps) == Reading(l, t, qs) && ReadOperator(t) == Some((o, u))
    requires o != IsNull && o != IsNotNull && At(u, ' ') && ReadOperand(u[1..], qs) == r && r.Reading?
    ensures ReadWhere(s, ps) == Reading(Where(l, o, r.value), r.rest, r.params)
  {
  }

  lemma AndFollows(more: string)
    ensures var s := " AND " + more; Keyword(s) == "AND" && AfterKeyword(s) == " " + more && Stops(s) && !At(s, '(')
  {
    KeywordOf("AND", " " + more, " AND " + more);
  }

  lemma {:induction false} ShowWheresLength(ws: seq<Where>)
    ensures |ShowWheres(ws, PLACE)| == |ws|
  {
    if ws == [] {
    } else {
      ShowWheresLength(ws[1..]);
    }
  }

  lemma {:induction false} WheresRead(ws: seq<Where>, rest: string, ps: seq<Param>)
    requires ws != [] && (forall w :: w in ws ==> PlainWhere(w) && WellFormedWhere(w)) && WheresParams(ws).Some?
    requires Ends(rest)
    ensures ReadWheres(Joined(ShowWheres(ws, PLACE), " AND ") + rest, WheresParams(ws).value + ps)
         == Reading(SeenWheres(ws), rest, ps)
    decreases ws, 0
  {
    var parts := ShowWheres(ws, PLACE);
    ShowWheresLength(ws);
    var qs, rs := WhereParams(ws[0]).value, WheresParams(ws[1..]).value;
    assert ws[0] in ws;
    Grouped(qs, rs, ps);
    if |ws| == 1 {
      assert ws[1..] == [] && rs + ps == ps;
      WhereReads(ws[0], rest, ps);
      assert SeenWheres(ws) == [SeenWhere(ws[0])];
    } else {
      JoinedNext(parts, " AND ", rest);
      assert parts[1..] == ShowWheres(ws[1..], PLACE);
      var more := Joined(parts[1..], " AND ") + rest;
      AndFollows(more);
      WhereReads(ws[0], " AND " + more, rs + ps);
      WheresRead(ws[1..], rest, ps);
      assert (" " + more)[1..] == more;
    }
  }

  lemma KeywordThen(keyword: string, inner: string, rest: string, s: string)
    requires IsWord(keyword) && keyword != "" && s == " " + keyword + " " + inner + rest
    ensures At(s, ' ') && Keyword(s) == keyword && At(AfterKeyword(s), ' ') && AfterKeyword(s)[1..] == inner + rest
  {
    var behind := " " + (inner + rest);
    assert s == " " + keyword + behind;
    KeywordOf(keyword, behind, s);
    assert behind[1..] == inner + rest;
  }

  lemma {:induction false} ClauseReads(keyword: string, spaced: string, ws: seq<Where>, rest: string, ps: seq<Param>)
    requires IsWord(keyword) && keyword != "" && spaced == " " + keyword + " "
    requires (forall w :: w in ws ==> PlainWhere(w) && WellFormedWhere(w)) && WheresParams(ws).Some?
    requires Ends(rest) && Keyword(rest) != keyword
    ensures ReadClause(keyword, Clause(spaced, ShowWheres(ws, PLACE), " AND ") + rest, WheresParams(ws).value + ps)
         == Reading(SeenWheres(ws), rest, ps)
    decreases ws, 1
  {
    ShowWheresLength(ws);
    if ws == [] {
      assert "" + rest == rest && [] + ps == ps;
    } else {
      WheresRead(ws, rest, ps);
      var conditions := Joined(ShowWheres(ws, PLACE), " AND ");
      KeywordThen(keyword, conditions, rest, spaced + conditions + rest);
    }
  }

  // Joins.

  /** The text of one join, from its space to its last condition. */
  function JoinShown(j: JoinTree): string {
    " " + JoinTypeText(j.joinType) + " " + j.table + Clause(" ON ", ShowWheres(j.where, PLACE), " AND ")
  }

  function JoinsShown(js: seq<JoinTree>): string {
    Clause(" ", ShowJoins(js, PLACE), " ")
  }

  lemma {:induction false} ShowJoinsLength(js: seq<JoinTree>)
    ensures |ShowJoins(js, PLACE)| == |js|
  {
    if js == [] {
    } else {
      ShowJoinsLength(js[1..]);
    }
  }

  lemma ClauseNext(parts: seq<string>)
    requires parts != []
    ensures Clause(" ", parts, " ") == " " + parts[0] + Clause(" ", parts[1..], " ")
  {
    if |parts| > 1 {
      Grouped(" ", parts[0], " " + Joined(parts[1..], " "));
      Grouped(parts[0], " ", Joined(parts[1..], " "));
    }
  }

  lemma SpaceBefore(a: string, b: string, c: string)
    ensures " " + (a + " " + b + c) == " " + a + " " + b + c
  {
  }

  /** Joins stand one after the other. */
  lemma JoinsShownNext(js: seq<JoinTree>)
    requires js != []
    ensures JoinsShown(js) == JoinShown(js[0]) + JoinsShown(js[1..])
  {
    var parts := ShowJoins(js, PLACE);
    assert parts[1..] == ShowJoins(js[1..], PLACE);
    SpaceBefore(JoinTypeText(js[0].joinType), js[0].table, Clause(" ON ", ShowWheres(js[0].where, PLACE), " AND "));
    ClauseNext(parts);
  }

  /** What stands behind joins: more joins, or a clause. */
  predicate AfterJoin(s: string) {
    Ends(s) && Keyword(s) != "ON"
  }

  lemma JoinStarts(j: JoinTree, rest: string)
    ensures AfterJoin(JoinShown(j) + rest)
    ensures ReadJoinType(JoinShown(j) + rest).Some?
  {
    var behind := " " + j.table + Clause(" ON ", ShowWheres(j.where, PLACE), " AND ") + rest;
    var s := JoinShown(j) + rest;
    assert s == " " + JoinTypeText(j.joinType) + behind;
    JoinTypeReads(j.joinType, JoinTypeText(j.joinType), behind, s);
    JoinTypeEnds(s);
  }

  lemma JoinTypeEnds(s: string)
    requires ReadJoinType(s).Some?
    ensures AfterJoin(s)
  {
  }

  lemma JoinReads(t: JoinType, text: string, table: string, behind: string, s: string)
    requires PlainTable(table) && Stops(behind) && Keyword(behind) != "AS"
    requires text == JoinTypeText(t) && s == " " + text + (" " + (table + behind))
    ensures ReadJoinType(s) == Some((t, " " + (table + behind)))
    ensures ReadTable(table + behind) == Some((table, behind))
  {
    JoinTypeReads(t, text, " " + (table + behind), s);
    TableReads(table, behind);
  }

  lemma FiveParts(a: string, b: string, c: string, d: string)
    ensures " " + a + " " + b + c + d == " " + a + (" " + (b + (c + d)))
    ensures (" " + (b + (c + d)))[1..] == b + (c + d)
  {
  }

  lemma OnFollows(conditions: string, rest: string)
    ensures var s := " ON " + conditions + rest; Stops(s) && Keyword(s) == "ON"
  {
    KeywordOf("ON", " " + conditions + rest, " ON " + conditions + rest);
  }

  lemma {:induction false} JoinsRead(js: seq<JoinTree>, rest: string, ps: seq<Param>)
    requires forall j :: j in js ==> PlainJoin(j) && j.where != [] && forall w :: w in j.where ==> WellFormedWhere(w)
    requires JoinsParams(js).Some? && AfterJoin(rest) && ReadJoinType(rest).None?
    ensures ReadJoins(JoinsShown(js) + rest, JoinsParams(js).value + ps) == Reading(SeenJoins(js), rest, ps)
    decreases js
  {
    if js == [] {
      assert "" + rest == rest && [] + ps == ps;
    } else {
      assert js[0] in js;
      var qs, rs := WheresParams(js[0].where).value, JoinsParams(js[1..]).value;
      var more := JoinsShown(js[1..]) + rest;
      MoreJoins(js[1..], rest);
      JoinsRead(js[1..], rest, ps);
      OneJoinReads(js[0], more, rs + ps, qs + (rs + ps), JoinShown(js[0]) + more);
      JoinsShownNext(js);
      Grouped(JoinShown(js[0]), JoinsShown(js[1..]), rest);
      Grouped(qs, rs, ps);
    }
  }

  lemma {:induction false} OneJoinReads(j: JoinTree, more: string, qs: seq<Param>, ps: seq<Param>, s: string)
    requires PlainJoin(j) && j.where != [] && forall w :: w in j.where ==> WellFormedWhere(w)
    requires WheresParams(j.where).Some? && ps == WheresParams(j.where).value + qs
    requires AfterJoin(more) && s == JoinShown(j) + more
    ensures ReadJoins(s, ps) ==
      var others := ReadJoins(more, qs);
      if others.Unread? then Unread
      else Reading([j.(where := SeenWheres(j.where))] + others.value, others.rest, others.params)
    decreases j
  {
    assert " ON " == " " + "ON" + " ";
    ClauseReads("ON", " ON ", j.where, more, qs);
    ConditionedReads(j, more, ps, qs);
  }

  lemma MoreJoins(js: seq<JoinTree>, rest: string)
    requires AfterJoin(rest)
    ensures AfterJoin(JoinsShown(js) + rest)
  {
    if js == [] {
      assert "" + rest == rest;
    } else {
      JoinsShownNext(js);
      Grouped(JoinShown(js[0]), JoinsShown(js[1..]), rest);
      JoinStarts(js[0], JoinsShown(js[1..]) + rest);
    }
  }

  lemma ConditionedReads(j: JoinTree, more: string, ps: seq<Param>, qs: seq<Param>)
    requires PlainTable(j.table) && j.where != []
    requires ReadClause("ON", Clause(" ON ", ShowWheres(j.where, PLACE), " AND ") + more, ps)
          == Reading(SeenWheres(j.where), more, qs)
    ensures ReadJoins(JoinShown(j) + more, ps) ==
      var others := ReadJoins(more, qs);
      if others.Unread? then Unread
      else Reading([j.(where := SeenWheres(j.where))] + others.value, others.rest, others.params)
  {
    var where := Clause(" ON ", ShowWheres(j.where, PLACE), " AND ");
    ShowWheresLength(j.where);
    OnFollows(Joined(ShowWheres(j.where, PLACE), " AND "), more);
    FiveParts(JoinTypeText(j.joinType), j.table, where, more);
    JoinReads(j.joinType, JoinTypeText(j.joinType), j.table, where + more, JoinShown(j) + more);
  }

  // The clauses behind the joins.

  lemma ByReads(keyword: string, names: string, rest: string, s: string)
    requires IsWord(keyword) && keyword != "" && s == " " + keyword + " BY " + names + rest
    ensures AfterBy(keyword, s) == Some(names + rest)
    ensures At(s, ' ') && Keyword(s) == keyword
  {
    var behind := " " + (names + rest);
    assert s == " " + keyword + " " + "BY" + behind;
    TwoKeywords(keyword, "BY", behind, s);
    assert behind[1..] == names + rest;
  }

  lemma GroupBy(names: string, rest: string, s: string)
    requires s == " GROUP BY " + names + rest
    ensures AfterBy("GROUP", s) == Some(names + rest) && Follows(s, 1)
  {
    assert " GROUP BY " == " " + "GROUP" + " BY ";
    ByReads("GROUP", names, rest, s);
  }

  lemma OrderBy(names: string, rest: string, s: string)
    requires s == " ORDER BY " + names + rest
    ensures AfterBy("ORDER", s) == Some(names + rest) && Follows(s, 3)
  {
    assert " ORDER BY " == " " + "ORDER" + " BY ";
    ByReads("ORDER", names, rest, s);
  }

  lemma NotBy(rest: string)
    ensures Follows(rest, 2) ==> AfterBy("GROUP", rest).None? && Follows(rest, 1)
    ensures Follows(rest, 4) ==> AfterBy("ORDER", rest).None? && Follows(rest, 3)
  {
  }

  lemma GroupReads(fs: seq<Field>, rest: string, s: string)
    requires (forall f :: f in fs ==> PlainField(f)) && Follows(rest, 2)
    requires s == Clause(" GROUP BY ", FieldNames(fs), ",") + rest
    ensures ReadGroup(s) == Some((SeenFields(fs), rest)) && Follows(s, 1)
  {
    if fs == [] {
      assert s == rest;
      NotBy(rest);
    } else {
      FollowsEnds(rest, 2);
      GroupBy(Joined(FieldNames(fs), ","), rest, s);
      FieldsRead(fs, rest);
    }
  }

  lemma OrderClauseReads(os: seq<(Field, Order)>, rest: string, s: string)
    requires (forall o :: o in os ==> PlainField(o.0)) && Follows(rest, 4)
    requires s == Clause(" ORDER BY ", OrderNames(os), ",") + rest
    ensures ReadOrder(s) == Some((SeenOrders(os), rest)) && Follows(s, 3)
  {
    if os == [] {
      assert s == rest;
      NotBy(rest);
    } else {
      FollowsEnds(rest, 4);
      OrderBy(Joined(OrderNames(os), ","), rest, s);
      NamesAreNamed(os);
      OrdersRead(os, rest, OrderNames(os));
    }
  }

  lemma HoleReads(keyword: string, spaced: string, n: int, rest: string, ps: seq<Param>, s: string)
    requires IsWord(keyword) && keyword != "" && spaced == " " + keyword + " " && s == spaced + "%s" + rest
    ensures ReadCount(keyword, s, [Number(n)] + ps) == Reading(Some(n), rest, ps)
    ensures At(s, ' ') && Keyword(s) == keyword
  {
    KeywordThen(keyword, "%s", rest, s);
    assert ("%s" + rest)[2..] == rest;
    assert ([Number(n)] + ps)[1..] == ps;
  }

  lemma CountReads(keyword: string, spaced: string, n: Option<int>, rest: string, ps: seq<Param>, s: string, stage: nat)
    requires IsWord(keyword) && Stage(keyword) == stage > 0 && Follows(rest, stage) && spaced == " " + keyword + " "
    requires s == ShowCount(spaced, n, PLACE) + rest
    ensures ReadCount(keyword, s, CountParams(n) + ps) == Reading(SeenCount(n), rest, ps)
    ensures Follows(s, stage - 1)
  {
    if NonZero(n) {
      HoleReads(keyword, spaced, n.value, rest, ps, s);
    } else {
      assert s == rest && CountParams(n) + ps == ps;
    }
  }

  lemma CountsRead(q: QueryTree, rest: string, ps: seq<Param>, afterOrder: string, afterLimit: string)
    requires Follows(rest, 6)
    requires afterLimit == ShowCount(" OFFSET ", q.offset, PLACE) + rest
    requires afterOrder == ShowCount(" LIMIT ", q.limit, PLACE) + afterLimit
    ensures ReadCount("LIMIT", afterOrder, CountParams(q.limit) + (CountParams(q.offset) + ps))
         == Reading(SeenCount(q.limit), afterLimit, CountParams(q.offset) + ps)
    ensures ReadCount("OFFSET", afterLimit, CountParams(q.offset) + ps) == Reading(SeenCount(q.offset), rest, ps)
    ensures Follows(afterOrder, 4)
  {
    assert " OFFSET " == " " + "OFFSET" + " " && " LIMIT " == " " + "LIMIT" + " ";
    CountReads("OFFSET", " OFFSET ", q.offset, rest, ps, afterLimit, 6);
    CountReads("LIMIT", " LIMIT ", q.limit, afterLimit, CountParams(q.offset) + ps, afterOrder, 5);
  }

  /** The last three clauses as one text. */
  function EndShown(q: QueryTree): string {
    Clause(" ORDER BY ", OrderNames(q.order), ",")
    + ShowCount(" LIMIT ", q.limit, PLACE) + ShowCount(" OFFSET ", q.offset, PLACE)
  }

  lemma EndReads(q: QueryTree, t: QueryTree, rest: string, ps: seq<Param>, s: string)
    requires (forall o :: o in q.order ==> PlainField(o.0)) && Follows(rest, 6)
    requires s == EndShown(q) + rest
    ensures ReadEnd(t, s, CountParams(q.limit) + CountParams(q.offset) + ps)
         == Reading(t.(order := SeenOrders(q.order), limit := SeenCount(q.limit), offset := SeenCount(q.offset)), rest, ps)
    ensures Follows(s, 3)
  {
    var afterLimit := ShowCount(" OFFSET ", q.offset, PLACE) + rest;
    var afterOrder := ShowCount(" LIMIT ", q.limit, PLACE) + afterLimit;
    FourParts(Clause(" ORDER BY ", OrderNames(q.order), ","), ShowCount(" LIMIT ", q.limit, PLACE),
              ShowCount(" OFFSET ", q.offset, PLACE), rest);
    Grouped(CountParams(q.limit), CountParams(q.offset), ps);
    CountsRead(q, rest, ps, afterOrder, afterLimit);
    OrderClauseReads(q.order, afterOrder, s);
  }

  /** A clause of conditions, read from the text that it starts. */
  lemma ConditionsRead(keyword: string, spaced: string, stage: nat, ws: seq<Where>, rest: string, ps: seq<Param>, s: string)
    requires IsWord(keyword) && Stage(keyword) == stage > 0 && spaced == " " + keyword + " "
    requires (forall w :: w in ws ==> PlainWhere(w) && WellFormedWhere(w)) && WheresParams(ws).Some?
    requires Follows(rest, stage) && s == Clause(spaced, ShowWheres(ws, PLACE), " AND ") + rest
    ensures ReadClause(keyword, s, WheresParams(ws).value + ps) == Reading(SeenWheres(ws), rest, ps)
    ensures Follows(s, stage - 1)
    decreases ws, 2
  {
    FollowsEnds(rest, stage);
    ClauseReads(keyword, spaced, ws, rest, ps);
    ShowWheresLength(ws);
    if ws == [] {
      assert s == rest;
    } else {
      KeywordThen(keyword, Joined(ShowWheres(ws, PLACE), " AND "), rest, s);
    }
  }

  lemma FollowsJoin(s: string, n: nat)
    requires Follows(s, n)
    ensures AfterJoin(s) && ReadJoinType(s).None?
  {
  }

  /** The clauses from the joins on. */
  function TailShown(q: QueryTree): string {
    JoinsShown(q.joins)
    + (Clause(" WHERE ", ShowWheres(q.where, PLACE), " AND ")
    + (Clause(" GROUP BY ", FieldNames(q.group), ",")
    + (Clause(" HAVING ", ShowWheres(q.having, PLACE), " AND ") + EndShown(q))))
  }

  lemma TailParts(j: string, w: string, g: string, h: string, e: string, rest: string)
    ensures j + (w + (g + (h + e))) + rest == j + (w + (g + (h + (e + rest))))
  {
  }

  lemma TailParams(j: seq<Param>, w: seq<Param>, h: seq<Param>, c: seq<Param>, ps: seq<Param>)
    ensures j + (w + (h + c)) + ps == j + (w + (h + (c + ps)))
  {
  }

  lemma TailFrom(t: QueryTree, u: QueryTree, s: string, s0: string, s1: string, s2: string, s3: string,
                 ps: seq<Param>, p0: seq<Param>, p1: seq<Param>, p2: seq<Param>)
    requires ReadJoins(s, ps) == Reading(u.joins, s0, p0)
    requires ReadClause("WHERE", s0, p0) == Reading(u.where, s1, p1)
    requires ReadGroup(s1) == Some((u.group, s2))
    requires ReadClause("HAVING", s2, p1) == Reading(u.having, s3, p2)
    requires u == t.(joins := u.joins, where := u.where, group := u.group, having := u.having)
    ensures ReadTail(t, s, ps) == ReadEnd(u, s3, p2)
  {
  }

  lemma {:induction false} TailReads(q: QueryTree, t: QueryTree, rest: string, ps: seq<Param>, s: string, qs: seq<Param>)
    requires PlainQuery(q) && WellFormed(q) && QueryParams(q).Some? && Follows(rest, 6)
    requires t == QueryTree(q.table, [], SeenFields(q.select), [], [], [], [], None, None, None)
    requires s == TailShown(q) + rest && qs == QueryParams(q).value + ps
    ensures ReadTail(t, s, qs) == Reading(Seen(q), rest, ps)
    ensures Stops(s) && Keyword(s) != "AS"
    decreases q, 0
  {
    var c := CountParams(q.limit) + CountParams(q.offset);
    var j, w, h := JoinsParams(q.joins).value, WheresParams(q.where).value, WheresParams(q.having).value;
    var where := Clause(" WHERE ", ShowWheres(q.where, PLACE), " AND ");
    var group := Clause(" GROUP BY ", FieldNames(q.group), ",");
    var having := Clause(" HAVING ", ShowWheres(q.having, PLACE), " AND ");
    var s3 := EndShown(q) + rest;
    var s2 := having + s3;
    var s1 := group + s2;
    var s0 := where + s1;
    TailParts(JoinsShown(q.joins), where, group, having, EndShown(q), rest);
    TailParams(j, w, h, c, ps);
    var u := t.(joins := SeenJoins(q.joins), where := SeenWheres(q.where), group := SeenFields(q.group),
                having := SeenWheres(q.having));
    EndReads(q, u, rest, ps, s3);
    Spaced();
    ConditionsRead("HAVING", " HAVING ", 3, q.having, s3, c + ps, s2);
    GroupReads(q.group, s2, s1);
    ConditionsRead("WHERE", " WHERE ", 1, q.where, s1, h + (c + ps), s0);
    FollowsJoin(s0, 0);
    MoreJoins(q.joins, s0);
    JoinsRead(q.joins, s0, w + (h + (c + ps)));
    TailFrom(t, u, s, s0, s1, s2, s3, qs, w + (h + (c + ps)), h + (c + ps), c + ps);
  }

  lemma Spaced()
    ensures " HAVING " == " " + "HAVING" + " " && " WHERE " == " " + "WHERE" + " "
    ensures IsWord("HAVING") && IsWord("WHERE") && Stage("HAVING") == 3 && Stage("WHERE") == 1
  {
  }

  lemma SelectParts(f: string, t: string, tail: string, rest: string)
    ensures "SELECT " + f + " FROM " + t + tail + rest == "SELECT" + (" " + (f + (" FROM " + (t + (tail + rest)))))
  {
    assert "SELECT " == "SELECT" + " ";
  }

  lemma SelectReads(q: QueryTree, s: string, fields: string, behind: string, ps: seq<Param>)
    requires PlainTable(q.table) && q.select != [] && (forall f :: f in q.select ==> PlainField(f))
    requires fields == Joined(FieldNames(q.select), ",") && Stops(behind) && Keyword(behind) != "AS"
    requires s == "SELECT" + (" " + (fields + (" FROM " + (q.table + behind))))
    ensures ReadQuery(s, ps)
         == ReadTail(QueryTree(q.table, [], SeenFields(q.select), [], [], [], [], None, None, None), behind, ps)
  {
    var from := " FROM " + (q.table + behind);
    var inner := " " + (fields + from);
    WordOf("SELECT", inner);
    assert inner[1..] == fields + from;
    FromReads(q.table + behind, from);
    FieldsRead(q.select, from);
    TableReads(q.table, behind);
    SelectFrom(s, fields + from, SeenFields(q.select), from, q.table + behind, q.table, behind, ps);
  }

  lemma SelectFrom(s: string, afterSelect: string, select: seq<Field>, from: string, afterFrom: string,
                   table: string, behind: string, ps: seq<Param>)
    requires Word(s) == "SELECT" && At(AfterWord(s), ' ') && AfterWord(s)[1..] == afterSelect
    requires ReadFields(afterSelect) == Some((select, from))
    requires Keyword(from) == "FROM" && At(AfterKeyword(from), ' ') && AfterKeyword(from)[1..] == afterFrom
    requires ReadTable(afterFrom) == Some((table, behind))
    ensures ReadQuery(s, ps)
         == ReadTail(QueryTree(table, [], select, [], [], [], [], None, None, None), behind, ps)
  {
  }

  lemma FromReads(behind: string, s: string)
    requires s == " FROM " + behind
    ensures Stops(s) && !At(s, '(') && !At(s, ',')
    ensures Keyword(s) == "FROM" && At(AfterKeyword(s), ' ') && AfterKeyword(s)[1..] == behind
  {
    assert s == " " + "FROM" + (" " + behind);
    KeywordOf("FROM", " " + behind, s);
  }

  lemma {:induction false} QueryReads(q: QueryTree, rest: string, ps: seq<Param>)
    requires PlainQuery(q) && WellFormed(q) && QueryParams(q).Some? && Follows(rest, 6)
    ensures ReadQuery(ShowQuery(q, PLACE) + rest, QueryParams(q).value + ps) == Reading(Seen(q), rest, ps)
    decreases q, 1
  {
    var fields := Joined(FieldNames(q.select), ",");
    TailReads(q, QueryTree(q.table, [], SeenFields(q.select), [], [], [], [], None, None, None), rest, ps,
              TailShown(q) + rest, QueryParams(q).value + ps);
    SelectParts(fields, q.table, TailShown(q), rest);
    SelectReads(q, ShowQuery(q, PLACE) + rest, fields, TailShown(q) + rest, QueryParams(q).value + ps);
  }

  // What is built.

  lemma {:induction false} PlacesAreCharacters(t: Tokens, ps: seq<Param>)
    requires Fill(t, ps, PLACE).Some?
    ensures Fill(t, ps, PLACE) == Some(Characters(t))
    decreases |t|
  {
    if t == [] {
    } else if t[0].Hole? {
      PlacesAreCharacters(t[1..], ps[1..]);
    } else {
      PlacesAreCharacters(t[1..], ps);
    }
  }

  lemma BuiltText(q: QueryTree)
    requires WellFormed(q)
    ensures QueryText(q).Some? && QueryParams(q).Some?
    ensures Characters(QueryText(q).value + [Lit(";")]) == ShowQuery(q, PLACE) + ";"
  {
    QueryBuilds(q);
    QueryAgrees(q, PLACE);
    var text, ps := QueryText(q), QueryParams(q);
    AgreeAround(";", text, ps, ShowQuery(q, PLACE), PLACE);
    PlacesAreCharacters(text.value + [Lit(";")], ps.value);
  }

  /**
   For every query that can be built and whose names are words: the characters of the text and
   the list of parameters are read back as the tree, or what of it is rendered.
   */
  lemma BuiltReadsBack(q: QueryTree)
    requires WellFormed(q) && PlainQuery(q)
    ensures QueryText(q).Some? && QueryParams(q).Some?
    ensures Read(Characters(QueryText(q).value + [Lit(";")]), QueryParams(q).value) == Some(Seen(q))
  {
    BuiltText(q);
    ShownReads(q, QueryParams(q).value, Characters(QueryText(q).value + [Lit(";")]));
  }

  lemma ShownReads(q: QueryTree, ps: seq<Param>, s: string)
    requires WellFormed(q) && PlainQuery(q) && QueryParams(q) == Some(ps) && s == ShowQuery(q, PLACE) + ";"
    ensures Read(s, ps) == Some(Seen(q))
  {
    QueryReads(q, ";", []);
    assert ps + [] == ps;
    ReadWhole(s, ps, Seen(q));
  }

  lemma ReadWhole(s: string, ps: seq<Param>, q: QueryTree)
    requires ReadQuery(s, ps) == Reading(q, ";", [])
    ensures Read(s, ps) == Some(q)
  {
  }

  // Which trees are rendered as they are.

  predicate FieldShown(f: Field) {
    f.fn != Some("")
  }

  /** Nothing in the tree is left out of the text, but for a function around it. */
  predicate Shown(q: QueryTree) {
    && q.limit != Some(0) && q.offset != Some(0)
    && (forall f :: f in q.select ==> FieldShown(f))
    && (forall f :: f in q.group ==> FieldShown(f))
    && (forall i :: 0 <= i < |q.order| ==> FieldShown(q.order[i].0))
    && (forall j :: j in q.joins ==> forall w :: w in j.where ==> WhereShown(w))
    && (forall w :: w in q.where ==> WhereShown(w))
    && (forall w :: w in q.having ==> WhereShown(w))
  }

  predicate WhereShown(w: Where) {
    && OperandShown(w.field)
    && if w.operator == IsNull || w.operator == IsNotNull then w.value == NOTHING else OperandShown(w.value)
  }

  predicate OperandShown(o: Operand) {
    match o
    case OfField(f) => FieldShown(f)
    case OfValue(v) => v.fn != Some("")
    case OfQuery(q) => q.fn != Some("") && Shown(q)
  }

  lemma SameList<T>(a: seq<T>, b: seq<T>)
    requires a != [] && b != []
    ensures a == b <==> a[0] == b[0] && a[1..] == b[1..]
    ensures forall x :: x in a <==> x == a[0] || x in a[1..]
  {
    assert a == [a[0]] + a[1..] && b == [b[0]] + b[1..];
  }

  lemma {:induction false} SeenFieldsIff(fs: seq<Field>)
    ensures SeenFields(fs) == fs <==> forall f :: f in fs ==> FieldShown(f)
  {
    if fs == [] {
    } else {
      SeenFieldsIff(fs[1..]);
      OneFieldIff(fs[0]);
      assert SeenFields(fs)[0] == SeenField(fs[0]) && SeenFields(fs)[1..] == SeenFields(fs[1..]);
      SameList(fs, SeenFields(fs));
    }
  }

  lemma OneFieldIff(f: Field)
    ensures SeenField(f) == f <==> FieldShown(f)
  {
    assert SeenField(f) == f <==> SeenFn(f.fn) == f.fn;
  }

  lemma {:induction false} SeenOrdersIff(os: seq<(Field, Order)>)
    ensures SeenOrders(os) == os <==> forall i :: 0 <= i < |os| ==> FieldShown(os[i].0)
  {
    if os == [] {
    } else {
      var rest := os[1..];
      SeenOrdersIff(rest);
      OneOrderIff(os[0]);
      assert SeenOrders(os)[0] == (SeenField(os[0].0), os[0].1) && SeenOrders(os)[1..] == SeenOrders(rest);
      SameList(os, SeenOrders(os));
      assert forall i :: 0 <= i < |rest| ==> rest[i] == os[i + 1];
      assert (forall i :: 0 <= i < |os| ==> FieldShown(os[i].0))
        <==> FieldShown(os[0].0) && forall i :: 0 <= i < |rest| ==> FieldShown(rest[i].0);
    }
  }

  lemma OneOrderIff(o: (Field, Order))
    ensures (SeenField(o.0), o.1) == o <==> FieldShown(o.0)
  {
  }

  lemma {:induction false} SeenOperandIff(o: Operand)
    ensures SeenOperand(o) == o <==> OperandShown(o)
    decreases o
  {
    if o.OfQuery? {
      SeenIff(o.q);
      var seen := Seen(o.q);
      assert seen.(fn := SeenFn(o.q.fn)) == o.q <==> seen == o.q.(fn := None) && SeenFn(o.q.fn) == o.q.fn;
    }
  }

  lemma {:induction false} SeenWhereIff(w: Where)
    ensures SeenWhere(w) == w <==> WhereShown(w)
    decreases w
  {
    SeenOperandIff(w.field);
    SeenOperandIff(w.value);
  }

  lemma {:induction false} SeenWheresIff(ws: seq<Where>)
    ensures SeenWheres(ws) == ws <==> forall w :: w in ws ==> WhereShown(w)
    decreases ws
  {
    if ws == [] {
    } else {
      SeenWhereIff(ws[0]);
      SeenWheresIff(ws[1..]);
      SameList(ws, SeenWheres(ws));
    }
  }

  lemma {:induction false} SeenJoinsIff(js: seq<JoinTree>)
    ensures SeenJoins(js) == js <==> forall j :: j in js ==> forall w :: w in j.where ==> WhereShown(w)
    decreases js
  {
    if js == [] {
    } else {
      SeenWheresIff(js[0].where);
      SeenJoinsIff(js[1..]);
      SameList(js, SeenJoins(js));
    }
  }

  /** Exactly the trees that hold nothing else come back unchanged. */
  lemma {:induction false} SeenIff(q: QueryTree)
    ensures Seen(q) == q.(fn := None) <==> Shown(q)
    decreases q
  {
    SeenJoinsIff(q.joins);
    SeenFieldsIff(q.select);
    SeenWheresIff(q.where);
    SeenWheresIff(q.having);
    SeenFieldsIff(q.group);
    SeenOrdersIff(q.order);
  }
}

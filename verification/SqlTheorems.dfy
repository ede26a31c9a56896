/** The text of a query and its parameter list fit together, for every query tree. */
module SqlTheorems {
  import opened Prelude
  import opened SqlTree

  /** How a value looks when written into the text. */
  type Show = Param -> string

  /** Writes the parameters into the placeholders, left to right; none may be left over. */
  function Fill(t: Tokens, ps: seq<Param>, show: Show): Option<string> {
    if t == [] then if ps == [] then Some("") else None
    else if t[0].Hole? then
      if ps == [] then None else Prepend(show(ps[0]), Fill(t[1..], ps[1..], show))
    else Prepend(t[0].text, Fill(t[1..], ps, show))
  }

  function Prepend(s: string, rest: Option<string>): Option<string> {
    match rest
    case None => None
    case Some(r) => Some(s + r)
  }

  // The reference: the query as one string with every value written in place.

  /** A clause that is left out when it has no parts. */
  function Clause(keyword: string, parts: seq<string>, sep: string): string {
    if parts == [] then "" else keyword + Joined(parts, sep)
  }

  function Call(fn: Option<string>, argument: string): string {
    if Given(fn) then fn.value + "(" + argument + ")" else argument
  }

  function ShowOperand(o: Operand, show: Show): string
    decreases o
  {
    match o
    case OfField(f) => Call(f.fn, f.table + "." + f.column)
    case OfValue(v) => Call(v.fn, show(v.value))
    case OfQuery(q) => (if q.fn.Some? then q.fn.value else "") + "(" + ShowQuery(q, show) + ")"
  }

  function ShowWhere(w: Where, show: Show): string
    decreases w
  {
    ShowOperand(w.field, show) + OperatorText(w.operator)
    + if IsNullTest(w.operator) then "" else ShowOperand(w.value, show)
  }

  function ShowWheres(ws: seq<Where>, show: Show): seq<string>
    decreases ws
  {
    if ws == [] then [] else [ShowWhere(ws[0], show)] + ShowWheres(ws[1..], show)
  }

  function ShowJoins(js: seq<JoinTree>, show: Show): seq<string>
    decreases js
  {
    if js == [] then []
    else
      [JoinTypeText(js[0].joinType) + " " + js[0].table
       + Clause(" ON ", ShowWheres(js[0].where, show), " AND ")] + ShowJoins(js[1..], show)
  }

  function ShowCount(keyword: string, n: Option<int>, show: Show): string {
    if NonZero(n) then keyword + show(Number(n.value)) else ""
  }

  function ShowQuery(q: QueryTree, show: Show): string
    decreases q
  {
    "SELECT " + Joined(FieldNames(q.select), ",") + " FROM " + q.table
    + (Clause(" ", ShowJoins(q.joins, show), " ")
    + (Clause(" WHERE ", ShowWheres(q.where, show), " AND ")
    + (Clause(" GROUP BY ", FieldNames(q.group), ",")
    + (Clause(" HAVING ", ShowWheres(q.having, show), " AND ")
    + (Clause(" ORDER BY ", OrderNames(q.order), ",")
    + ShowCount(" LIMIT ", q.limit, show) + ShowCount(" OFFSET ", q.offset, show))))))
  }

  /** When the text can be built, the parameters can be listed and filling them in gives `shown`. */
  ghost predicate Agree(text: Option<Tokens>, ps: Option<seq<Param>>, shown: string, show: Show) {
    text.Some? ==> ps.Some? && Fill(text.value, ps.value, show) == Some(shown)
  }

  lemma {:induction false} FillAppend(t: Tokens, ps: seq<Param>, u: Tokens, qs: seq<Param>, show: Show)
    requires Fill(t, ps, show).Some? && Fill(u, qs, show).Some?
    ensures Fill(t + u, ps + qs, show) == Some(Fill(t, ps, show).value + Fill(u, qs, show).value)
    decreases |t|
  {
    if t == [] {
      assert t + u == u && ps + qs == qs;
      assert "" + Fill(u, qs, show).value == Fill(u, qs, show).value;
    } else {
      assert (t + u)[1..] == t[1..] + u;
      var b := Fill(u, qs, show).value;
      if t[0].Hole? {
        assert (ps + qs)[1..] == ps[1..] + qs;
        FillAppend(t[1..], ps[1..], u, qs, show);
        Reassociate(show(ps[0]), Fill(t[1..], ps[1..], show).value, b);
      } else {
        FillAppend(t[1..], ps, u, qs, show);
        Reassociate(t[0].text, Fill(t[1..], ps, show).value, b);
      }
    }
  }

  lemma Reassociate(a: string, b: string, c: string)
    ensures a + b + c == a + (b + c)
  {
  }

  lemma AgreeThen(t: Option<Tokens>, p: Option<seq<Param>>, a: string,
                  u: Option<Tokens>, q: Option<seq<Param>>, b: string, show: Show)
    requires Agree(t, p, a, show) && Agree(u, q, b, show)
    ensures Agree(Then(t, u), Both(p, q), a + b, show)
  {
    if t.Some? && u.Some? {
      FillAppend(t.value, p.value, u.value, q.value, show);
    }
  }

  lemma FillLit(s: string, show: Show)
    ensures Fill([Lit(s)], [], show) == Some(s)
  {
    assert [Lit(s)][1..] == [] && Fill([], [], show) == Some("") && s + "" == s;
  }

  /** Literal text before or after changes neither the parameters nor the agreement. */
  lemma AgreeAround(s: string, t: Option<Tokens>, p: Option<seq<Param>>, a: string, show: Show)
    requires Agree(t, p, a, show)
    ensures Agree(Then(Some([Lit(s)]), t), p, s + a, show)
    ensures Agree(Then(t, Some([Lit(s)])), p, a + s, show)
  {
    FillLit(s, show);
    if t.Some? {
      FillAppend([Lit(s)], [], t.value, p.value, show);
      FillAppend(t.value, p.value, [Lit(s)], [], show);
      assert [] + p.value == p.value == p.value + [];
    }
  }

  lemma FillHole(p: Param, show: Show)
    ensures Fill([Hole], [p], show) == Some(show(p))
  {
    assert [Hole][1..] == [] && [p][1..] == [];
    assert Fill([], [], show) == Some("") && show(p) + "" == show(p);
  }

  lemma ValueAgrees(v: Value, show: Show)
    ensures Agree(Some(ValueText(v)), Some([v.value]), Call(v.fn, show(v.value)), show)
  {
    FillHole(v.value, show);
    if Given(v.fn) {
      var open := v.fn.value + "(";
      AgreeAround(open, Some([Hole]), Some([v.value]), show(v.value), show);
      AgreeAround(")", Some([Lit(open), Hole]), Some([v.value]), open + show(v.value), show);
      assert [Lit(open), Hole] == [Lit(open)] + [Hole];
      assert [Lit(open), Hole] + [Lit(")")] == ValueText(v);
    }
  }

  lemma CountAgrees(keyword: string, n: Option<int>, show: Show)
    ensures Agree(Some(CountClause(keyword, n)), Some(CountParams(n)), ShowCount(keyword, n, show), show)
  {
    if NonZero(n) {
      var p := Number(n.value);
      FillHole(p, show);
      AgreeAround(keyword, Some([Hole]), Some([p]), show(p), show);
      assert [Lit(keyword)] + [Hole] == CountClause(keyword, n);
    }
  }

  lemma LiteralClauseAgrees(keyword: string, names: seq<string>, t: Tokens, show: Show)
    requires t == if names == [] then [] else [Lit(keyword + Joined(names, ","))]
    ensures Agree(Some(t), Some([]), Clause(keyword, names, ","), show)
  {
    if names != [] {
      FillLit(keyword + Joined(names, ","), show);
    }
  }

  lemma TailAgrees(q: QueryTree, show: Show)
    ensures Agree(Some(TailClauses(q)), Some(CountParams(q.limit) + CountParams(q.offset)),
                  Clause(" ORDER BY ", OrderNames(q.order), ",")
                  + ShowCount(" LIMIT ", q.limit, show) + ShowCount(" OFFSET ", q.offset, show), show)
  {
    var order := OrderClause(q.order);
    LiteralClauseAgrees(" ORDER BY ", OrderNames(q.order), order, show);
    CountAgrees(" LIMIT ", q.limit, show);
    CountAgrees(" OFFSET ", q.offset, show);
    FillAppend(order, [], CountClause(" LIMIT ", q.limit), CountParams(q.limit), show);
    assert [] + CountParams(q.limit) == CountParams(q.limit);
    FillAppend(order + CountClause(" LIMIT ", q.limit), CountParams(q.limit),
               CountClause(" OFFSET ", q.offset), CountParams(q.offset), show);
  }

  lemma {:induction false} OperandAgrees(o: Operand, show: Show)
    ensures Agree(OperandText(o), OperandParams(o), ShowOperand(o, show), show)
    decreases o
  {
    match o
    case OfField(f) => FillLit(FieldText(f), show);
    case OfValue(v) => ValueAgrees(v, show);
    case OfQuery(q) =>
      QueryAgrees(q, show);
      var open := if Given(q.fn) then q.fn.value + "(" else "(";
      var text, shown := QueryText(q), ShowQuery(q, show);
      AgreeAround(")", text, QueryParams(q), shown, show);
      AgreeAround(open, Then(text, Some([Lit(")")])), QueryParams(q), shown + ")", show);
      Reassociate(open, shown, ")");
      assert (if q.fn.Some? then q.fn.value else "") + "(" == open;
  }

  lemma {:induction false} WhereAgrees(w: Where, show: Show)
    ensures Agree(WhereText(w), WhereParams(w), ShowWhere(w, show), show)
    decreases w
  {
    var f, a := OperandText(w.field), ShowOperand(w.field, show);
    var operator := OperatorText(w.operator);
    OperandAgrees(w.field, show);
    if IsNullTest(w.operator) {
      AgreeAround(operator, f, OperandParams(w.field), a, show);
      assert a + operator + "" == a + operator;
      assert OperandParams(w.field).Some? ==>
        OperandParams(w.field).value + [] == OperandParams(w.field).value;
    } else {
      OperandAgrees(w.value, show);
      var u, b := OperandText(w.value), ShowOperand(w.value, show);
      AgreeAround(operator, u, OperandParams(w.value), b, show);
      AgreeThen(f, OperandParams(w.field), a,
                Then(Some([Lit(operator)]), u), OperandParams(w.value), operator + b, show);
      Reassociate(a, operator, b);
    }
  }

  lemma {:induction false} WheresAgree(ws: seq<Where>, show: Show)
    ensures Agree(WheresText(ws), WheresParams(ws), Joined(ShowWheres(ws, show), " AND "), show)
    decreases ws, 0
  {
    if |ws| == 1 {
      WhereAgrees(ws[0], show);
      assert ws[1..] == [];
      assert WhereParams(ws[0]).Some? ==> WhereParams(ws[0]).value + [] == WhereParams(ws[0]).value;
    } else if ws != [] {
      WhereAgrees(ws[0], show);
      WheresAgree(ws[1..], show);
      var first, rest := ShowWhere(ws[0], show), Joined(ShowWheres(ws[1..], show), " AND ");
      AgreeAround(" AND ", WheresText(ws[1..]), WheresParams(ws[1..]), rest, show);
      AgreeThen(WhereText(ws[0]), WhereParams(ws[0]), first,
                Then(Some([Lit(" AND ")]), WheresText(ws[1..])), WheresParams(ws[1..]), " AND " + rest, show);
      Reassociate(first, " AND ", rest);
      assert ShowWheres(ws, show)[1..] == ShowWheres(ws[1..], show);
    }
  }

  lemma {:induction false} WhereClauseAgrees(keyword: string, ws: seq<Where>, show: Show)
    ensures Agree(WhereClause(keyword, ws), WheresParams(ws),
                  Clause(keyword, ShowWheres(ws, show), " AND "), show)
    decreases ws, 1
  {
    if ws != [] {
      WheresAgree(ws, show);
      AgreeAround(keyword, WheresText(ws), WheresParams(ws), Joined(ShowWheres(ws, show), " AND "), show);
    }
  }

  lemma {:induction false} JoinAgrees(j: JoinTree, show: Show)
    ensures Agree(JoinText(j), WheresParams(j.where),
                  JoinTypeText(j.joinType) + " " + j.table
                  + Clause(" ON ", ShowWheres(j.where, show), " AND "), show)
    decreases j
  {
    if j.where != [] {
      WheresAgree(j.where, show);
      var before := JoinTypeText(j.joinType) + " " + j.table;
      var on := Joined(ShowWheres(j.where, show), " AND ");
      AgreeAround(before + " ON ", WheresText(j.where), WheresParams(j.where), on, show);
      Reassociate(before, " ON ", on);
    }
  }

  lemma {:induction false} JoinsAgree(js: seq<JoinTree>, show: Show)
    ensures Agree(JoinsText(js), JoinsParams(js), Clause(" ", ShowJoins(js, show), " "), show)
    decreases js
  {
    if js == [] {
    } else {
      JoinAgrees(js[0], show);
      JoinsAgree(js[1..], show);
      var first, rest := ShowJoins(js, show)[0], Clause(" ", ShowJoins(js[1..], show), " ");
      assert ShowJoins(js, show)[1..] == ShowJoins(js[1..], show);
      AgreeThen(JoinText(js[0]), WheresParams(js[0].where), first,
                JoinsText(js[1..]), JoinsParams(js[1..]), rest, show);
      AgreeAround(" ", Then(JoinText(js[0]), JoinsText(js[1..])),
                  Both(WheresParams(js[0].where), JoinsParams(js[1..])), first + rest, show);
      if js[1..] == [] {
        assert first + "" == first;
      } else {
        Reassociate(first, " ", Joined(ShowJoins(js[1..], show), " "));
      }
    }
  }

  /**
   For every query, however nested: whenever the text can be built, the parameters can be
   listed, there is exactly one for each placeholder, and writing them in left to right gives
   the query with its values in place.
   */
  lemma {:induction false} QueryAgrees(q: QueryTree, show: Show)
    ensures Agree(QueryText(q), QueryParams(q), ShowQuery(q, show), show)
    decreases q
  {
    if q.select != [] {
      TailAgrees(q, show);
      var t5, p5 := Some(TailClauses(q)), Some(CountParams(q.limit) + CountParams(q.offset));
      var s5 := Clause(" ORDER BY ", OrderNames(q.order), ",")
                + ShowCount(" LIMIT ", q.limit, show) + ShowCount(" OFFSET ", q.offset, show);
      var h, hs := WhereClause(" HAVING ", q.having), Clause(" HAVING ", ShowWheres(q.having, show), " AND ");
      WhereClauseAgrees(" HAVING ", q.having, show);
      AgreeThen(h, WheresParams(q.having), hs, t5, p5, s5, show);
      var t4, p4, s4 := Then(h, t5), Both(WheresParams(q.having), p5), hs + s5;
      var g, gs := Some(GroupClause(q.group)), Clause(" GROUP BY ", FieldNames(q.group), ",");
      LiteralClauseAgrees(" GROUP BY ", FieldNames(q.group), g.value, show);
      AgreeThen(g, Some([]), gs, t4, p4, s4, show);
      assert p4.Some? ==> [] + p4.value == p4.value;
      var t3, s3 := Then(g, t4), gs + s4;
      var w, ws := WhereClause(" WHERE ", q.where), Clause(" WHERE ", ShowWheres(q.where, show), " AND ");
      WhereClauseAgrees(" WHERE ", q.where, show);
      AgreeThen(w, WheresParams(q.where), ws, t3, p4, s3, show);
      var t2, p2, s2 := Then(w, t3), Both(WheresParams(q.where), p4), ws + s3;
      var j, js := JoinsText(q.joins), Clause(" ", ShowJoins(q.joins, show), " ");
      JoinsAgree(q.joins, show);
      AgreeThen(j, JoinsParams(q.joins), js, t2, p2, s2, show);
      AgreeAround(SelectClause(q)[0].text, Then(j, t2), Both(JoinsParams(q.joins), p2), js + s2, show);
    }
  }

  // When a query can be built at all.

  /** Something is selected, joins have conditions, and so on in every subquery that is rendered. */
  predicate WellFormed(q: QueryTree) {
    && q.select != []
    && (forall j :: j in q.joins ==> j.where != [] && forall w :: w in j.where ==> WellFormedWhere(w))
    && (forall w :: w in q.where ==> WellFormedWhere(w))
    && (forall w :: w in q.having ==> WellFormedWhere(w))
  }

  predicate WellFormedWhere(w: Where) {
    && (w.field.OfQuery? ==> WellFormed(w.field.q))
    && (w.value.OfQuery? && !IsNullTest(w.operator) ==> WellFormed(w.value.q))
  }

  lemma {:induction false} WhereBuilds(w: Where)
    ensures WhereText(w).Some? <==> WellFormedWhere(w)
    decreases w
  {
    if w.field.OfQuery? { QueryBuilds(w.field.q); }
    if w.value.OfQuery? { QueryBuilds(w.value.q); }
  }

  lemma {:induction false} WheresBuild(ws: seq<Where>)
    ensures WheresText(ws).Some? <==> forall w :: w in ws ==> WellFormedWhere(w)
    decreases ws
  {
    if ws == [] {
    } else {
      WhereBuilds(ws[0]);
      WheresBuild(ws[1..]);
      assert forall w :: w in ws <==> w == ws[0] || w in ws[1..];
    }
  }

  lemma {:induction false} JoinsBuild(js: seq<JoinTree>)
    ensures JoinsText(js).Some? <==>
      forall j :: j in js ==> j.where != [] && forall w :: w in j.where ==> WellFormedWhere(w)
    decreases js
  {
    if js == [] {
    } else {
      WheresBuild(js[0].where);
      JoinsBuild(js[1..]);
      assert forall j :: j in js <==> j == js[0] || j in js[1..];
    }
  }

  /** Building fails exactly on the trees that are not well formed. */
  lemma {:induction false} QueryBuilds(q: QueryTree)
    ensures QueryText(q).Some? <==> WellFormed(q)
    decreases q
  {
    JoinsBuild(q.joins);
    WheresBuild(q.where);
    WheresBuild(q.having);
  }
}

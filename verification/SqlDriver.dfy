/** What the database driver makes of a built query, character by character. */
module SqlDriver {
  import opened Prelude
  import opened SqlTree
  import opened SqlTheorems

  /** The text as sent: every placeholder is the two characters %s. */
  function Characters(t: Tokens): string {
    if t == [] then ""
    else (if t[0].Hole? then "%s" else t[0].text) + Characters(t[1..])
  }

  function Shows(ps: seq<Param>, show: Show): seq<string> {
    if ps == [] then [] else [show(ps[0])] + Shows(ps[1..], show)
  }

  /**
   The driver's scan: `%s` takes the next value, `%%` stands for a percent sign, any other use
   of one is an error, and so is a value left over.
   */
  function Substitute(text: string, values: seq<string>): Option<string>
    decreases |text|
  {
    if text == "" then if values == [] then Some("") else None
    else if text[0] != '%' then Prepend(text[..1], Substitute(text[1..], values))
    else if |text| >= 2 && text[1] == 's' && values != [] then
      Prepend(values[0], Substitute(text[2..], values[1..]))
    else if |text| >= 2 && text[1] == '%' then Prepend("%", Substitute(text[2..], values))
    else None
  }

  /** No literal piece of the text holds a percent sign. */
  predicate Clean(t: Tokens) {
    t == [] || ((t[0].Lit? ==> NoPercent(t[0].text)) && Clean(t[1..]))
  }

  predicate NoPercent(s: string) {
    '%' !in s
  }

  lemma {:induction false} CleanAppend(t: Tokens, u: Tokens)
    ensures Clean(t + u) <==> Clean(t) && Clean(u)
    decreases |t|
  {
    if t == [] {
      assert t + u == u;
    } else {
      assert (t + u)[1..] == t[1..] + u;
      CleanAppend(t[1..], u);
    }
  }

  lemma {:induction false} SubstituteLiteral(s: string, text: string, values: seq<string>)
    requires '%' !in s
    ensures Substitute(s + text, values) == Prepend(s, Substitute(text, values))
    decreases |s|
  {
    var rest := Substitute(text, values);
    if s == "" {
      assert s + text == text;
      if rest.Some? { assert "" + rest.value == rest.value; }
    } else {
      assert s[0] in s;
      assert (s + text)[1..] == s[1..] + text && (s + text)[..1] == s[..1];
      SubstituteLiteral(s[1..], text, values);
      if rest.Some? { assert s[..1] + (s[1..] + rest.value) == s + rest.value; }
    }
  }

  lemma {:induction false} SubstituteIsFill(t: Tokens, ps: seq<Param>, show: Show)
    requires Clean(t)
    ensures Substitute(Characters(t), Shows(ps, show)) == Fill(t, ps, show)
    decreases |t|
  {
    if t == [] {
    } else {
      if t[0].Hole? {
        var text := Characters(t);
        assert text[0] == '%' && text[1] == 's' && text[2..] == Characters(t[1..]);
        if ps != [] {
          SubstituteIsFill(t[1..], ps[1..], show);
          assert Shows(ps, show)[1..] == Shows(ps[1..], show);
        }
      } else {
        SubstituteLiteral(t[0].text, Characters(t[1..]), Shows(ps, show));
        SubstituteIsFill(t[1..], ps, show);
      }
    }
  }

  // The converse, by counting characters.

  function Percents(s: string): nat {
    if s == "" then 0 else (if s[0] == '%' then 1 else 0) + Percents(s[1..])
  }

  lemma {:induction false} PercentsAppend(a: string, b: string)
    ensures Percents(a + b) == Percents(a) + Percents(b)
    decreases |a|
  {
    if a == "" {
      assert a + b == b;
    } else {
      assert (a + b)[1..] == a[1..] + b;
      PercentsAppend(a[1..], b);
    }
  }

  lemma {:induction false} NoPercents(s: string)
    ensures Percents(s) == 0 <==> '%' !in s
  {
    if s == "" {
    } else {
      NoPercents(s[1..]);
      assert s == s[..1] + s[1..];
    }
  }

  function Total(values: seq<string>): nat {
    if values == [] then 0 else |values[0]| + Total(values[1..])
  }

  /**
   A successful scan: each %s gives way to its value, each %% loses one character, and nothing
   else changes the length.
   */
  lemma {:induction false} SubstituteCounts(text: string, values: seq<string>)
    requires Substitute(text, values).Some?
    ensures var lost := |text| + Total(values) - |Substitute(text, values).value| - 2 * |values|;
      lost >= 0 && Percents(text) == |values| + 2 * lost
    decreases |text|
  {
    if text == "" {
      assert values == [];
    } else if text[0] != '%' {
      SubstituteCounts(text[1..], values);
    } else {
      assert text[1..][1..] == text[2..];
      if text[1] == 's' && values != [] {
        assert Substitute(text, values) == Prepend(values[0], Substitute(text[2..], values[1..]));
        SubstituteCounts(text[2..], values[1..]);
      } else {
        SubstituteCounts(text[2..], values);
      }
    }
  }

  function Length(t: Tokens): nat {
    if t == [] then 0 else (if t[0].Lit? then |t[0].text| else 0) + Length(t[1..])
  }

  function LiteralPercents(t: Tokens): nat {
    if t == [] then 0 else (if t[0].Lit? then Percents(t[0].text) else 0) + LiteralPercents(t[1..])
  }

  lemma {:induction false} CleanIffNoPercents(t: Tokens)
    ensures Clean(t) <==> LiteralPercents(t) == 0
  {
    if t == [] {
    } else {
      CleanIffNoPercents(t[1..]);
      if t[0].Lit? { NoPercents(t[0].text); }
    }
  }

  /** The lengths of what is sent and of what should come out. */
  lemma {:induction false} FillCounts(t: Tokens, ps: seq<Param>, show: Show)
    requires Fill(t, ps, show).Some?
    ensures |Fill(t, ps, show).value| == Length(t) + Total(Shows(ps, show))
    ensures |Characters(t)| == Length(t) + 2 * |ps|
    ensures Percents(Characters(t)) == LiteralPercents(t) + |ps|
    decreases |t|
  {
    if t == [] {
      assert ps == [];
    } else if t[0].Hole? {
      FillCounts(t[1..], ps[1..], show);
      assert Shows(ps, show)[1..] == Shows(ps[1..], show);
      PercentsAppend("%s", Characters(t[1..]));
      assert Percents("%s") == 1 by { assert "%s"[1..] == "s" && "s"[1..] == ""; }
    } else {
      FillCounts(t[1..], ps, show);
      PercentsAppend(t[0].text, Characters(t[1..]));
    }
  }

  lemma {:induction false} ShowsLength(ps: seq<Param>, show: Show)
    ensures |Shows(ps, show)| == |ps|
  {
    if ps == [] {
    } else {
      ShowsLength(ps[1..], show);
    }
  }

  lemma CleanIfSubstituted(t: Tokens, ps: seq<Param>, show: Show)
    requires Fill(t, ps, show).Some?
    requires Substitute(Characters(t), Shows(ps, show)) == Fill(t, ps, show)
    ensures Clean(t)
  {
    ShowsLength(ps, show);
    FillCounts(t, ps, show);
    SubstituteCounts(Characters(t), Shows(ps, show));
    CleanIffNoPercents(t);
  }

  /**
   For tokens and parameters that fit and any way of showing values: scanning the characters
   does what filling the tokens does if and only if no literal text holds a percent sign.
   */
  lemma SubstituteIsFillIff(t: Tokens, ps: seq<Param>, show: Show)
    requires Fill(t, ps, show).Some?
    ensures Substitute(Characters(t), Shows(ps, show)) == Fill(t, ps, show) <==> Clean(t)
  {
    if Clean(t) {
      SubstituteIsFill(t, ps, show);
    } else if Substitute(Characters(t), Shows(ps, show)) == Fill(t, ps, show) {
      CleanIfSubstituted(t, ps, show);
    }
  }

  // The names of a query.

  predicate FieldClean(f: Field) {
    NoPercent(f.table) && NoPercent(f.column) && (f.fn.Some? ==> NoPercent(f.fn.value))
  }

  predicate FieldsClean(fs: seq<Field>) {
    forall f :: f in fs ==> FieldClean(f)
  }

  predicate OrdersClean(os: seq<(Field, Order)>) {
    forall o :: o in os ==> FieldClean(o.0)
  }

  /** No table, column or function name that is rendered holds a percent sign. */
  predicate QueryClean(q: QueryTree) {
    && NoPercent(q.table) && FieldsClean(q.select) && JoinsClean(q.joins) && WheresClean(q.where)
    && FieldsClean(q.group) && WheresClean(q.having) && OrdersClean(q.order)
  }

  predicate JoinsClean(js: seq<JoinTree>) {
    forall j :: j in js ==> NoPercent(j.table) && WheresClean(j.where)
  }

  predicate WheresClean(ws: seq<Where>) {
    forall w :: w in ws ==> WhereClean(w)
  }

  predicate WhereClean(w: Where) {
    OperandClean(w.field) && (IsNullTest(w.operator) || OperandClean(w.value))
  }

  predicate OperandClean(o: Operand) {
    match o
    case OfField(f) => FieldClean(f)
    case OfValue(v) => v.fn.Some? ==> NoPercent(v.fn.value)
    case OfQuery(q) => (q.fn.Some? ==> NoPercent(q.fn.value)) && QueryClean(q)
  }

  lemma FieldTextClean(f: Field)
    ensures NoPercent(FieldText(f)) <==> FieldClean(f)
  {
    var name := f.table + "." + f.column;
    assert NoPercent(name) <==> NoPercent(f.table) && NoPercent(f.column);
    if Given(f.fn) {
      assert NoPercent(f.fn.value + "(" + name + ")") <==> NoPercent(f.fn.value) && NoPercent(name);
    }
  }

  lemma {:induction false} JoinedClean(parts: seq<string>, sep: string)
    requires NoPercent(sep)
    ensures NoPercent(Joined(parts, sep)) <==> forall p :: p in parts ==> NoPercent(p)
  {
    if |parts| == 1 {
      assert parts == [parts[0]];
    } else if parts != [] {
      JoinedClean(parts[1..], sep);
      assert NoPercent(parts[0] + sep + Joined(parts[1..], sep))
        <==> NoPercent(parts[0]) && NoPercent(Joined(parts[1..], sep));
      assert forall p :: p in parts <==> p == parts[0] || p in parts[1..];
    }
  }

  lemma FieldNamesClean(fs: seq<Field>)
    ensures NoPercent(Joined(FieldNames(fs), ",")) <==> FieldsClean(fs)
  {
    JoinedClean(FieldNames(fs), ",");
    forall i | 0 <= i < |fs| ensures NoPercent(FieldNames(fs)[i]) <==> FieldClean(fs[i]) {
      FieldTextClean(fs[i]);
    }
    assert forall i :: 0 <= i < |fs| ==> FieldNames(fs)[i] in FieldNames(fs) && fs[i] in fs;
  }

  lemma OrderTextClean(o: Order)
    ensures NoPercent(OrderText(o))
  {
  }

  lemma JoinTypeTextClean(j: JoinType)
    ensures NoPercent(JoinTypeText(j))
  {
  }

  lemma OperatorTextClean(o: Operator)
    ensures NoPercent(OperatorText(o))
  {
  }

  lemma Surrounded(a: string, b: string, c: string)
    requires NoPercent(b)
    ensures NoPercent(a + b + c) <==> NoPercent(a) && NoPercent(c)
  {
  }

  lemma OrderNameClean(o: (Field, Order))
    ensures NoPercent(FieldText(o.0) + " " + OrderText(o.1)) <==> FieldClean(o.0)
  {
    FieldTextClean(o.0);
    OrderTextClean(o.1);
    Surrounded(FieldText(o.0), " ", OrderText(o.1));
  }

  lemma OrderNamesClean(os: seq<(Field, Order)>)
    ensures NoPercent(Joined(OrderNames(os), ",")) <==> OrdersClean(os)
  {
    JoinedClean(OrderNames(os), ",");
    forall i | 0 <= i < |os| ensures NoPercent(OrderNames(os)[i]) <==> FieldClean(os[i].0) {
      OrderNameClean(os[i]);
    }
    assert forall i :: 0 <= i < |os| ==> OrderNames(os)[i] in OrderNames(os) && os[i] in os;
  }

  predicate TextClean(t: Option<Tokens>) {
    t.Some? ==> Clean(t.value)
  }

  lemma ThenClean(a: Option<Tokens>, b: Option<Tokens>)
    requires Then(a, b).Some?
    ensures TextClean(Then(a, b)) <==> TextClean(a) && TextClean(b)
  {
    CleanAppend(a.value, b.value);
  }

  lemma LitClean(s: string)
    ensures TextClean(Some([Lit(s)])) <==> NoPercent(s)
  {
    var t: Tokens := [Lit(s)];
    assert t[1..] == [] && Clean(t[1..]);
  }

  lemma HoleClean()
    ensures Clean([Hole])
  {
    assert [Hole][1..] == [];
  }

  lemma ValueTextClean(v: Value)
    ensures Clean(ValueText(v)) <==> v.fn.Some? ==> NoPercent(v.fn.value)
  {
    var t := ValueText(v);
    if Given(v.fn) {
      var open, close: Tokens := [Lit(v.fn.value + "(")], [Lit(")")];
      assert t == open + ([Hole] + close);
      LitClean(v.fn.value + "(");
      LitClean(")");
      CleanAppend([Hole], close);
      CleanAppend(open, [Hole] + close);
      assert NoPercent(v.fn.value + "(") <==> NoPercent(v.fn.value);
    }
    HoleClean();
  }

  lemma {:induction false} OperandCleanIff(o: Operand)
    requires OperandText(o).Some?
    ensures TextClean(OperandText(o)) <==> OperandClean(o)
    decreases o
  {
    match o
    case OfField(f) =>
      FieldTextClean(f);
      LitClean(FieldText(f));
    case OfValue(v) =>
      ValueTextClean(v);
    case OfQuery(q) =>
      var open := if Given(q.fn) then q.fn.value + "(" else "(";
      QueryCleanIff(q);
      LitClean(open);
      LitClean(")");
      ThenClean(QueryText(q), Some([Lit(")")]));
      ThenClean(Some([Lit(open)]), Then(QueryText(q), Some([Lit(")")])));
  }

  lemma {:induction false} WhereCleanIff(w: Where)
    requires WhereText(w).Some?
    ensures TextClean(WhereText(w)) <==> WhereClean(w)
    decreases w
  {
    var operator := Some([Lit(OperatorText(w.operator))]);
    LitClean(OperatorText(w.operator));
    OperatorTextClean(w.operator);
    OperandCleanIff(w.field);
    if IsNullTest(w.operator) {
      ThenClean(OperandText(w.field), operator);
    } else {
      OperandCleanIff(w.value);
      ThenClean(operator, OperandText(w.value));
      ThenClean(OperandText(w.field), Then(operator, OperandText(w.value)));
    }
  }

  lemma {:induction false} WheresCleanIff(ws: seq<Where>)
    requires WheresText(ws).Some?
    ensures TextClean(WheresText(ws)) <==> WheresClean(ws)
    decreases ws, 0
  {
    if |ws| == 1 {
      WhereCleanIff(ws[0]);
      assert ws == [ws[0]];
    } else if ws != [] {
      WhereCleanIff(ws[0]);
      WheresCleanIff(ws[1..]);
      LitClean(" AND ");
      ThenClean(Some([Lit(" AND ")]), WheresText(ws[1..]));
      ThenClean(WhereText(ws[0]), Then(Some([Lit(" AND ")]), WheresText(ws[1..])));
      assert forall w :: w in ws <==> w == ws[0] || w in ws[1..];
    }
  }

  lemma {:induction false} WhereClauseCleanIff(keyword: string, ws: seq<Where>)
    requires WhereClause(keyword, ws).Some? && NoPercent(keyword)
    ensures TextClean(WhereClause(keyword, ws)) <==> WheresClean(ws)
    decreases ws, 1
  {
    if ws != [] {
      WheresCleanIff(ws);
      LitClean(keyword);
      ThenClean(Some([Lit(keyword)]), WheresText(ws));
    }
  }

  lemma {:induction false} JoinCleanIff(j: JoinTree)
    requires JoinText(j).Some?
    ensures TextClean(JoinText(j)) <==> NoPercent(j.table) && WheresClean(j.where)
    decreases j
  {
    var before := JoinTypeText(j.joinType) + " " + j.table;
    WheresCleanIff(j.where);
    LitClean(before + " ON ");
    JoinTypeTextClean(j.joinType);
    Surrounded(JoinTypeText(j.joinType), " ", j.table);
    Surrounded(before, " ON ", "");
    assert before + " ON " + "" == before + " ON ";
    var start := before + " ON ";
    ThenClean(Some([Lit(start)]), WheresText(j.where));
  }

  lemma {:induction false} JoinsCleanIff(js: seq<JoinTree>)
    requires JoinsText(js).Some?
    ensures TextClean(JoinsText(js)) <==> JoinsClean(js)
    decreases js
  {
    if js == [] {
    } else {
      JoinCleanIff(js[0]);
      JoinsCleanIff(js[1..]);
      LitClean(" ");
      ThenClean(JoinText(js[0]), JoinsText(js[1..]));
      ThenClean(Some([Lit(" ")]), Then(JoinText(js[0]), JoinsText(js[1..])));
      assert forall j :: j in js <==> j == js[0] || j in js[1..];
    }
  }

  lemma CountClean(keyword: string, n: Option<int>)
    requires NoPercent(keyword)
    ensures Clean(CountClause(keyword, n))
  {
    HoleClean();
    LitClean(keyword);
    CleanAppend([Lit(keyword)], [Hole]);
    assert [Lit(keyword)] + [Hole] == [Lit(keyword), Hole];
  }

  lemma KeywordClean(keyword: string, names: string)
    requires NoPercent(keyword)
    ensures Clean([Lit(keyword + names)]) <==> NoPercent(names)
  {
    assert NoPercent(keyword + names) <==> NoPercent(names);
    LitClean(keyword + names);
  }

  lemma OrderCleanIff(os: seq<(Field, Order)>)
    ensures Clean(OrderClause(os)) <==> OrdersClean(os)
  {
    var names := Joined(OrderNames(os), ",");
    OrderNamesClean(os);
    KeywordClean(" ORDER BY ", names);
  }

  lemma TailCleanIff(q: QueryTree)
    ensures Clean(TailClauses(q)) <==> OrdersClean(q.order)
  {
    var order := OrderClause(q.order);
    var limit, offset := CountClause(" LIMIT ", q.limit), CountClause(" OFFSET ", q.offset);
    OrderCleanIff(q.order);
    CountClean(" LIMIT ", q.limit);
    CountClean(" OFFSET ", q.offset);
    CleanAppend(order + limit, offset);
    CleanAppend(order, limit);
  }

  lemma GroupCleanIff(fs: seq<Field>)
    ensures Clean(GroupClause(fs)) <==> FieldsClean(fs)
  {
    var names := Joined(FieldNames(fs), ",");
    FieldNamesClean(fs);
    KeywordClean(" GROUP BY ", names);
  }

  lemma SelectCleanIff(q: QueryTree)
    ensures Clean(SelectClause(q)) <==> NoPercent(q.table) && FieldsClean(q.select)
  {
    var names := Joined(FieldNames(q.select), ",");
    FieldNamesClean(q.select);
    Surrounded("", "SELECT ", names);
    assert "" + "SELECT " + names == "SELECT " + names;
    Surrounded("SELECT " + names, " FROM ", q.table);
    LitClean("SELECT " + names + " FROM " + q.table);
  }

  lemma SixClean(a: Option<Tokens>, b: Option<Tokens>, c: Option<Tokens>, d: Option<Tokens>, e: Option<Tokens>,
                 f: Option<Tokens>)
    requires Then(a, Then(b, Then(c, Then(d, Then(e, f))))).Some?
    ensures TextClean(Then(a, Then(b, Then(c, Then(d, Then(e, f))))))
       <==> TextClean(a) && TextClean(b) && TextClean(c) && TextClean(d) && TextClean(e) && TextClean(f)
  {
    ThenClean(e, f);
    ThenClean(d, Then(e, f));
    ThenClean(c, Then(d, Then(e, f)));
    ThenClean(b, Then(c, Then(d, Then(e, f))));
    ThenClean(a, Then(b, Then(c, Then(d, Then(e, f)))));
  }

  /** The text of a query is clean when the text of each clause is. */
  lemma ClausesClean(q: QueryTree)
    requires QueryText(q).Some?
    ensures JoinsText(q.joins).Some? && WhereClause(" WHERE ", q.where).Some? && WhereClause(" HAVING ", q.having).Some?
    ensures TextClean(QueryText(q))
       <==> && Clean(SelectClause(q)) && TextClean(JoinsText(q.joins)) && TextClean(WhereClause(" WHERE ", q.where))
            && Clean(GroupClause(q.group)) && TextClean(WhereClause(" HAVING ", q.having)) && Clean(TailClauses(q))
  {
    SixClean(Some(SelectClause(q)), JoinsText(q.joins), WhereClause(" WHERE ", q.where), Some(GroupClause(q.group)),
             WhereClause(" HAVING ", q.having), Some(TailClauses(q)));
  }

  /** The literal text of a query is free of percent signs exactly when its names are. */
  lemma {:induction false} QueryCleanIff(q: QueryTree)
    requires QueryText(q).Some?
    ensures TextClean(QueryText(q)) <==> QueryClean(q)
    decreases q
  {
    ClausesClean(q);
    SelectCleanIff(q);
    JoinsCleanIff(q.joins);
    WhereClauseCleanIff(" WHERE ", q.where);
    GroupCleanIff(q.group);
    WhereClauseCleanIff(" HAVING ", q.having);
    TailCleanIff(q);
  }

  // The built query.

  /** Sending what `build` returns gives the inline query, for one way of showing values. */
  ghost predicate SendsInline(q: QueryTree, show: Show) {
    && QueryText(q).Some? && QueryParams(q).Some?
    && Substitute(Characters(QueryText(q).value + [Lit(";")]), Shows(QueryParams(q).value, show))
       == Some(ShowQuery(q, show) + ";")
  }

  lemma BuiltFills(q: QueryTree, show: Show)
    requires QueryText(q).Some?
    ensures QueryParams(q).Some?
    ensures Fill(QueryText(q).value + [Lit(";")], QueryParams(q).value, show) == Some(ShowQuery(q, show) + ";")
  {
    QueryAgrees(q, show);
    AgreeAround(";", QueryText(q), QueryParams(q), ShowQuery(q, show), show);
  }

  lemma WithSemicolonClean(t: Tokens)
    ensures Clean(t + [Lit(";")]) <==> Clean(t)
  {
    CleanAppend(t, [Lit(";")]);
    LitClean(";");
  }

  /**
   Whatever way of showing values the driver uses: what `build` returns gives the inline query
   if and only if no rendered table, column or function name holds a percent sign.
   */
  lemma BuiltQuerySubstitutesIff(q: QueryTree, show: Show)
    requires WellFormed(q)
    ensures SendsInline(q, show) <==> QueryClean(q)
  {
    QueryBuilds(q);
    BuiltFills(q, show);
    SubstituteIsFillIff(QueryText(q).value + [Lit(";")], QueryParams(q).value, show);
    WithSemicolonClean(QueryText(q).value);
    QueryCleanIff(q);
  }
}

/**
 The query builder objects: a query, whose methods append to its lists, the joins it refers to,
 and the two walks over them.
 */
module SqlQuery {
  import opened Prelude
  import opened SqlTree
  import opened SqlTheorems
  import Driver = SqlDriver
  import Reader = SqlReader
  import ReadBack = SqlReadBack

  class Join {
    const joinType: JoinType
    const table: string
    var where: seq<SqlTree.Where>

    function Tree(): JoinTree
      reads this
    {
      JoinTree(joinType, table, where)
    }

    constructor (joinType: JoinType, table: string)
      ensures Tree() == JoinTree(joinType, table, [])
    {
      this.joinType, this.table, where := joinType, table, [];
    }

    method Where(ws: seq<SqlTree.Where>)
      modifies this`where
      ensures Tree() == old(Tree()).(where := old(where) + ws)
    {
      for i := 0 to |ws|
        invariant where == old(where) + ws[..i]
      {
        where := where + [ws[i]];
      }
    }
  }

  /** The joins as they are now. */
  function Trees(js: seq<Join>): (trees: seq<JoinTree>)
    reads js
    ensures |trees| == |js|
  {
    if js == [] then [] else [js[0].Tree()] + Trees(js[1..])
  }

  lemma {:induction false} TreesAppend(a: seq<Join>, b: seq<Join>)
    ensures Trees(a + b) == Trees(a) + Trees(b)
    decreases |a|
  {
    if a == [] {
      assert a + b == b;
    } else {
      assert (a + b)[1..] == a[1..] + b;
      TreesAppend(a[1..], b);
    }
  }

  lemma {:induction false} TreesAt(js: seq<Join>, i: nat)
    requires i < |js|
    ensures Trees(js)[i] == js[i].Tree()
    decreases |js|
  {
    if i == 0 {
    } else {
      TreesAt(js[1..], i - 1);
    }
  }

  lemma NextJoin(js: seq<Join>)
    requires js != []
    ensures JoinsParams(Trees(js)) == Both(WheresParams(js[0].where), JoinsParams(Trees(js[1..])))
  {
    assert Trees(js)[1..] == Trees(js[1..]);
  }

  class Query {
    const table: string
    var joins: seq<Join>
    var select: seq<Field>
    var where: seq<Where>
    var having: seq<Where>
    var group: seq<Field>
    var order: seq<(Field, Order)>
    var limit: Option<int>
    var offset: Option<int>
    var fn: Option<string>

    /** The tree that has been built so far, with the joins as they are now. */
    function Tree(): QueryTree
      reads this, joins
    {
      QueryTree(table, Trees(joins), select, where, having, group, order, limit, offset, fn)
    }

    constructor (table: string)
      ensures Tree() == QueryTree(table, [], [], [], [], [], [], None, None, None)
    {
      this.table := table;
      joins, select, where, having, group, order := [], [], [], [], [], [];
      limit, offset, fn := None, None, None;
    }

    method Select(fields: seq<Field>)
      modifies this`select
      ensures Tree() == old(Tree()).(select := old(select) + fields)
    {
      for i := 0 to |fields|
        invariant select == old(select) + fields[..i]
      {
        select := select + [fields[i]];
      }
    }

    /** The query refers to the joins themselves, so a condition that one gets later is seen. */
    method Join(js: seq<Join>)
      modifies this`joins
      ensures joins == old(joins) + js
      ensures Tree() == old(Tree()).(joins := old(Tree()).joins + Trees(js))
    {
      for i := 0 to |js|
        invariant joins == old(joins) + js[..i]
      {
        joins := joins + [js[i]];
      }
      assert js[..|js|] == js;
      TreesAppend(old(joins), js);
    }

    method Where(ws: seq<SqlTree.Where>)
      modifies this`where
      ensures Tree() == old(Tree()).(where := old(where) + ws)
    {
      for i := 0 to |ws|
        invariant where == old(where) + ws[..i]
      {
        where := where + [ws[i]];
      }
    }

    method Having(hs: seq<SqlTree.Where>)
      modifies this`having
      ensures Tree() == old(Tree()).(having := old(having) + hs)
    {
      for i := 0 to |hs|
        invariant having == old(having) + hs[..i]
      {
        having := having + [hs[i]];
      }
    }

    method Group(fields: seq<Field>)
      modifies this`group
      ensures Tree() == old(Tree()).(group := old(group) + fields)
    {
      for i := 0 to |fields|
        invariant group == old(group) + fields[..i]
      {
        group := group + [fields[i]];
      }
    }

    method OrderBy(field: Field, direction: Order)
      modifies this`order
      ensures Tree() == old(Tree()).(order := old(order) + [(field, direction)])
    {
      order := order + [(field, direction)];
    }

    /** False stands for a failed assertion. */
    method Limit(records: int) returns (ok: bool)
      modifies this`limit
      ensures ok <==> records > 0
      ensures Tree() == if ok then old(Tree()).(limit := Some(records)) else old(Tree())
    {
      ok := records > 0;
      if ok { limit := Some(records); }
    }

    method Offset(records: int) returns (ok: bool)
      modifies this`offset
      ensures ok <==> records > 0
      ensures Tree() == if ok then old(Tree()).(offset := Some(records)) else old(Tree())
    {
      ok := records > 0;
      if ok { offset := Some(records); }
    }

    /** Page numbers start at one and need a limit; page p skips the p-1 pages before it. */
    method Page(page: int) returns (ok: bool)
      modifies this`offset
      ensures ok <==> page > 0 && limit.Some? && limit.value > 0
      ensures Tree() == if ok then old(Tree()).(offset := Some(limit.value * (page - 1))) else old(Tree())
    {
      ok := page > 0 && limit.Some? && limit.value > 0;
      if ok { offset := Some(limit.value * (page - 1)); }
    }

    method Function(name: string)
      modifies this`fn
      ensures Tree() == old(Tree()).(fn := Some(name))
    {
      fn := Some(name);
    }

    /** The text, clause by clause. */
    method BuildQuery() returns (r: Option<Tokens>)
      ensures r == QueryText(Tree())
    {
      if select == [] {
        return None;
      }
      ghost var r4 := Some(TailClauses(Tree()));
      ghost var r3 := Then(WhereClause(" HAVING ", having), r4);
      ghost var r2 := Then(Some(GroupClause(group)), r3);
      ghost var r1 := Then(WhereClause(" WHERE ", where), r2);
      var query := SelectClause(Tree());
      ThenAppend(query, JoinsText(Trees(joins)), r1);
      if joins != [] {
        var t := JoinsText(Trees(joins));
        if t.None? { return None; }
        query := query + t.value;
      }
      ThenAppend(query, WhereClause(" WHERE ", where), r2);
      if where != [] {
        var t := WhereClause(" WHERE ", where);
        if t.None? { return None; }
        query := query + t.value;
      }
      ThenAppend(query, Some(GroupClause(group)), r3);
      if group != [] {
        query := query + GroupClause(group);
      }
      ThenAppend(query, WhereClause(" HAVING ", having), r4);
      if having != [] {
        var t := WhereClause(" HAVING ", having);
        if t.None? { return None; }
        query := query + t.value;
      }
      assert QueryText(Tree()) == Then(Some(query), r4);
      TailAppend(query, Tree());
      if order != [] {
        query := query + OrderClause(order);
      }
      if NonZero(limit) {
        query := query + CountClause(" LIMIT ", limit);
      }
      if NonZero(offset) {
        query := query + CountClause(" OFFSET ", offset);
      }
      return Some(query);
    }

    /** The first of the loops over the lists. */
    method JoinParams() returns (r: Option<seq<Param>>)
      ensures r == JoinsParams(Trees(joins))
    {
      var params := [];
      BothAppend(params, Some([]), JoinsParams(Trees(joins)));
      assert joins[0..] == joins;
      for i := 0 to |joins|
        invariant JoinsParams(Trees(joins)) == Both(Some(params), JoinsParams(Trees(joins[i..])))
      {
        var p := WheresParams(joins[i].where);
        assert joins[i..][1..] == joins[i + 1..];
        NextJoin(joins[i..]);
        BothAppend(params, p, JoinsParams(Trees(joins[i + 1..])));
        if p.None? { return None; }
        params := params + p.value;
      }
      assert params + [] == params;
      return Some(params);
    }

    /** The parameters, list by list. */
    method Params() returns (r: Option<seq<Param>>)
      ensures r == QueryParams(Tree())
    {
      if select == [] {
        return None;
      }
      ghost var all := QueryParams(Tree());
      ghost var r3 := Some(CountParams(limit) + CountParams(offset));
      ghost var r2 := Both(WheresParams(having), r3);
      ghost var r1 := Both(WheresParams(where), r2);
      var params := [];
      var p := JoinParams();
      BothAppend(params, p, r1);
      BothAppend(params, Some([]), all);
      if p.None? { return None; }
      params := params + p.value;
      BothAppend(params, Some([]), r1);
      assert where[0..] == where;
      for i := 0 to |where|
        invariant all == Both(Some(params), Both(WheresParams(where[i..]), r2))
      {
        var p := WhereParams(where[i]);
        assert where[i..][1..] == where[i + 1..];
        BothShift(params, p, WheresParams(where[i + 1..]), r2);
        if p.None? { return None; }
        params := params + p.value;
      }
      BothAppend(params, Some([]), r2);
      assert having[0..] == having;
      for i := 0 to |having|
        invariant all == Both(Some(params), Both(WheresParams(having[i..]), r3))
      {
        var p := WhereParams(having[i]);
        assert having[i..][1..] == having[i + 1..];
        BothShift(params, p, WheresParams(having[i + 1..]), r3);
        if p.None? { return None; }
        params := params + p.value;
      }
      BothAppend(params, Some([]), r3);
      assert all == Some(params + (CountParams(limit) + CountParams(offset)));
      CountsAppend(params, limit, offset);
      if NonZero(limit) {
        params := params + [Number(limit.value)];
      }
      if NonZero(offset) {
        params := params + [Number(offset.value)];
      }
      return Some(params);
    }

    /** Text and parameters together; an AssertionError when the text cannot be built. */
    method Build() returns (r: Option<(Tokens, seq<Param>)>)
      ensures r.Some? <==> WellFormed(Tree())
      ensures r.Some? ==>
        && Some(r.value.1) == QueryParams(Tree())
        && forall show: Show :: Fill(r.value.0, r.value.1, show) == Some(ShowQuery(Tree(), show) + ";")
      ensures r.Some? && ReadBack.PlainQuery(Tree()) ==>
        Reader.Read(Driver.Characters(r.value.0), r.value.1) == Some(ReadBack.Seen(Tree()))
    {
      QueryBuilds(Tree());
      var text := BuildQuery();
      if text.None? { return None; }
      var params := Params();
      QueryAgrees(Tree(), p => "");
      if ReadBack.PlainQuery(Tree()) {
        ReadBack.BuiltReadsBack(Tree());
      }
      forall show: Show
        ensures Fill(text.value + [Lit(";")], params.value, show) == Some(ShowQuery(Tree(), show) + ";")
      {
        QueryAgrees(Tree(), show);
        AgreeAround(";", text, params, ShowQuery(Tree(), show), show);
      }
      return Some((text.value + [Lit(";")], params.value));
    }
  }

  /** In every state a query shows its joins as they are then, also what they got after they were added. */
  lemma JoinIsSeen(q: Query, i: nat)
    requires i < |q.joins|
    ensures q.Tree().joins[i] == JoinTree(q.joins[i].joinType, q.joins[i].table, q.joins[i].where)
  {
    TreesAt(q.joins, i);
  }

  lemma ThenAppend(query: Tokens, t: Option<Tokens>, rest: Option<Tokens>)
    ensures Then(Some(query), Then(t, rest)) == if t.None? then None else Then(Some(query + t.value), rest)
    ensures t == Some([]) ==> Then(Some(query), Then(t, rest)) == Then(Some(query), rest)
  {
    if t.Some? && rest.Some? {
      assert query + (t.value + rest.value) == query + t.value + rest.value;
      assert query + [] == query;
    }
  }

  lemma TailAppend(query: Tokens, q: QueryTree)
    ensures query + TailClauses(q)
         == query + OrderClause(q.order) + CountClause(" LIMIT ", q.limit) + CountClause(" OFFSET ", q.offset)
    ensures query + [] == query
    ensures query + OrderClause(q.order) + [] == query + OrderClause(q.order)
    ensures query + OrderClause(q.order) + CountClause(" LIMIT ", q.limit) + []
         == query + OrderClause(q.order) + CountClause(" LIMIT ", q.limit)
  {
  }

  lemma BothAppend(params: seq<Param>, p: Option<seq<Param>>, rest: Option<seq<Param>>)
    ensures Both(Some(params), Both(p, rest)) == if p.None? then None else Both(Some(params + p.value), rest)
    ensures p == Some([]) ==> Both(Some(params), Both(p, rest)) == Both(Some(params), rest)
    ensures params == [] ==> Both(Some(params), rest) == rest
  {
    if rest.Some? {
      assert [] + rest.value == rest.value;
      if p.Some? {
        assert params + (p.value + rest.value) == params + p.value + rest.value;
        assert params + [] == params;
      }
    }
  }

  lemma CountsAppend(params: seq<Param>, limit: Option<int>, offset: Option<int>)
    ensures params + (CountParams(limit) + CountParams(offset))
         == params + CountParams(limit) + CountParams(offset)
    ensures params + [] == params
    ensures params + CountParams(limit) + [] == params + CountParams(limit)
  {
  }

  lemma BothShift(params: seq<Param>, p: Option<seq<Param>>, q: Option<seq<Param>>, rest: Option<seq<Param>>)
    ensures Both(Some(params), Both(Both(p, q), rest))
         == if p.None? then None else Both(Some(params + p.value), Both(q, rest))
  {
    if p.Some? && q.Some? && rest.Some? {
      assert params + (p.value + q.value + rest.value) == params + p.value + (q.value + rest.value);
    }
  }
}

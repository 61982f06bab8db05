/**
 The inventory page's query: a base `SELECT` extended with one `AND` clause per
 non-empty filter, user values bound only as parameters, and an `ORDER BY`
 appended only for a whitelisted column. Modelled three ways: the builder
 (text and parameters, step by step as the handler assembles them), the clause
 list the text is made of together with an evaluator that binds the parameters
 positionally, and the row predicate the query is meant to denote.
 */
module Inventory {

  import opened Nullable
  import opened Text
  import opened Library

  /** The request arguments, after their defaults. */
  datatype Filters = Filters(search: string, category: string, language: string, sortBy: string)

  /** `request.args.get(key, default)`. */
  function ArgOr(args: map<string, string>, key: string, default: string): string {
    if key in args then args[key] else default
  }

  /** The filters the handler reads: absent filters are empty, an absent sort is `title`. */
  function ReadFilters(args: map<string, string>): (f: Filters)
    ensures "q" !in args ==> f.search == ""
    ensures "category" !in args ==> f.category == ""
    ensures "language" !in args ==> f.language == ""
    ensures "sort" !in args ==> f.sortBy == "title"
    ensures "q" in args ==> f.search == args["q"]
    ensures "category" in args ==> f.category == args["category"]
    ensures "language" in args ==> f.language == args["language"]
    ensures "sort" in args ==> f.sortBy == args["sort"]
  {
    Filters(ArgOr(args, "q", ""), ArgOr(args, "category", ""), ArgOr(args, "language", ""), ArgOr(args, "sort", "title"))
  }

  const BaseQuery: string := "SELECT * FROM books WHERE 1=1"
  const Placeholder: string := "?"
  const SearchText: string :=
    SearchPrefix + Placeholder + " OR author LIKE " + Placeholder + " OR isbn LIKE " + Placeholder + ")"
  const SearchPrefix: string := " AND (title LIKE "
  const CategoryText: string := " AND category = " + Placeholder
  const LanguageText: string := " AND language = " + Placeholder
  const OrderByText: string := " ORDER BY "

  /** The only columns the handler lets into `ORDER BY`. */
  const ValidSorts: seq<string> := ["title", "author", "category", "rating", "publication_year"]

  /** Query text and its bound parameters. */
  datatype Query = Query(sql: string, params: seq<string>)

  function AddSearch(q: Query, search: string): Query {
    if search != "" then
      Query(q.sql + SearchText, q.params + [Pattern(search), Pattern(search), Pattern(search)])
    else q
  }

  function AddCategory(q: Query, category: string): Query {
    if category != "" then Query(q.sql + CategoryText, q.params + [category]) else q
  }

  function AddLanguage(q: Query, language: string): Query {
    if language != "" then Query(q.sql + LanguageText, q.params + [language]) else q
  }

  function AddSort(q: Query, sortBy: string): Query {
    if sortBy in ValidSorts then Query(q.sql + OrderByText + sortBy, q.params) else q
  }

  /** The query the inventory handler sends to the database. */
  function BuildQuery(f: Filters): Query {
    AddSort(AddLanguage(AddCategory(AddSearch(Query(BaseQuery, []), f.search), f.category), f.language), f.sortBy)
  }

  // ----- the clause structure of the text -----

  /** The `AND` clauses the handler can append. */
  datatype Clause = TextSearch | CategoryEquals | LanguageEquals

  function ClauseText(c: Clause): string {
    match c
    case TextSearch => SearchText
    case CategoryEquals => CategoryText
    case LanguageEquals => LanguageText
  }

  /** Placeholders a clause carries. */
  function Arity(c: Clause): nat {
    match c
    case TextSearch => 3
    case CategoryEquals => 1
    case LanguageEquals => 1
  }

  function TotalArity(cs: seq<Clause>): nat {
    if |cs| == 0 then 0 else Arity(cs[0]) + TotalArity(cs[1..])
  }

  function SearchClauses(search: string): seq<Clause> {
    if search != "" then [TextSearch] else []
  }

  function CategoryClauses(category: string): seq<Clause> {
    if category != "" then [CategoryEquals] else []
  }

  function LanguageClauses(language: string): seq<Clause> {
    if language != "" then [LanguageEquals] else []
  }

  /** The clauses a filter set calls for, in the order the handler appends them. */
  function Clauses(f: Filters): seq<Clause> {
    SearchClauses(f.search) + CategoryClauses(f.category) + LanguageClauses(f.language)
  }

  /** The text after appending the clauses `cs`, left to right, to `sql`. */
  function Append(sql: string, cs: seq<Clause>): string
    decreases |cs|
  {
    if |cs| == 0 then sql else Append(sql + ClauseText(cs[0]), cs[1..])
  }

  /** The `ORDER BY` column the handler accepts, if any. */
  function OrderColumn(sortBy: string): Option<string> {
    if sortBy in ValidSorts then Some(sortBy) else None
  }

  function OrderSuffix(sortBy: string): string {
    match OrderColumn(sortBy)
    case Some(col) => OrderByText + col
    case None => ""
  }

  lemma {:induction false} TotalArityConcat(a: seq<Clause>, b: seq<Clause>)
    ensures TotalArity(a + b) == TotalArity(a) + TotalArity(b)
  {
    if |a| == 0 {
      assert a + b == b;
    } else {
      assert (a + b)[0] == a[0];
      assert (a + b)[1..] == a[1..] + b;
      TotalArityConcat(a[1..], b);
    }
  }

  lemma {:induction false} AppendConcat(sql: string, a: seq<Clause>, b: seq<Clause>)
    ensures Append(sql, a + b) == Append(Append(sql, a), b)
    decreases |a|
  {
    if |a| == 0 {
      assert a + b == b;
    } else {
      assert (a + b)[0] == a[0];
      assert (a + b)[1..] == a[1..] + b;
      AppendConcat(sql + ClauseText(a[0]), a[1..], b);
    }
  }

  /**
   The handler's text is the base query, then one clause per non-empty filter
   in the order search, category, language, then the order suffix; it binds one
   parameter per placeholder of those clauses.
   */
  lemma QueryTextIsClauses(f: Filters)
    ensures BuildQuery(f).sql == Append(BaseQuery, Clauses(f)) + OrderSuffix(f.sortBy)
    ensures |BuildQuery(f).params| == TotalArity(Clauses(f))
  {
    var s := SearchClauses(f.search);
    var c := CategoryClauses(f.category);
    var l := LanguageClauses(f.language);
    AppendConcat(BaseQuery, s + c, l);
    AppendConcat(BaseQuery, s, c);
    TotalArityConcat(s + c, l);
    TotalArityConcat(s, c);
    var q1 := AddSearch(Query(BaseQuery, []), f.search);
    var q2 := AddCategory(q1, f.category);
    var q3 := AddLanguage(q2, f.language);
    assert q1.sql == Append(BaseQuery, s) && |q1.params| == TotalArity(s);
    assert q2.sql == Append(q1.sql, c) && |q2.params| == |q1.params| + TotalArity(c);
    assert q3.sql == Append(q2.sql, l) && |q3.params| == |q2.params| + TotalArity(l);
  }

  // ----- placeholders and parameters -----

  /** Text with one placeholder between two placeholder-free pieces holds one `?`. */
  lemma OnePlaceholder(a: string, b: string)
    requires '?' !in a && '?' !in b
    ensures CountChar(a + Placeholder + b, '?') == 1
  {
    CountCharConcat(a, Placeholder, '?');
    CountCharConcat(a + Placeholder, b, '?');
  }

  /** Text with three placeholders between placeholder-free pieces holds three `?`. */
  lemma ThreePlaceholders(a: string, b: string, c: string, d: string)
    requires '?' !in a && '?' !in b && '?' !in c && '?' !in d
    ensures CountChar(a + Placeholder + b + Placeholder + c + Placeholder + d, '?') == 3
  {
    CountCharConcat(a, Placeholder, '?');
    CountCharConcat(a + Placeholder, b, '?');
    CountCharConcat(a + Placeholder + b, Placeholder, '?');
    CountCharConcat(a + Placeholder + b + Placeholder, c, '?');
    CountCharConcat(a + Placeholder + b + Placeholder + c, Placeholder, '?');
    CountCharConcat(a + Placeholder + b + Placeholder + c + Placeholder, d, '?');
  }

  /** The base query binds nothing and has no letter `Y`. */
  lemma BaseQueryFacts()
    ensures '?' !in BaseQuery && 'Y' !in BaseQuery
  {
  }

  /** Each clause text holds one `?` per parameter it binds, and no letter `Y`. */
  lemma ClauseTextFacts(c: Clause)
    ensures CountChar(ClauseText(c), '?') == Arity(c)
    ensures 'Y' !in ClauseText(c)
  {
    match c
    case TextSearch =>
      ThreePlaceholders(SearchPrefix, " OR author LIKE ", " OR isbn LIKE ", ")");
    case CategoryEquals =>
      OnePlaceholder(" AND category = ", "");
      assert " AND category = " + Placeholder + "" == CategoryText;
    case LanguageEquals =>
      OnePlaceholder(" AND language = ", "");
      assert " AND language = " + Placeholder + "" == LanguageText;
  }

  lemma {:induction false} AppendPlaceholders(sql: string, cs: seq<Clause>)
    ensures CountChar(Append(sql, cs), '?') == CountChar(sql, '?') + TotalArity(cs)
    decreases |cs|
  {
    if |cs| > 0 {
      ClauseTextFacts(cs[0]);
      CountCharConcat(sql, ClauseText(cs[0]), '?');
      AppendPlaceholders(sql + ClauseText(cs[0]), cs[1..]);
    }
  }

  /** The order suffix binds nothing: whitelisted column names hold no `?`. */
  lemma OrderSuffixHasNoPlaceholder(sortBy: string)
    ensures CountChar(OrderSuffix(sortBy), '?') == 0
  {
  }

  /** Placeholders the clauses of a filter set carry: three for a search, one per other filter. */
  lemma ClausesArity(f: Filters)
    ensures TotalArity(Clauses(f))
            == (if f.search != "" then 3 else 0) + (if f.category != "" then 1 else 0) + (if f.language != "" then 1 else 0)
  {
    TotalArityConcat(SearchClauses(f.search) + CategoryClauses(f.category), LanguageClauses(f.language));
    TotalArityConcat(SearchClauses(f.search), CategoryClauses(f.category));
  }

  /**
   Every `?` in the text has exactly one bound parameter: a search binds three,
   a category or language filter one each, an empty filter none.
   */
  lemma PlaceholdersMatchParams(f: Filters)
    ensures CountChar(BuildQuery(f).sql, '?') == |BuildQuery(f).params|
    ensures |BuildQuery(f).params|
            == (if f.search != "" then 3 else 0) + (if f.category != "" then 1 else 0) + (if f.language != "" then 1 else 0)
  {
    QueryTextIsClauses(f);
    ClausesArity(f);
    OrderSuffixHasNoPlaceholder(f.sortBy);
    BaseQueryFacts();
    TextPlaceholders(BaseQuery, OrderSuffix(f.sortBy), Clauses(f));
  }

  lemma TextPlaceholders(base: string, suffix: string, cs: seq<Clause>)
    requires '?' !in base
    requires CountChar(suffix, '?') == 0
    ensures CountChar(Append(base, cs) + suffix, '?') == TotalArity(cs)
  {
    AppendPlaceholders(base, cs);
    CountCharConcat(Append(base, cs), suffix, '?');
  }

  /** With every filter empty the query is the bare select with no parameters. */
  lemma EmptyFiltersAddNothing(f: Filters)
    requires f.search == "" && f.category == "" && f.language == ""
    ensures BuildQuery(f).params == []
    ensures BuildQuery(f).sql == BaseQuery + OrderSuffix(f.sortBy)
  {
  }

  // ----- injection safety -----

  /** Appending clauses never introduces the letter `Y`. */
  lemma {:induction false} AppendHasNoY(sql: string, cs: seq<Clause>)
    requires 'Y' !in sql
    ensures 'Y' !in Append(sql, cs)
    decreases |cs|
  {
    if |cs| > 0 {
      ClauseTextFacts(cs[0]);
      AppendHasNoY(sql + ClauseText(cs[0]), cs[1..]);
    }
  }

  /** Text without the letter `Y` cannot contain `ORDER BY`. */
  lemma NoYNoOrderBy(s: string)
    requires 'Y' !in s
    ensures !IsSubstring(OrderByText, s)
  {
    forall i | 0 <= i <= |s| - |OrderByText|
      ensures !OccursAt(OrderByText, s, i)
    {
      if OccursAt(OrderByText, s, i) {
        OrderByHasY(s, i);
      }
    }
  }

  lemma OrderByHasY(s: string, i: int)
    requires OccursAt(OrderByText, s, i)
    ensures 'Y' in s
  {
    assert s[i + 8] == s[i..i + |OrderByText|][8] == OrderByText[8];
  }

  /** `ORDER BY` followed by a column, after any prefix, is found in the text. */
  lemma OrderBySuffixFound(prefix: string, col: string)
    ensures IsSubstring(OrderByText, prefix + (OrderByText + col))
  {
    var s := prefix + (OrderByText + col);
    assert s[|prefix|..|prefix| + |OrderByText|] == OrderByText;
    assert OccursAt(OrderByText, s, |prefix|);
  }

  /**
   `ORDER BY` appears in the text exactly when the sort key is whitelisted;
   a rejected key leaves no trace in the text.
   */
  lemma OrderByOnlyForValidSort(f: Filters)
    ensures IsSubstring(OrderByText, BuildQuery(f).sql) <==> f.sortBy in ValidSorts
    ensures f.sortBy in ValidSorts ==> BuildQuery(f).sql == Append(BaseQuery, Clauses(f)) + (OrderByText + f.sortBy)
    ensures f.sortBy !in ValidSorts ==> BuildQuery(f).sql == Append(BaseQuery, Clauses(f))
  {
    QueryTextIsClauses(f);
    var prefix := Append(BaseQuery, Clauses(f));
    if f.sortBy in ValidSorts {
      assert OrderSuffix(f.sortBy) == OrderByText + f.sortBy;
      OrderBySuffixFound(prefix, f.sortBy);
    } else {
      assert prefix + "" == prefix;
      BaseQueryFacts();
      AppendHasNoY(BaseQuery, Clauses(f));
      NoYNoOrderBy(prefix);
    }
  }

  /**
   The text depends only on which filters are non-empty and on the validated
   order column, never on the user's values: those travel as parameters.
   */
  lemma QueryTextIgnoresValues(f: Filters, g: Filters)
    requires (f.search == "") == (g.search == "")
    requires (f.category == "") == (g.category == "")
    requires (f.language == "") == (g.language == "")
    requires OrderColumn(f.sortBy) == OrderColumn(g.sortBy)
    ensures BuildQuery(f).sql == BuildQuery(g).sql
  {
  }

  // ----- what the query selects -----

  /**
   The `WHERE` clause evaluated against one record: the clauses are ANDed and
   each takes its parameters from the front of the list, left to right.
   A comparison with NULL is not true, so it rejects the row.
   */
  function EvalWhere(cs: seq<Clause>, params: seq<string>, b: Book): bool
    decreases |cs|
  {
    if |cs| == 0 then true
    else
      match cs[0]
      case TextSearch =>
        && 3 <= |params|
        && (Like(Some(b.title), params[0]) || Like(Some(b.author), params[1]) || Like(b.isbn, params[2]))
        && EvalWhere(cs[1..], params[3..], b)
      case CategoryEquals =>
        && 1 <= |params|
        && b.category == Some(params[0])
        && EvalWhere(cs[1..], params[1..], b)
      case LanguageEquals =>
        && 1 <= |params|
        && b.language == Some(params[0])
        && EvalWhere(cs[1..], params[1..], b)
  }

  /** Clauses evaluated against their own parameters, one group after another, are ANDed. */
  lemma {:induction false} EvalConcat(a: seq<Clause>, b: seq<Clause>, pa: seq<string>, pb: seq<string>, book: Book)
    requires |pa| == TotalArity(a)
    ensures EvalWhere(a + b, pa + pb, book) == (EvalWhere(a, pa, book) && EvalWhere(b, pb, book))
    decreases |a|
  {
    if |a| == 0 {
      assert a + b == b && pa + pb == pb;
    } else {
      var k := Arity(a[0]);
      assert (a + b)[0] == a[0];
      assert (a + b)[1..] == a[1..] + b;
      assert (pa + pb)[k..] == pa[k..] + pb;
      assert forall i :: 0 <= i < k ==> (pa + pb)[i] == pa[i];
      EvalConcat(a[1..], b, pa[k..], pb, book);
    }
  }

  /** The parameters the handler binds for the search filter. */
  function SearchParams(search: string): seq<string> {
    if search != "" then [Pattern(search), Pattern(search), Pattern(search)] else []
  }

  /** The handler's parameter list: the search's three patterns, then the category, then the language. */
  lemma QueryParamsInOrder(f: Filters)
    ensures BuildQuery(f).params
            == SearchParams(f.search)
               + (if f.category != "" then [f.category] else [])
               + (if f.language != "" then [f.language] else [])
  {
  }

  /**
   The row predicate the inventory page means: every non-empty filter holds.
   The search text must occur in the title, the author or the ISBN; category
   and language must match exactly; a NULL column matches no filter.
   */
  predicate Selects(f: Filters, b: Book) {
    && (f.search == ""
        || IsSubstring(f.search, b.title)
        || IsSubstring(f.search, b.author)
        || (b.isbn.Some? && IsSubstring(f.search, b.isbn.value)))
    && (f.category == "" || b.category == Some(f.category))
    && (f.language == "" || b.language == Some(f.language))
  }

  /** Binding the built parameters to the built clauses gives exactly the intended filter. */
  lemma QueryDenotesSelects(f: Filters, b: Book)
    ensures EvalWhere(Clauses(f), BuildQuery(f).params, b) <==> Selects(f, b)
  {
    LikePatternIsSubstring(Some(b.title), f.search);
    LikePatternIsSubstring(Some(b.author), f.search);
    LikePatternIsSubstring(b.isbn, f.search);
    var s := SearchClauses(f.search);
    var c := CategoryClauses(f.category);
    var l := LanguageClauses(f.language);
    var ps := SearchParams(f.search);
    var pc := if f.category != "" then [f.category] else [];
    var pl := if f.language != "" then [f.language] else [];
    QueryParamsInOrder(f);
    TotalArityConcat(s, c);
    EvalConcat(s + c, l, ps + pc, pl, b);
    EvalConcat(s, c, ps, pc, b);
    assert EvalWhere(s, ps, b) <==> (f.search == "" || Like(Some(b.title), Pattern(f.search))
      || Like(Some(b.author), Pattern(f.search)) || Like(b.isbn, Pattern(f.search)));
  }

  /**
   The rows the WHERE clauses of the built query accept, each once and in
   scan order. This is the selection before any ORDER BY: the order the sort
   suffix imposes is not modelled.
   */
  function RunQuery(rows: seq<Row>, cs: seq<Clause>, params: seq<string>): (r: seq<Row>)
    ensures forall x :: x in r <==> x in rows && EvalWhere(cs, params, x.book)
    ensures IdsIncreasing(rows) ==> IdsIncreasing(r)
  {
    Where(rows, (x: Row) => EvalWhere(cs, params, x.book))
  }

  /** `inventory`: the rows the handler's query selects, in scan order rather than the ORDER BY order. */
  function InventoryRows(t: Table, f: Filters): seq<Row> {
    RunQuery(t.rows, Clauses(f), BuildQuery(f).params)
  }

  /**
   The inventory lists exactly the rows satisfying every non-empty filter. The
   selection does not depend on the sort key; since ORDER BY is not modelled,
   this separates sorting from selection rather than describing the sort.
   */
  lemma InventorySelectsExactly(t: Table, f: Filters)
    ensures forall x :: x in InventoryRows(t, f) <==> x in t.rows && Selects(f, x.book)
    ensures forall s :: multiset(InventoryRows(t, f.(sortBy := s))) == multiset(InventoryRows(t, f))
  {
    forall x | x in t.rows
      ensures EvalWhere(Clauses(f), BuildQuery(f).params, x.book) <==> Selects(f, x.book)
    {
      QueryDenotesSelects(f, x.book);
    }
  }
}

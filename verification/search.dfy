/**
 The JSON search endpoint: queries shorter than two characters return nothing;
 otherwise the first ten rows whose title or author contains the query, as
 `id, title, author, category` records.
 */
module Search {

  import opened Nullable
  import opened Text
  import opened Library

  /** Shortest query the endpoint answers. */
  const MinQueryLength: nat := 2

  /** Most rows the endpoint returns (`LIMIT 10`). */
  const ResultLimit: nat := 10

  /** `title LIKE '%q%' OR author LIKE '%q%'`. */
  predicate TitleOrAuthorLike(b: Book, q: string) {
    Like(Some(b.title), Pattern(q)) || Like(Some(b.author), Pattern(q))
  }

  /** The columns the endpoint projects (the rating column is not modelled). */
  datatype Hit = Hit(id: int, title: string, author: string, category: Option<string>)

  function HitOf(r: Row): Hit {
    Hit(r.id, r.book.title, r.book.author, r.book.category)
  }

  /** The WHERE condition of the endpoint's query, as a row predicate. */
  function MatchesQuery(q: string): Row -> bool {
    (x: Row) => TitleOrAuthorLike(x.book, q)
  }

  /**
   `api_search`: nothing for a query shorter than two characters; otherwise at
   most ten hits whose title or author contains the query, taken from distinct
   rows in key order, and every match when fewer than ten come back.
   */
  function ApiSearch(t: Table, q: string): (hits: seq<Hit>)
    ensures |q| < MinQueryLength ==> hits == []
    ensures |hits| <= ResultLimit
    ensures forall h :: h in hits ==> IsSubstring(q, h.title) || IsSubstring(q, h.author)
    ensures forall h :: h in hits ==> exists r :: r in t.rows && HitOf(r) == h
    ensures |q| >= MinQueryLength && |hits| < ResultLimit ==>
              forall r :: r in t.rows && (IsSubstring(q, r.book.title) || IsSubstring(q, r.book.author)) ==> HitOf(r) in hits
    ensures WellFormed(t) ==> forall i, j :: 0 <= i < j < |hits| ==> hits[i].id < hits[j].id
  {
    if |q| < MinQueryLength then []
    else
      var rows := WhereLimit(t.rows, MatchesQuery(q), ResultLimit);
      var hits := seq(|rows|, i requires 0 <= i < |rows| => HitOf(rows[i]));
      forall r | r in t.rows
        ensures TitleOrAuthorLike(r.book, q) <==> IsSubstring(q, r.book.title) || IsSubstring(q, r.book.author)
      {
        LikePatternIsSubstring(Some(r.book.title), q);
        LikePatternIsSubstring(Some(r.book.author), q);
      }
      forall h | h in hits
        ensures exists r :: r in rows && HitOf(r) == h
      {
        var i :| 0 <= i < |hits| && hits[i] == h;
        assert rows[i] in rows;
      }
      forall r | r in t.rows && TitleOrAuthorLike(r.book, q) && |rows| < ResultLimit
        ensures HitOf(r) in hits
      {
        var i :| 0 <= i < |rows| && rows[i] == r;
        assert hits[i] == HitOf(r);
      }
      hits
  }

  /**
   For a query long enough to run, the hits are the first ten matching rows
   of the table in scan order (all of them when there are fewer).
   */
  lemma ApiSearchTakesFirstMatches(t: Table, q: string)
    ensures var m := Where(t.rows, MatchesQuery(q));
            var hits := ApiSearch(t, q);
            |q| >= MinQueryLength ==>
              && |hits| == (if |m| < ResultLimit then |m| else ResultLimit)
              && forall i :: 0 <= i < |hits| ==> hits[i] == HitOf(m[i])
  {
    LimitIsPrefix(t.rows, MatchesQuery(q), ResultLimit);
  }
}

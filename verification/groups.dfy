/**
 `GROUP BY column` with `COUNT(*)`, and `COUNT(DISTINCT column)`, over the
 category and language columns. GROUP BY keeps one group for NULL, while
 COUNT(DISTINCT ...) ignores NULL.
 */
module Grouping {

  import opened Nullable
  import opened Library

  /** The columns the dashboards group by. */
  datatype Column = CategoryColumn | LanguageColumn

  function ValueOf(b: Book, c: Column): Option<string> {
    match c
    case CategoryColumn => b.category
    case LanguageColumn => b.language
  }

  /** One output row of `SELECT column, COUNT(*) ... GROUP BY column`. */
  datatype Group = Group(key: Option<string>, count: nat)

  /** Number of rows whose `c` column holds exactly `k` (NULL included as a value). */
  function CountValue(rows: seq<Row>, c: Column, k: Option<string>): (n: nat)
    ensures n <= |rows|
  {
    if |rows| == 0 then 0
    else CountValue(rows[..|rows| - 1], c, k) + (if ValueOf(rows[|rows| - 1].book, c) == k then 1 else 0)
  }

  /** The values (NULL included) the column takes in the table. */
  function Values(rows: seq<Row>, c: Column): set<Option<string>> {
    set r | r in rows :: ValueOf(r.book, c)
  }

  /** `COUNT(DISTINCT column)`: the distinct non-NULL values. */
  function DistinctCount(rows: seq<Row>, c: Column): nat {
    |Values(rows, c) - {None}|
  }

  function Keys(gs: seq<Group>): set<Option<string>> {
    set g | g in gs :: g.key
  }

  predicate DistinctKeys(gs: seq<Group>) {
    forall i, j :: 0 <= i < j < |gs| ==> gs[i].key != gs[j].key
  }

  /** The count reported for key `k`, or 0 when no group has that key. */
  function CountOf(gs: seq<Group>, k: Option<string>): nat {
    if |gs| == 0 then 0
    else if gs[0].key == k then gs[0].count
    else CountOf(gs[1..], k)
  }

  /** Sum of the group counts. */
  function Total(gs: seq<Group>): nat {
    if |gs| == 0 then 0 else gs[0].count + Total(gs[1..])
  }

  /** Count one more row with key `k`: bump its group, or open a new group at the end. */
  function Bump(gs: seq<Group>, k: Option<string>): (r: seq<Group>)
    ensures Keys(r) == Keys(gs) + {k}
    ensures Total(r) == Total(gs) + 1
    ensures forall j :: CountOf(r, j) == CountOf(gs, j) + (if j == k then 1 else 0)
    ensures (forall g :: g in gs ==> g.count >= 1) ==> forall g :: g in r ==> g.count >= 1
  {
    if |gs| == 0 then [Group(k, 1)]
    else if gs[0].key == k then
      var r := [Group(k, gs[0].count + 1)] + gs[1..];
      assert r[1..] == gs[1..];
      assert gs == [gs[0]] + gs[1..];
      assert Keys(r) == Keys(gs);
      r
    else
      var rest := Bump(gs[1..], k);
      var r := [gs[0]] + rest;
      assert r[1..] == rest;
      assert gs == [gs[0]] + gs[1..];
      assert Keys(gs) == {gs[0].key} + Keys(gs[1..]);
      assert Keys(r) == {gs[0].key} + Keys(rest);
      r
  }

  /** A group list starting with `g` has distinct keys when its tail does and `g`'s key is new. */
  lemma ConsDistinct(g: Group, gs: seq<Group>)
    requires DistinctKeys(gs) && g.key !in Keys(gs)
    ensures DistinctKeys([g] + gs)
  {
  }

  /** The head of a list with distinct keys does not reappear in its tail. */
  lemma HeadKeyNotInTail(gs: seq<Group>)
    requires |gs| > 0 && DistinctKeys(gs)
    ensures DistinctKeys(gs[1..]) && gs[0].key !in Keys(gs[1..])
  {
  }

  /** Bumping keeps the keys distinct. */
  lemma {:induction false} BumpKeepsDistinct(gs: seq<Group>, k: Option<string>)
    requires DistinctKeys(gs)
    ensures DistinctKeys(Bump(gs, k))
  {
    if |gs| > 0 {
      HeadKeyNotInTail(gs);
      if gs[0].key == k {
        ConsDistinct(Group(k, gs[0].count + 1), gs[1..]);
      } else {
        BumpKeepsDistinct(gs[1..], k);
        ConsDistinct(gs[0], Bump(gs[1..], k));
      }
    }
  }

  /**
   The groups of `SELECT column, COUNT(*) FROM books GROUP BY column`: one
   group per value, NULL included, each counting the rows holding its value,
   the counts summing to the table size. The groups come in order of first
   appearance; the `ORDER BY count DESC` the pages add is not modelled.
   */
  function GroupBy(rows: seq<Row>, c: Column): (gs: seq<Group>)
    ensures DistinctKeys(gs)
    ensures Keys(gs) == Values(rows, c)
    ensures Total(gs) == |rows|
    ensures forall k :: CountOf(gs, k) == CountValue(rows, c, k)
    ensures forall g :: g in gs ==> g.count >= 1
  {
    if |rows| == 0 then []
    else
      var init := rows[..|rows| - 1];
      var last := rows[|rows| - 1];
      assert rows == init + [last];
      assert Values(rows, c) == Values(init, c) + {ValueOf(last.book, c)};
      BumpKeepsDistinct(GroupBy(init, c), ValueOf(last.book, c));
      Bump(GroupBy(init, c), ValueOf(last.book, c))
  }

  /** Distinct keys make as many groups as keys. */
  lemma {:induction false} DistinctKeysCard(gs: seq<Group>)
    requires DistinctKeys(gs)
    ensures |Keys(gs)| == |gs|
  {
    if |gs| > 0 {
      HeadKeyNotInTail(gs);
      DistinctKeysCard(gs[1..]);
      assert gs == [gs[0]] + gs[1..];
      assert Keys(gs) == {gs[0].key} + Keys(gs[1..]);
    }
  }

  /**
   The dashboard's distinct count and the group list disagree by exactly the
   NULL group: GROUP BY reports NULL as a group of its own, COUNT(DISTINCT)
   does not count it.
   */
  lemma GroupsAreDistinctValuesPlusNull(rows: seq<Row>, c: Column)
    ensures |GroupBy(rows, c)| == DistinctCount(rows, c) + (if None in Values(rows, c) then 1 else 0)
  {
    DistinctKeysCard(GroupBy(rows, c));
  }
}

/**
 Text helpers shared by the query builder and the search: substring search,
 counting one character, and the simplified SQL `LIKE` the queries use.
 */
module Text {

  import opened Nullable

  /** `sub` occurs in `s` starting at index `i`. */
  predicate OccursAt(sub: string, s: string, i: int) {
    0 <= i <= |s| - |sub| && s[i..i + |sub|] == sub
  }

  /** `sub` occurs somewhere in `s` as a contiguous slice. */
  predicate IsSubstring(sub: string, s: string) {
    exists i | 0 <= i <= |s| - |sub| :: OccursAt(sub, s, i)
  }

  /** Number of occurrences of the character `c` in `s`. */
  function CountChar(s: string, c: char): (n: nat)
    ensures n <= |s|
    ensures n == 0 <==> c !in s
  {
    if |s| == 0 then 0
    else (if s[0] == c then 1 else 0) + CountChar(s[1..], c)
  }

  lemma {:induction false} CountCharConcat(a: string, b: string, c: char)
    ensures CountChar(a + b, c) == CountChar(a, c) + CountChar(b, c)
  {
    if |a| == 0 {
      assert a + b == b;
    } else {
      assert (a + b)[0] == a[0];
      assert (a + b)[1..] == a[1..] + b;
      CountCharConcat(a[1..], b, c);
    }
  }

  /** The pattern `'%' + s + '%'` the handlers bind for a substring search. */
  function Pattern(s: string): (p: string)
    ensures |p| == |s| + 2
    ensures p[0] == '%' && p[|p| - 1] == '%' && p[1..|p| - 1] == s
  {
    "%" + s + "%"
  }

  /**
   SQL `value LIKE pattern`, simplified: a NULL value never matches; a pattern
   that starts and ends with `%` matches when the text between the two `%` is a
   substring of the value; any other pattern matches only itself. Case folding
   and wildcards inside the pattern are not modelled.
   */
  predicate Like(value: Option<string>, pattern: string) {
    match value
    case None => false
    case Some(v) =>
      if 2 <= |pattern| && pattern[0] == '%' && pattern[|pattern| - 1] == '%'
      then IsSubstring(pattern[1..|pattern| - 1], v)
      else v == pattern
  }

  /** Under the modelled LIKE, a value matches `'%' + s + '%'` exactly when it contains `s`; NULL never does. */
  lemma LikePatternIsSubstring(value: Option<string>, s: string)
    ensures Like(value, Pattern(s)) <==> value.Some? && IsSubstring(s, value.value)
  {
  }
}

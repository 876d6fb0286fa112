/** The search box of the client's table: the query is the box's value trimmed
    and lower-cased, and a row is shown when the query is empty or occurs in
    the lower-cased name, city or email. */
module Search {
  import opened JsText
  import opened Records

  /** `searchInput.value.trim().toLowerCase()` */
  function Query(input: string): string {
    ToLower(Trim(input))
  }

  /** `s.f && s.f.toLowerCase().includes(q)`: an empty column never matches. */
  predicate ColumnMatches(column: string, q: string) {
    column != "" && Includes(ToLower(column), q)
  }

  /** The callback given to `list.filter`. */
  predicate Shown(s: Student, q: string) {
    || q == ""
    || ColumnMatches(s.fields.name, q)
    || ColumnMatches(s.fields.city, q)
    || ColumnMatches(s.fields.email, q)
  }

  /** `list.filter(...)`: the shown rows, in list order. */
  function Filter(list: seq<Student>, q: string): seq<Student> {
    if list == [] then []
    else (if Shown(list[0], q) then [list[0]] else []) + Filter(list[1..], q)
  }

  /** `r` is `s` with some elements dropped and the rest in their order. */
  ghost predicate IsSubsequence(r: seq<Student>, s: seq<Student>)
    decreases |s|
  {
    || r == []
    || (s != [] && ((r[0] == s[0] && IsSubsequence(r[1..], s[1..])) || IsSubsequence(r, s[1..])))
  }

  /** The filter only drops rows; the order of the rest is kept. */
  lemma {:induction false} FilterIsSubsequence(list: seq<Student>, q: string)
    ensures IsSubsequence(Filter(list, q), list)
  {
    if list != [] {
      FilterIsSubsequence(list[1..], q);
      var r := Filter(list, q);
      if Shown(list[0], q) {
        assert r[0] == list[0] && r[1..] == Filter(list[1..], q);
      } else {
        assert r == Filter(list[1..], q);
      }
    }
  }

  /** A row is shown exactly as often as it is listed when it matches, and
      never when it does not: every shown row matches and every matching row
      is shown. */
  lemma {:induction false} FilterKeepsMatches(list: seq<Student>, q: string)
    ensures forall x :: multiset(Filter(list, q))[x] == if Shown(x, q) then multiset(list)[x] else 0
  {
    if list != [] {
      FilterKeepsMatches(list[1..], q);
      assert list == [list[0]] + list[1..];
    }
  }

  /** A shown row matches, and a listed row that matches is shown. */
  lemma FilterMembership(list: seq<Student>, q: string)
    ensures forall x :: x in Filter(list, q) <==> x in list && Shown(x, q)
  {
    FilterKeepsMatches(list, q);
    forall x
      ensures x in Filter(list, q) <==> x in list && Shown(x, q)
    {
      assert x in Filter(list, q) <==> x in multiset(Filter(list, q));
      assert x in list <==> x in multiset(list);
    }
  }

  /** With an empty query every row is shown, in list order. */
  lemma {:induction false} EmptyQueryShowsAll(list: seq<Student>)
    ensures Filter(list, "") == list
  {
    if list != [] {
      EmptyQueryShowsAll(list[1..]);
      assert list == [list[0]] + list[1..];
    }
  }

  /** A search box holding only whitespace shows every row. */
  lemma BlankInputShowsAll(list: seq<Student>, input: string)
    requires forall i :: 0 <= i < |input| ==> IsWhitespace(input[i])
    ensures Filter(list, Query(input)) == list
  {
    TrimEmptyIffBlank(input);
    EmptyQueryShowsAll(list);
  }

  /** The query carries no upper-case ASCII letter and no whitespace at its
      ends, so the case of what was typed does not matter. */
  lemma QueryIsNormalized(input: string)
    ensures forall i :: 0 <= i < |Query(input)| ==> !('A' <= Query(input)[i] <= 'Z')
    ensures Unpadded(Query(input))
  {
    TrimEnds(input);
    ToLowerIdempotent(Trim(input));
  }
}

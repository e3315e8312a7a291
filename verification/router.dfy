/**
 The one piece of the router the pages depend on: how `parsePath` cuts a navigation target into
 its path, search and hash, and so which search string the verification page receives.
 */
module Router {

  /** The index of the first `c` in `s`, or `|s|` when there is none: `indexOf` with "not found" moved to the end. */
  function IndexOf(s: string, c: char): (i: nat)
    ensures i <= |s|
    ensures i < |s| ==> s[i] == c
  {
    if |s| == 0 then 0
    else if s[0] == c then 0
    else 1 + IndexOf(s[1..], c)
  }

  /** `IndexOf` finds the first occurrence: no `c` comes before it. */
  lemma {:induction false} IndexOfIsFirst(s: string, c: char)
    ensures c !in s[..IndexOf(s, c)]
  {
    if |s| > 0 && s[0] != c {
      IndexOfIsFirst(s[1..], c);
      assert s[..IndexOf(s, c)] == [s[0]] + s[1..][..IndexOf(s[1..], c)];
    }
  }

  /** An occurrence of `c` with none before it is the one `IndexOf` finds. */
  lemma {:induction false} IndexOfAt(s: string, c: char, i: nat)
    requires i < |s| && s[i] == c && c !in s[..i]
    ensures IndexOf(s, c) == i
  {
    if i > 0 {
      assert s[0] == s[..i][0];
      assert s[1..][..i - 1] == s[1..i];
      assert forall x :: x in s[1..i] ==> x in s[..i];
      IndexOfAt(s[1..], c, i - 1);
    }
  }

  /**
   The search part of a path as the router's `parsePath` cuts it: the hash is removed from the
   first `#`, then the search runs from the first `?`, which it keeps, to the end; empty when there
   is no `?`.
   */
  function SearchOf(path: string): (search: string)
    ensures search == [] || search[0] == '?'
  {
    var beforeHash := path[..IndexOf(path, '#')];
    beforeHash[IndexOf(beforeHash, '?')..]
  }

  /** A text free of `c` has no first `c`. */
  lemma {:induction false} IndexOfAbsent(s: string, c: char)
    requires c !in s
    ensures IndexOf(s, c) == |s|
  {
    if |s| > 0 {
      IndexOfAbsent(s[1..], c);
    }
  }

  /** A path made of a page without `?` or `#` and a query without `#` has that query as its search. */
  lemma SearchOfPageAndQuery(page: string, query: string)
    requires '?' !in page && '#' !in page && '#' !in query
    ensures SearchOf(page + "?" + query) == "?" + query
  {
    var path := page + "?" + query;
    assert '#' !in path;
    IndexOfAbsent(path, '#');
    assert path[..|path|] == path;
    assert path[..|page|] == page;
    IndexOfAt(path, '?', |page|);
  }
}

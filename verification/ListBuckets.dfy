/**
 ListBuckets paging (s3gw/proxy.go listBuckets). Every page lists the tenant's buckets
 anew, in whatever order the store yields them, sorts them, skips to behind the
 continuation token and cuts the page off.
 */
module ListBuckets {
  import opened Ordering

  const MAX_BUCKETS := 10000

  datatype Page = Page(names: seq<string>, token: string)

  /** Where the names greater than the token start. */
  function SkipTo(sorted: seq<string>, token: string): (i: nat)
    ensures i <= |sorted|
    ensures forall j :: 0 <= j < i ==> !Less(token, sorted[j])
    ensures i < |sorted| ==> Less(token, sorted[i])
  {
    if sorted == [] || Less(token, sorted[0]) then 0 else 1 + SkipTo(sorted[1..], token)
  }

  /** sort.Search: the names greater than the token form a suffix, so bisection finds its start. */
  method Search(sorted: seq<string>, token: string) returns (i: nat)
    requires Sorted(sorted)
    ensures i == SkipTo(sorted, token)
  {
    var lo, hi := 0, |sorted|;
    while lo < hi
      invariant 0 <= lo <= hi <= |sorted|
      invariant lo <= SkipTo(sorted, token) <= hi
    {
      var mid := (lo + hi) / 2;
      if Less(token, sorted[mid]) {
        hi := mid;
      } else {
        SkipPast(sorted, token, mid);
        lo := mid + 1;
      }
    }
    return lo;
  }

  lemma {:induction false} SkipPast(sorted: seq<string>, token: string, mid: nat)
    requires Sorted(sorted) && mid < |sorted| && !Less(token, sorted[mid])
    ensures SkipTo(sorted, token) > mid
  {
    var i := SkipTo(sorted, token);
    if i < mid {
      NotLessTransitive(sorted[i], sorted[mid], token);
    }
  }

  /** One page of the sorted names. */
  function PageOf(sorted: seq<string>, max: nat, token: string): (p: Page)
    requires max > 0
  {
    var rest := if token == "" then sorted else sorted[SkipTo(sorted, token)..];
    if |rest| > max then Page(rest[..max], rest[max - 1]) else Page(rest, "")
  }

  /** The max-buckets parameter: absent, not a number, or a number. */
  datatype Limit = Absent | Malformed | Number(n: int)

  datatype Answer = InvalidArgument | Listed(page: Page)

  method ListBuckets(listed: seq<string>, limit: Limit, token: string) returns (a: Answer)
    ensures a.InvalidArgument? <==> limit.Malformed? || (limit.Number? && !(1 <= limit.n <= 10000))
    ensures a.Listed? ==> a.page == PageOf(Sort(listed), if limit.Number? then limit.n else 10000, token)
  {
    hide Sort;
    var max := MAX_BUCKETS;
    match limit {
      case Absent =>
      case Malformed =>
        return InvalidArgument;
      case Number(n) =>
        if n < 1 || n > MAX_BUCKETS {
          return InvalidArgument;
        }
        max := n;
    }
    var entries := Sort(listed);
    SortSorts(listed);
    if token != "" {
      var i := Search(entries, token);
      entries := entries[i..];
    }
    var next := "";
    assert entries == if token == "" then Sort(listed) else Sort(listed)[SkipTo(Sort(listed), token)..];
    if |entries| > max {
      entries := entries[..max];
      next := entries[|entries| - 1];
    }
    return Listed(Page(entries, next));
  }

  // ----- following the tokens

  /** A page behind the first n names continues exactly there. */
  lemma {:induction false} TokenContinues(sorted: seq<string>, n: nat)
    requires Ascending(sorted) && 0 < n <= |sorted|
    ensures SkipTo(sorted, sorted[n - 1]) == n
  {
    var token := sorted[n - 1];
    assert n < |sorted| ==> Less(token, sorted[n]);
    var i := SkipTo(sorted, token);
    LessIrreflexive(token);
    if i < n {
      if i < n - 1 {
        AscendingPairs(sorted, i, n - 1);
        LessAsymmetric(sorted[i], token);
      }
      assert false;
    }
  }

  /** The pages a client sees: it asks again with each page's token until there is none. */
  ghost predicate Follows(sorted: seq<string>, max: nat, token: string, pages: seq<Page>)
    requires max > 0
    decreases |pages|
  {
    && pages != []
    && pages[0] == PageOf(sorted, max, token)
    && (if pages[0].token == "" then |pages| == 1 else Follows(sorted, max, pages[0].token, pages[1..]))
  }

  function AllNames(pages: seq<Page>): (names: seq<string>) {
    if pages == [] then [] else pages[0].names + AllNames(pages[1..])
  }

  /** Where a page starts: at the beginning, or behind the name its token repeats. */
  ghost predicate StartsAt(sorted: seq<string>, token: string, n: nat) {
    n <= |sorted| && (if token == "" then n == 0 else 0 < n && token == sorted[n - 1])
  }

  lemma {:induction false} PageAt(sorted: seq<string>, max: nat, token: string, n: nat)
    requires Ascending(sorted) && max > 0 && StartsAt(sorted, token, n)
    requires forall i :: 0 <= i < |sorted| ==> sorted[i] != ""
    ensures var p := PageOf(sorted, max, token);
            if |sorted| - n > max then p == Page(sorted[n..n + max], sorted[n + max - 1]) && p.token != ""
            else p == Page(sorted[n..], "")
  {
    if token != "" {
      TokenContinues(sorted, n);
    }
    assert token == "" ==> sorted[n..] == sorted;
  }

  /** Following the tokens terminates. */
  lemma {:induction false} PagesExist(sorted: seq<string>, max: nat, token: string, n: nat) returns (pages: seq<Page>)
    requires Ascending(sorted) && max > 0 && StartsAt(sorted, token, n)
    requires forall i :: 0 <= i < |sorted| ==> sorted[i] != ""
    ensures Follows(sorted, max, token, pages) && |pages| <= |sorted| - n + 1
    decreases |sorted| - n
  {
    hide PageOf;
    PageAt(sorted, max, token, n);
    var p := PageOf(sorted, max, token);
    pages := [p];
    if p.token != "" {
      var rest := PagesExist(sorted, max, p.token, n + max);
      pages := [p] + rest;
      assert pages[1..] == rest;
    }
  }

  lemma {:induction false} PagesCover(sorted: seq<string>, max: nat, token: string, n: nat, pages: seq<Page>)
    requires Ascending(sorted) && max > 0 && StartsAt(sorted, token, n)
    requires forall i :: 0 <= i < |sorted| ==> sorted[i] != ""
    requires Follows(sorted, max, token, pages)
    ensures AllNames(pages) == sorted[n..]
    decreases |pages|
  {
    hide PageOf;
    PageAt(sorted, max, token, n);
    var p := pages[0];
    if p.token == "" {
      assert pages[1..] == [];
    } else {
      PagesCover(sorted, max, p.token, n + max, pages[1..]);
      assert sorted[n..] == sorted[n..n + max] + sorted[n + max..];
    }
  }

  /**
   For every set of distinct non-empty names and every page size: following the continuation
   tokens from the start ends after finitely many pages, and their concatenation is the sorted
   list of all names, each exactly once.
   */
  lemma {:induction false} PagingIsComplete(names: seq<string>, max: nat)
    requires Distinct(names) && (forall i :: 0 <= i < |names| ==> names[i] != "")
    requires 1 <= max <= 10000
    ensures exists pages :: Follows(Sort(names), max, "", pages)
    ensures forall pages :: Follows(Sort(names), max, "", pages) ==> AllNames(pages) == Sort(names)
    ensures Ascending(Sort(names)) && multiset(Sort(names)) == multiset(names)
  {
    hide Sort, Follows;
    var sorted := Sort(names);
    SortAscends(names);
    forall i | 0 <= i < |sorted| ensures sorted[i] != "" {
      assert sorted[i] in multiset(sorted);
      assert sorted[i] in names;
    }
    var pages := PagesExist(sorted, max, "", 0);
    forall pages | Follows(sorted, max, "", pages) ensures AllNames(pages) == sorted {
      PagesCover(sorted, max, "", 0, pages);
    }
  }

  /** Each page may see the store in another order; the pages do not. */
  lemma {:induction false} PageIgnoresStoreOrder(a: seq<string>, b: seq<string>, max: nat, token: string)
    requires multiset(a) == multiset(b) && max > 0
    ensures PageOf(Sort(a), max, token) == PageOf(Sort(b), max, token)
  {
    SortCanonical(a, b);
  }

  // ----- a store that changes between pages

  /** Names as a store yields them. */
  predicate Listing(view: seq<string>) {
    Distinct(view) && forall i :: 0 <= i < |view| ==> view[i] != ""
  }

  /** The pages a client sees when each is cut from another listing. */
  ghost predicate Traverses(views: seq<seq<string>>, max: nat, token: string, pages: seq<Page>)
    requires max > 0
    decreases |pages|
  {
    && |views| == |pages| > 0
    && pages[0] == PageOf(Sort(views[0]), max, token)
    && (if pages[0].token == "" then |pages| == 1 else Traverses(views[1..], max, pages[0].token, pages[1..]))
  }

  predicate Behind(token: string, x: string) {
    token == "" || Less(token, x)
  }

  lemma {:induction false} SkipSplits(sorted: seq<string>, token: string, i: nat)
    requires Ascending(sorted) && i < |sorted|
    ensures i >= SkipTo(sorted, token) <==> Less(token, sorted[i])
  {
    hide SkipTo;
    var n := SkipTo(sorted, token);
    if n < i {
      AscendingPairs(sorted, n, i);
      LessTransitive(token, sorted[n], sorted[i]);
    }
  }

  /** Where a page starts in the sorted names. */
  function Start(sorted: seq<string>, token: string): (n: nat)
    ensures n <= |sorted|
  {
    if token == "" then 0 else SkipTo(sorted, token)
  }

  lemma {:induction false} StartSplits(sorted: seq<string>, token: string, i: nat)
    requires Ascending(sorted) && i < |sorted|
    ensures i >= Start(sorted, token) <==> Behind(token, sorted[i])
  {
    hide SkipTo;
    if token != "" {
      SkipSplits(sorted, token, i);
    }
  }

  lemma {:induction false} PageText(sorted: seq<string>, max: nat, token: string)
    requires max > 0
    ensures var p, n := PageOf(sorted, max, token), Start(sorted, token);
            if |sorted| - n > max then p == Page(sorted[n..n + max], sorted[n + max - 1])
            else p == Page(sorted[n..], "")
  {
    hide SkipTo;
    assert sorted[0..] == sorted;
  }

  /**
   A page lists the names behind its token, in order, and leaves only names behind the next token to the next page.
   */
  lemma {:induction false} PageOfAscending(sorted: seq<string>, max: nat, token: string)
    requires Ascending(sorted) && max > 0 && forall i :: 0 <= i < |sorted| ==> sorted[i] != ""
    ensures var p := PageOf(sorted, max, token);
            && Ascending(p.names)
            && (forall x :: x in p.names ==> x in sorted && Behind(token, x))
            && (p.token != "" ==> p.names != [] && p.token == p.names[|p.names| - 1])
            && (forall x :: x in sorted && Behind(token, x) ==> x in p.names || (p.token != "" && Less(p.token, x)))
  {
    hide PageOf, Start;
    PageText(sorted, max, token);
    var p, n := PageOf(sorted, max, token), Start(sorted, token);
    forall x | x in p.names ensures x in sorted && Behind(token, x) {
      var i :| 0 <= i < |p.names| && p.names[i] == x;
      assert sorted[n + i] == x;
      StartSplits(sorted, token, n + i);
    }
    forall x | x in sorted && Behind(token, x) ensures x in p.names || (p.token != "" && Less(p.token, x)) {
      var i :| 0 <= i < |sorted| && sorted[i] == x;
      StartSplits(sorted, token, i);
      if i < n + |p.names| {
        assert p.names[i - n] == x;
      } else {
        AscendingPairs(sorted, n + max - 1, i);
      }
    }
  }

  lemma {:induction false} PageOfListing(view: seq<string>, max: nat, token: string)
    requires Listing(view) && max > 0
    ensures var p := PageOf(Sort(view), max, token);
            && Ascending(p.names)
            && (forall x :: x in p.names ==> x in view && Behind(token, x))
            && (p.token != "" ==> p.names != [] && p.token == p.names[|p.names| - 1])
            && (forall x :: x in view && Behind(token, x) ==> x in p.names || (p.token != "" && Less(p.token, x)))
  {
    hide Sort, PageOf, Ascending;
    var sorted := Sort(view);
    SortAscends(view);
    forall x ensures x in view <==> x in sorted {
      assert x in view <==> x in multiset(view);
      assert x in sorted <==> x in multiset(sorted);
    }
    forall i | 0 <= i < |sorted| ensures sorted[i] != "" {
      assert sorted[i] in view;
    }
    PageOfAscending(sorted, max, token);
  }

  lemma {:induction false} AscendingConcat(a: seq<string>, b: seq<string>)
    requires Ascending(a) && Ascending(b)
    requires a != [] && b != [] ==> Less(a[|a| - 1], b[0])
    ensures Ascending(a + b)
  {
  }

  predicate Seen(views: seq<seq<string>>, x: string) {
    exists i :: 0 <= i < |views| && x in views[i]
  }

  lemma {:induction false} TraversalAscends(views: seq<seq<string>>, max: nat, token: string, pages: seq<Page>)
    requires max > 0 && Traverses(views, max, token, pages)
    requires forall i :: 0 <= i < |views| ==> Listing(views[i])
    ensures Ascending(AllNames(pages))
    ensures forall x :: x in AllNames(pages) ==> Behind(token, x) && Seen(views, x)
    decreases |pages|
  {
    hide PageOf, Ascending, Listing, Less, Sort;
    PageOfListing(views[0], max, token);
    var p := pages[0];
    if p.token == "" {
      assert AllNames(pages[1..]) == [];
      assert AllNames(pages) == p.names;
    } else {
      var rest := AllNames(pages[1..]);
      TraversalAscends(views[1..], max, p.token, pages[1..]);
      assert rest != [] ==> Behind(p.token, rest[0]);
      AscendingConcat(p.names, rest);
      assert p.token in p.names;
      forall x | x in rest ensures Behind(token, x) && Seen(views, x) {
        SeenLater(views, x);
        if token != "" {
          LessTransitive(token, p.token, x);
        }
      }
    }
  }

  lemma {:induction false} SeenLater(views: seq<seq<string>>, x: string)
    requires views != [] && Seen(views[1..], x)
    ensures Seen(views, x)
  {
    var i :| 0 <= i < |views[1..]| && x in views[1..][i];
    assert x in views[i + 1];
  }

  lemma {:induction false} TraversalKeeps(views: seq<seq<string>>, max: nat, token: string, pages: seq<Page>, x: string)
    requires max > 0 && Traverses(views, max, token, pages)
    requires forall i :: 0 <= i < |views| ==> Listing(views[i]) && x in views[i]
    requires Behind(token, x)
    ensures x in AllNames(pages)
    decreases |pages|
  {
    hide PageOf, Listing, Ascending;
    PageOfListing(views[0], max, token);
    if x !in pages[0].names {
      TraversalKeeps(views[1..], max, pages[0].token, pages[1..], x);
    }
  }

  /**
   Whatever is added or removed between pages: a completed traversal lists names in order, none twice and none that
   was never there, and every name present throughout exactly once.
   */
  lemma {:induction false} ChangingStoreIsListed(views: seq<seq<string>>, max: nat, pages: seq<Page>, x: string)
    requires max > 0 && Traverses(views, max, "", pages)
    requires forall i :: 0 <= i < |views| ==> Listing(views[i])
    ensures Ascending(AllNames(pages)) && multiset(AllNames(pages))[x] <= 1
    ensures x in AllNames(pages) ==> Seen(views, x)
    ensures (forall i :: 0 <= i < |views| ==> x in views[i]) ==> multiset(AllNames(pages))[x] == 1
  {
    hide Traverses, Listing;
    TraversalAscends(views, max, "", pages);
    AscendingDistinct(AllNames(pages));
    DistinctCount(AllNames(pages), x);
    if forall i :: 0 <= i < |views| ==> x in views[i] {
      TraversalKeeps(views, max, "", pages, x);
    }
  }

  lemma {:induction false} AscendingDistinct(s: seq<string>)
    requires Ascending(s)
    ensures Distinct(s)
  {
    forall i, j | 0 <= i < j < |s| ensures s[i] != s[j] {
      AscendingPairs(s, i, j);
      LessAsymmetric(s[i], s[j]);
    }
  }
}

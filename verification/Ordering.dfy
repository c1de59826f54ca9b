/** The byte order of strings, and sorting: what sort.Strings and sort.Slice promise, and why their result is unique. */
module Ordering {

  /** a < b in Go's string order. */
  predicate Less(a: string, b: string) {
    if b == "" then false
    else if a == "" then true
    else if a[0] != b[0] then a[0] < b[0]
    else Less(a[1..], b[1..])
  }

  /** The first byte in which two strings differ decides. */
  lemma {:induction false} FirstDifferenceDecides(p: string, c: char, x: string, d: char, y: string)
    requires c != d
    ensures Less(p + [c] + x, p + [d] + y) <==> c < d
  {
    var a, b := p + [c] + x, p + [d] + y;
    if p != "" {
      FirstDifferenceDecides(p[1..], c, x, d, y);
      assert a[1..] == p[1..] + [c] + x && b[1..] == p[1..] + [d] + y;
    }
  }

  /** A string comes behind its own beginnings. */
  lemma {:induction false} BeginningIsLess(p: string, x: string)
    ensures Less(p, p + x) <==> x != ""
  {
    if p != "" {
      BeginningIsLess(p[1..], x);
      assert (p + x)[1..] == p[1..] + x;
    } else {
      assert p + x == x;
    }
  }

  /** The order of bytes: a is a beginning of b, or smaller in the first byte in which they differ. */
  lemma {:induction false} LessIff(a: string, b: string)
    ensures Less(a, b) <==>
            || (a <= b && a != b)
            || exists i :: 0 <= i < |a| && i < |b| && a[..i] == b[..i] && a[i] < b[i]
  {
    if a <= b {
      BeginningIsLess(a, b[|a|..]);
      assert b == a + b[|a|..];
    } else if b <= a {
      BeginningIsLess(b, a[|b|..]);
      assert a == b + a[|b|..];
      LessAsymmetric(b, a);
    } else {
      var i := FirstDifference(a, b);
      assert a == a[..i] + [a[i]] + a[i + 1..] && b == a[..i] + [b[i]] + b[i + 1..];
      FirstDifferenceDecides(a[..i], a[i], a[i + 1..], b[i], b[i + 1..]);
      forall j: nat | j < |a| && j < |b| && a[..j] == b[..j] && a[j] != b[j] ensures j == i {
        OneFirstDifference(a, b, i, j);
      }
    }
  }

  lemma {:induction false} OneFirstDifference(a: string, b: string, i: nat, j: nat)
    requires i < |a| && i < |b| && a[..i] == b[..i] && a[i] != b[i]
    requires j < |a| && j < |b| && a[..j] == b[..j] && a[j] != b[j]
    ensures i == j
  {
    if i < j {
      SameBefore(a, b, j, i);
    } else if j < i {
      SameBefore(a, b, i, j);
    }
  }

  lemma {:induction false} SameBefore(a: string, b: string, j: nat, i: nat)
    requires i < j <= |a| && j <= |b| && a[..j] == b[..j]
    ensures a[i] == b[i]
  {
    assert a[i] == a[..j][i] && b[i] == b[..j][i];
  }

  lemma {:induction false} FirstDifference(a: string, b: string) returns (i: nat)
    requires !(a <= b) && !(b <= a)
    ensures i < |a| && i < |b| && a[..i] == b[..i] && a[i] != b[i]
  {
    i := 0;
    while i < |a| && i < |b| && a[i] == b[i]
      invariant i <= |a| && i <= |b| && a[..i] == b[..i]
    {
      i := i + 1;
    }
  }

  lemma {:induction false} LessIrreflexive(a: string)
    ensures !Less(a, a)
  {
    if a != "" {
      LessIrreflexive(a[1..]);
    }
  }

  lemma {:induction false} LessTotal(a: string, b: string)
    ensures Less(a, b) || a == b || Less(b, a)
  {
    if a != "" && b != "" && a[0] == b[0] {
      LessTotal(a[1..], b[1..]);
      assert a == [a[0]] + a[1..] && b == [b[0]] + b[1..];
    }
  }

  lemma {:induction false} LessTransitive(a: string, b: string, c: string)
    requires Less(a, b) && Less(b, c)
    ensures Less(a, c)
  {
    if a != "" && a[0] == b[0] == c[0] {
      LessTransitive(a[1..], b[1..], c[1..]);
    }
  }

  lemma {:induction false} LessAsymmetric(a: string, b: string)
    requires Less(a, b)
    ensures !Less(b, a) && a != b
  {
    LessIrreflexive(a);
    if Less(b, a) {
      LessTransitive(a, b, a);
      assert false;
    }
  }

  // ----- strictly ascending lists

  predicate Ascending(s: seq<string>) {
    forall i :: 0 < i < |s| ==> Less(s[i - 1], s[i])
  }

  lemma {:induction false} AscendingPairs(s: seq<string>, i: nat, j: nat)
    requires Ascending(s) && i < j < |s|
    ensures Less(s[i], s[j])
    decreases j
  {
    if i < j - 1 {
      AscendingPairs(s, i, j - 1);
      LessTransitive(s[i], s[j - 1], s[j]);
    }
  }

  lemma {:induction false} AscendingTail(s: seq<string>)
    requires Ascending(s) && s != []
    ensures Ascending(s[1..]) && s[0] !in s[1..]
    ensures forall x :: x in s[1..] ==> Less(s[0], x)
  {
    forall x | x in s[1..] ensures Less(s[0], x) && x != s[0] {
      var j :| 0 <= j < |s[1..]| && s[1..][j] == x;
      AscendingPairs(s, 0, j + 1);
      LessAsymmetric(s[0], x);
    }
  }

  /** Two strictly ascending lists of the same names are the same list. */
  lemma {:induction false} AscendingUnique(a: seq<string>, b: seq<string>)
    requires Ascending(a) && Ascending(b)
    requires forall x :: x in a <==> x in b
    ensures a == b
  {
    assert b != [] ==> b[0] in b;
    assert a != [] ==> a[0] in a;
    if a != [] && b != [] {
      AscendingTail(a);
      AscendingTail(b);
      assert a == [a[0]] + a[1..] && b == [b[0]] + b[1..];
      assert b[0] in a;
      assert a[0] == b[0] by {
        if a[0] != b[0] {
          assert b[0] in a[1..] && a[0] in b[1..];
          LessAsymmetric(a[0], b[0]);
          assert false;
        }
      }
      assert forall x :: x in a[1..] <==> x in a && x != a[0];
      assert forall x :: x in b[1..] <==> x in b && x != b[0];
      AscendingUnique(a[1..], b[1..]);
    }
  }

  // ----- sorting

  predicate Sorted(s: seq<string>) {
    forall i, j :: 0 <= i < j < |s| ==> !Less(s[j], s[i])
  }

  function Insert(x: string, s: seq<string>): (r: seq<string>)
    ensures multiset(r) == multiset(s) + multiset{x}
  {
    if s == [] || !Less(s[0], x) then
      assert [x] + s == [x] + s;
      [x] + s
    else
      assert s == [s[0]] + s[1..];
      [s[0]] + Insert(x, s[1..])
  }

  /** The sorted permutation of s. */
  function Sort(s: seq<string>): (r: seq<string>)
    ensures multiset(r) == multiset(s)
  {
    if s == [] then []
    else
      assert s == [s[0]] + s[1..];
      Insert(s[0], Sort(s[1..]))
  }

  lemma {:induction false} NotLessTransitive(a: string, b: string, c: string)
    requires !Less(b, a) && !Less(c, b)
    ensures !Less(c, a)
  {
    LessTotal(a, b);
    LessTotal(b, c);
    if Less(c, a) {
      if a != b {
        LessTransitive(c, a, b);
      }
      assert false;
    }
  }

  lemma {:induction false} SortedCons(x: string, s: seq<string>)
    requires Sorted(s) && (forall y :: y in s ==> !Less(y, x))
    ensures Sorted([x] + s)
  {
  }

  lemma {:induction false} InsertSorted(x: string, s: seq<string>)
    requires Sorted(s)
    ensures Sorted(Insert(x, s))
  {
    if s == [] {
    } else if !Less(s[0], x) {
      forall y | y in s ensures !Less(y, x) {
        var i :| 0 <= i < |s| && s[i] == y;
        if i > 0 {
          NotLessTransitive(x, s[0], y);
        }
      }
      SortedCons(x, s);
    } else {
      InsertSorted(x, s[1..]);
      LessAsymmetric(s[0], x);
      var r := Insert(x, s[1..]);
      forall y | y in r ensures !Less(y, s[0]) {
        assert y in multiset(s[1..]) + multiset{x};
        if y != x {
          assert y in s[1..];
        }
      }
      SortedCons(s[0], r);
    }
  }

  lemma {:induction false} SortSorts(s: seq<string>)
    ensures Sorted(Sort(s))
  {
    if s != [] {
      SortSorts(s[1..]);
      InsertSorted(s[0], Sort(s[1..]));
    }
  }

  lemma {:induction false} SameHead(a: seq<string>, b: seq<string>)
    requires Sorted(a) && Sorted(b) && a != [] && b != [] && a[0] in b && b[0] in a
    ensures a[0] == b[0]
  {
    hide Less;
    var i :| 0 <= i < |b| && b[i] == a[0];
    var j :| 0 <= j < |a| && a[j] == b[0];
    LessIrreflexive(a[0]);
    LessTotal(a[0], b[0]);
  }

  lemma {:induction false} TailCount(s: seq<string>)
    requires s != []
    ensures multiset(s[1..]) == multiset(s) - multiset{s[0]}
  {
    assert s == [s[0]] + s[1..];
  }

  /** There is only one sorted arrangement of a multiset of strings. */
  lemma {:induction false} SortedUnique(a: seq<string>, b: seq<string>)
    requires Sorted(a) && Sorted(b) && multiset(a) == multiset(b)
    ensures a == b
  {
    hide Less;
    assert |multiset(a)| == |a| && |multiset(b)| == |b|;
    if a != [] {
      assert a[0] in multiset(b) && b[0] in multiset(a);
      SameHead(a, b);
      TailCount(a);
      TailCount(b);
      SortedUnique(a[1..], b[1..]);
      assert a == [a[0]] + a[1..] && b == [b[0]] + b[1..];
    }
  }

  /** Sorting depends only on which strings there are, and how often. */
  lemma {:induction false} SortCanonical(a: seq<string>, b: seq<string>)
    ensures multiset(a) == multiset(b) <==> Sort(a) == Sort(b)
  {
    if multiset(a) == multiset(b) {
      SortSorts(a);
      SortSorts(b);
      SortedUnique(Sort(a), Sort(b));
    }
  }

  // ----- distinct names

  predicate Distinct(names: seq<string>) {
    forall i, j :: 0 <= i < j < |names| ==> names[i] != names[j]
  }

  lemma {:induction false} DistinctCount(names: seq<string>, x: string)
    requires Distinct(names)
    ensures multiset(names)[x] <= 1
  {
    if names != [] {
      var front := names[..|names| - 1];
      DistinctCount(front, x);
      assert names == front + [names[|names| - 1]];
    }
  }

  /** Distinct names sort into a strictly ascending list. */
  lemma {:induction false} SortAscends(names: seq<string>)
    requires Distinct(names)
    ensures Ascending(Sort(names))
  {
    hide Sort, Less;
    var s := Sort(names);
    SortSorts(names);
    forall i | 0 < i < |s| ensures Less(s[i - 1], s[i]) {
      DistinctCount(names, s[i]);
      assert s == s[..i - 1] + [s[i - 1], s[i]] + s[i + 1..];
      assert multiset(s)[s[i]] >= multiset([s[i - 1], s[i]])[s[i]];
      LessTotal(s[i - 1], s[i]);
    }
  }
}

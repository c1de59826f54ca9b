/**
 The wildcard matcher behind every policy decision (policy/policy.go).

 `Matches` is the declarative meaning of a pattern: `*` stands for any run of
 characters, `?` for exactly one. `Scan` is the state of the source's loop, which
 remembers only the most recent star. The lemmas below say when the two agree.
 */
module Glob {

  /** What a pattern means: the specification the loop is measured against. */
  ghost predicate Matches(pat: string, val: string)
    decreases |pat|
  {
    if pat == [] then val == []
    else if pat[0] == '*' then exists k :: 0 <= k <= |val| && Matches(pat[1..], val[k..])
    else val != [] && (pat[0] == '?' || pat[0] == val[0]) && Matches(pat[1..], val[1..])
  }

  predicate OnlyStars(pat: string) {
    forall i :: 0 <= i < |pat| ==> pat[i] == '*'
  }

  /**
   The answer of the loop from the state (p, v, star, starV): the literal case is
   tried before the star case, and a mismatch returns to the last recorded star.
   */
  function Scan(pat: string, val: string, p: nat, v: nat, star: int, starV: nat): (r: bool)
    requires p <= |pat| && starV <= v <= |val| && -1 <= star < p
    decreases |val| - starV, |pat| - p
  {
    if v == |val| then OnlyStars(pat[p..])
    else if p < |pat| && (pat[p] == '?' || pat[p] == val[v]) then Scan(pat, val, p + 1, v + 1, star, starV)
    else if p < |pat| && pat[p] == '*' then Scan(pat, val, p + 1, v, p, v)
    else if star >= 0 then Scan(pat, val, star + 1, starV + 1, star, starV + 1)
    else false
  }

  function Match(pat: string, val: string): (r: bool) {
    Scan(pat, val, 0, 0, -1, 0)
  }

  /** The rows of a grid of n rows of w cells: n * w, added up row by row. */
  ghost function Cells(n: nat, w: nat): (c: nat) {
    if n == 0 then 0 else Cells(n - 1, w) + w
  }

  lemma {:induction false} CellsBounds(m: nat, n: nat, w: nat)
    requires m <= n
    ensures Cells(m, w) <= Cells(n, w) == n * w
    ensures Cells(m + 1, w) == Cells(m, w) + w
  {
    if n == 0 {
    } else if m == n {
      CellsBounds(n - 1, n - 1, w);
      assert n * w == (n - 1) * w + w;
    } else {
      CellsBounds(m, n - 1, w);
      assert n * w == (n - 1) * w + w;
    }
  }

  /**
   The loop itself. It computes Match, and the potential Cells(starV, |pat| + 1) + p
   grows on every iteration, which bounds their number.
   */
  method MatchRunes(pat: string, val: string) returns (r: bool, ghost iterations: nat)
    ensures r == Match(pat, val)
    ensures iterations <= (|val| + 1) * (|pat| + 1)
  {
    hide Cells, OnlyStars;
    var p, v := 0, 0;
    var star, starV := -1, 0;
    iterations := 0;
    ghost var w := |pat| + 1;
    CellsBounds(0, |val| + 1, w);
    while v < |val|
      invariant p <= |pat| && starV <= v <= |val| && -1 <= star < p
      invariant Scan(pat, val, p, v, star, starV) == Match(pat, val)
      invariant iterations <= Cells(starV, w) + p
      decreases |val| - starV, |pat| - p
    {
      CellsBounds(starV, v, w);
      if p < |pat| && (pat[p] == '?' || pat[p] == val[v]) {
        p, v := p + 1, v + 1;
      } else if p < |pat| && pat[p] == '*' {
        star, starV := p, v;
        p := p + 1;
      } else if star >= 0 {
        p := star + 1;
        starV := starV + 1;
        v := starV;
      } else {
        CellsBounds(starV + 1, |val| + 1, w);
        return false, iterations + 1;
      }
      iterations := iterations + 1;
    }
    CellsBounds(starV, |val|, w);
    CellsBounds(starV + 1, |val| + 1, w);
    p := SkipStars(pat, p);
    r := p == |pat|;
  }

  method SkipStars(pat: string, from: nat) returns (p: nat)
    requires from <= |pat|
    ensures from <= p <= |pat| && OnlyStars(pat[from..p])
    ensures p == |pat| <==> OnlyStars(pat[from..])
  {
    p := from;
    while p < |pat| && pat[p] == '*'
      invariant from <= p <= |pat|
      invariant OnlyStars(pat[from..p])
    {
      assert pat[from..p + 1] == pat[from..p] + [pat[p]];
      p := p + 1;
    }
    assert p < |pat| ==> pat[from..][p - from] == pat[p];
  }

  // ----- soundness: for every pattern and every value

  /** A later position of the recorded star from which the rest of the pattern matches. */
  ghost predicate Retry(pat: string, val: string, star: int, starV: nat)
    requires -1 <= star < |pat|
  {
    star >= 0 && exists k :: starV < k <= |val| && Matches(pat[star + 1..], val[k..])
  }

  lemma {:induction false} ScanSound(pat: string, val: string, p: nat, v: nat, star: int, starV: nat)
    requires p <= |pat| && starV <= v <= |val| && -1 <= star < p
    requires Scan(pat, val, p, v, star, starV)
    ensures Matches(pat[p..], val[v..]) || Retry(pat, val, star, starV)
    decreases |val| - starV, |pat| - p
  {
    if v == |val| {
      StarsMatchEmpty(pat[p..]);
    } else if p < |pat| && (pat[p] == '?' || pat[p] == val[v]) {
      ScanSound(pat, val, p + 1, v + 1, star, starV);
      if Matches(pat[p + 1..], val[v + 1..]) {
        assert pat[p..][1..] == pat[p + 1..] && val[v..][1..] == val[v + 1..];
      }
    } else if p < |pat| && pat[p] == '*' {
      ScanSound(pat, val, p + 1, v, p, v);
      StarTakes(pat, val, p, v, if Matches(pat[p + 1..], val[v..]) then v else RetryAt(pat, val, p, v));
    } else {
      ScanSound(pat, val, star + 1, starV + 1, star, starV + 1);
    }
  }

  ghost function RetryAt(pat: string, val: string, star: int, starV: nat): (k: nat)
    requires -1 <= star < |pat| && Retry(pat, val, star, starV)
    ensures star >= 0 && starV < k <= |val| && Matches(pat[star + 1..], val[k..])
  {
    var k :| starV < k <= |val| && Matches(pat[star + 1..], val[k..]);
    k
  }

  lemma {:induction false} StarTakes(pat: string, val: string, p: nat, v: nat, k: nat)
    requires p < |pat| && pat[p] == '*' && v <= k <= |val|
    requires Matches(pat[p + 1..], val[k..])
    ensures Matches(pat[p..], val[v..])
  {
    assert pat[p..][1..] == pat[p + 1..];
    assert val[v..][k - v..] == val[k..];
  }

  lemma {:induction false} StarTook(pat: string, val: string) returns (k: nat)
    requires pat != [] && pat[0] == '*' && Matches(pat, val)
    ensures k <= |val| && Matches(pat[1..], val[k..])
  {
    k :| k <= |val| && Matches(pat[1..], val[k..]);
  }

  lemma {:induction false} StarsMatchEmpty(pat: string)
    ensures OnlyStars(pat) <==> Matches(pat, "")
  {
    if pat != [] {
      StarsMatchEmpty(pat[1..]);
      var none: string := "";
      assert none[0..] == none;
      assert OnlyStars(pat) <==> pat[0] == '*' && OnlyStars(pat[1..]) by {
        assert pat == [pat[0]] + pat[1..];
      }
    }
  }

  /** The matcher never claims a match the pattern's meaning does not grant. */
  lemma {:induction false} MatchSound(pat: string, val: string)
    requires Match(pat, val)
    ensures Matches(pat, val)
  {
    ScanSound(pat, val, 0, 0, -1, 0);
    assert pat[0..] == pat && val[0..] == val;
  }

  // ----- completeness, although only the most recent star is remembered

  predicate StarFree(s: string) {
    '*' !in s
  }

  /** A star-free stretch at the front of a pattern uses exactly as many characters. */
  lemma {:induction false} StretchConsumes(pat: string, val: string, n: nat)
    requires n <= |pat| && StarFree(pat[..n])
    requires Matches(pat, val)
    ensures n <= |val| && Matches(pat[n..], val[n..])
    decreases n
  {
    if n == 0 {
      assert pat[0..] == pat && val[0..] == val;
    } else {
      assert pat[0] in pat[..n];
      assert pat[1..][..n - 1] == pat[..n][1..];
      StretchConsumes(pat[1..], val[1..], n - 1);
      assert pat[1..][n - 1..] == pat[n..] && val[1..][n - 1..] == val[n..];
    }
  }

  /**
   Why one star suffices: whatever an earlier star could still reach at a later
   position, the star just met can reach too.
   */
  lemma {:induction false} NewestStarSuffices(pat: string, val: string, p: nat, v: nat, star: nat, starV: nat)
    requires star < p < |pat| && pat[p] == '*' && starV <= v <= |val|
    requires p - star - 1 == v - starV && StarFree(pat[star + 1..p])
    requires Retry(pat, val, star, starV)
    ensures Matches(pat[p..], val[v..])
  {
    hide Matches;
    var k := RetryAt(pat, val, star, starV);
    var n := p - star - 1;
    assert pat[star + 1..][..n] == pat[star + 1..p];
    StretchConsumes(pat[star + 1..], val[k..], n);
    assert pat[star + 1..][n..] == pat[p..] && val[k..][n..] == val[k + n..];
    var j := StarTook(pat[p..], val[k + n..]);
    assert pat[p..][1..] == pat[p + 1..] && val[k + n..][j..] == val[k + n + j..];
    StarTakes(pat, val, p, v, k + n + j);
  }

  /** One character of the value against the front of a pattern that is not a star. */
  lemma {:induction false} FrontStep(pat: string, p: nat, val: string, v: nat)
    requires p <= |pat| && v < |val| && (p < |pat| ==> pat[p] != '*')
    ensures Matches(pat[p..], val[v..]) <==>
            p < |pat| && (pat[p] == '?' || pat[p] == val[v]) && Matches(pat[p + 1..], val[v + 1..])
  {
    if p < |pat| {
      assert pat[p..][1..] == pat[p + 1..] && val[v..][1..] == val[v + 1..];
    }
  }

  lemma {:induction false} NoRetryAtEnd(pat: string, val: string, p: nat, star: int, starV: nat)
    requires p <= |pat| && starV <= |val| && -1 <= star < p
    requires star >= 0 ==> p - star - 1 == |val| - starV && StarFree(pat[star + 1..p])
    ensures !Retry(pat, val, star, starV)
  {
    hide Matches;
    if Retry(pat, val, star, starV) {
      var k := RetryAt(pat, val, star, starV);
      assert pat[star + 1..][..p - star - 1] == pat[star + 1..p];
      StretchConsumes(pat[star + 1..], val[k..], p - star - 1);
      assert false;
    }
  }

  lemma {:induction false} ScanComplete(pat: string, val: string, p: nat, v: nat, star: int, starV: nat)
    requires p <= |pat| && starV <= v <= |val| && -1 <= star < p
    requires StarFree(val)
    requires star >= 0 ==> p - star - 1 == v - starV && StarFree(pat[star + 1..p])
    requires Matches(pat[p..], val[v..]) || Retry(pat, val, star, starV)
    ensures Scan(pat, val, p, v, star, starV)
    decreases |val| - starV, |pat| - p
  {
    hide Matches;
    if v == |val| {
      StarsMatchEmpty(pat[p..]);
      NoRetryAtEnd(pat, val, p, star, starV);
    } else if p < |pat| && (pat[p] == '?' || pat[p] == val[v]) {
      FrontStep(pat, p, val, v);
      if star >= 0 {
        assert pat[star + 1..p + 1] == pat[star + 1..p] + [pat[p]];
      }
      ScanComplete(pat, val, p + 1, v + 1, star, starV);
    } else if p < |pat| && pat[p] == '*' {
      if Retry(pat, val, star, starV) {
        NewestStarSuffices(pat, val, p, v, star, starV);
      }
      var k := StarTook(pat[p..], val[v..]);
      assert pat[p..][1..] == pat[p + 1..] && val[v..][k..] == val[v + k..];
      assert k == 0 || Retry(pat, val, p, v);
      ScanComplete(pat, val, p + 1, v, p, v);
    } else {
      FrontStep(pat, p, val, v);
      var k := RetryAt(pat, val, star, starV);
      assert k == starV + 1 || Retry(pat, val, star, starV + 1);
      ScanComplete(pat, val, star + 1, starV + 1, star, starV + 1);
    }
  }

  /** On a value without a literal star the matcher computes exactly the meaning. */
  lemma {:induction false} MatchExactOnStarFreeValue(pat: string, val: string)
    requires StarFree(val)
    ensures Match(pat, val) <==> Matches(pat, val)
  {
    assert pat[0..] == pat && val[0..] == val;
    if Match(pat, val) {
      MatchSound(pat, val);
    }
    if Matches(pat, val) {
      ScanComplete(pat, val, 0, 0, -1, 0);
    }
  }

  // ----- the other order of the two cases

  /** The same loop with the star case tried before the literal case. */
  function ScanStarFirst(pat: string, val: string, p: nat, v: nat, star: int, starV: nat): (r: bool)
    requires p <= |pat| && starV <= v <= |val| && -1 <= star < p
    decreases |val| - starV, |pat| - p
  {
    if v == |val| then OnlyStars(pat[p..])
    else if p < |pat| && pat[p] == '*' then ScanStarFirst(pat, val, p + 1, v, p, v)
    else if p < |pat| && (pat[p] == '?' || pat[p] == val[v]) then ScanStarFirst(pat, val, p + 1, v + 1, star, starV)
    else if star >= 0 then ScanStarFirst(pat, val, star + 1, starV + 1, star, starV + 1)
    else false
  }

  lemma {:induction false} ScanStarFirstExact(pat: string, val: string, p: nat, v: nat, star: int, starV: nat)
    requires p <= |pat| && starV <= v <= |val| && -1 <= star < p
    requires star >= 0 ==> p - star - 1 == v - starV && StarFree(pat[star + 1..p])
    ensures ScanStarFirst(pat, val, p, v, star, starV) <==> Matches(pat[p..], val[v..]) || Retry(pat, val, star, starV)
    decreases |val| - starV, |pat| - p
  {
    hide Matches;
    if v == |val| {
      StarsMatchEmpty(pat[p..]);
      assert val[v..] == "";
      NoRetryAtEnd(pat, val, p, star, starV);
    } else if p < |pat| && pat[p] == '*' {
      ScanStarFirstExact(pat, val, p + 1, v, p, v);
      StarStep(pat, val, p, v);
      if Retry(pat, val, star, starV) {
        NewestStarSuffices(pat, val, p, v, star, starV);
      }
    } else {
      FrontStep(pat, p, val, v);
      if p < |pat| && (pat[p] == '?' || pat[p] == val[v]) {
        if star >= 0 {
          assert pat[star + 1..p + 1] == pat[star + 1..p] + [pat[p]];
        }
        ScanStarFirstExact(pat, val, p + 1, v + 1, star, starV);
      } else if star >= 0 {
        ScanStarFirstExact(pat, val, star + 1, starV + 1, star, starV + 1);
        assert Retry(pat, val, star, starV) <==>
               Matches(pat[star + 1..], val[starV + 1..]) || Retry(pat, val, star, starV + 1);
      }
    }
  }

  /** A star in front matches exactly when it takes nothing, or something. */
  lemma {:induction false} StarStep(pat: string, val: string, p: nat, v: nat)
    requires p < |pat| && pat[p] == '*' && v <= |val|
    ensures Matches(pat[p..], val[v..]) <==> Matches(pat[p + 1..], val[v..]) || Retry(pat, val, p, v)
  {
    hide Matches;
    if Matches(pat[p..], val[v..]) {
      var k := StarTook(pat[p..], val[v..]);
      assert pat[p..][1..] == pat[p + 1..] && val[v..][k..] == val[v + k..];
      assert k == 0 || Retry(pat, val, p, v);
    }
    if Matches(pat[p + 1..], val[v..]) {
      StarTakes(pat, val, p, v, v);
    }
    if Retry(pat, val, p, v) {
      StarTakes(pat, val, p, v, RetryAt(pat, val, p, v));
    }
  }

  /**
   Only the order of the two cases stands in the way: with the star first, remembering
   one star decides the meaning of every pattern on every value.
   */
  lemma {:induction false} StarFirstIsExact(pat: string, val: string)
    ensures ScanStarFirst(pat, val, 0, 0, -1, 0) <==> Matches(pat, val)
  {
    assert pat[0..] == pat && val[0..] == val;
    ScanStarFirstExact(pat, val, 0, 0, -1, 0);
  }

  lemma {:induction false} ScanWithoutStars(pat: string, val: string, p: nat, v: nat)
    requires p <= |pat| && v <= |val| && StarFree(pat)
    requires Matches(pat[p..], val[v..])
    ensures Scan(pat, val, p, v, -1, 0)
    decreases |pat| - p
  {
    if v == |val| {
      StarsMatchEmpty(pat[p..]);
    } else {
      assert pat[p..][1..] == pat[p + 1..] && val[v..][1..] == val[v + 1..];
      ScanWithoutStars(pat, val, p + 1, v + 1);
    }
  }

  lemma {:induction false} MatchExactOnStarFreePattern(pat: string, val: string)
    requires StarFree(pat)
    ensures Match(pat, val) <==> Matches(pat, val)
  {
    assert pat[0..] == pat && val[0..] == val;
    if Match(pat, val) {
      MatchSound(pat, val);
    }
    if Matches(pat, val) {
      ScanWithoutStars(pat, val, 0, 0);
    }
  }

  // ----- the exact boundary: a star in the value can be taken for a literal

  lemma {:induction false} LiteralFront(lit: string, pat: string, val: string)
    requires StarFree(lit) && Matches(pat, val)
    ensures Matches(lit + pat, lit + val)
  {
    if lit == [] {
      assert lit + pat == pat && lit + val == val;
    } else {
      LiteralFront(lit[1..], pat, val);
      assert (lit + pat)[1..] == lit[1..] + pat && (lit + val)[1..] == lit[1..] + val;
    }
  }

  function Questions(n: nat): (q: string) {
    seq(n, _ => '?')
  }

  lemma {:induction false} QuestionsMatch(val: string)
    ensures Matches(Questions(|val|), val)
  {
    if val != [] {
      QuestionsMatch(val[1..]);
      assert Questions(|val|)[1..] == Questions(|val[1..]|);
    }
  }

  lemma {:induction false} FirstStar(s: string) returns (i: nat)
    requires !StarFree(s)
    ensures i < |s| && s[i] == '*' && StarFree(s[..i])
  {
    if s[0] == '*' {
      i := 0;
    } else {
      assert s == [s[0]] + s[1..];
      var j := FirstStar(s[1..]);
      i := j + 1;
      assert s[..i] == [s[0]] + s[1..][..j];
    }
  }

  /** The loop walks pattern and value in step, and is left with a question mark. */
  lemma {:induction false} LiteralStarTrap(val: string, i: nat, k: nat)
    requires i < |val| && val[i] == '*' && k <= |val|
    ensures !Scan(val[..i] + "*" + Questions(|val| - i), val, k, k, -1, 0)
    decreases |val| - k
  {
    var pat := val[..i] + "*" + Questions(|val| - i);
    if k < |val| {
      assert pat[k] == '?' || pat[k] == val[k];
      LiteralStarTrap(val, i, k + 1);
    } else {
      assert pat[k..][0] == '?';
    }
  }

  lemma {:induction false} StarThenQuestionsMatches(val: string, i: nat)
    requires i <= |val| && StarFree(val[..i])
    ensures Matches(val[..i] + "*" + Questions(|val| - i), val)
  {
    var tail := Questions(|val| - i);
    QuestionsMatch(val[i..]);
    var rest := "*" + tail;
    assert rest[1..] == tail && val[i..][0..] == val[i..];
    LiteralFront(val[..i], rest, val[i..]);
    assert val[..i] + val[i..] == val && val[..i] + rest == val[..i] + "*" + tail;
  }

  lemma {:induction false} StarredValueHasCounterexample(val: string) returns (pat: string)
    requires !StarFree(val)
    ensures Matches(pat, val) && !Match(pat, val)
  {
    var i := FirstStar(val);
    pat := val[..i] + "*" + Questions(|val| - i);
    StarThenQuestionsMatches(val, i);
    LiteralStarTrap(val, i, 0);
  }

  /** Agreement with the meaning for all patterns holds exactly on star-free values. */
  lemma {:induction false} ExactForEveryPatternIff(val: string)
    ensures (forall pat :: Match(pat, val) == Matches(pat, val)) <==> StarFree(val)
  {
    if StarFree(val) {
      forall pat ensures Match(pat, val) == Matches(pat, val) {
        MatchExactOnStarFreeValue(pat, val);
      }
    } else {
      var pat := StarredValueHasCounterexample(val);
    }
  }

  function Starred(s: string): (r: string) {
    seq(|s|, i requires 0 <= i < |s| => if s[i] == '?' then '*' else s[i])
  }

  lemma {:induction false} StarredMatches(pat: string)
    ensures Matches(pat, Starred(pat))
  {
    if pat != [] {
      StarredMatches(pat[1..]);
      assert Starred(pat)[1..] == Starred(pat[1..]);
    }
  }

  lemma {:induction false} DoubledStarTrap(pat: string, i: nat, k: nat)
    requires i < |pat| && pat[i] == '*' && k <= |pat|
    requires forall j :: i < j < k ==> pat[j] == '*' || pat[j] == '?'
    ensures !Scan(pat, pat[..i + 1] + "*" + Starred(pat[i + 1..]), k, k, -1, 0)
    decreases |pat| - k
  {
    var val := pat[..i + 1] + "*" + Starred(pat[i + 1..]);
    if k < |pat| {
      if k <= i {
        assert pat[k] == val[k];
      } else {
        assert val[k] == '*';
      }
      if pat[k] == '?' || pat[k] == val[k] {
        DoubledStarTrap(pat, i, k + 1);
      }
    }
  }

  lemma {:induction false} DoubledStarMatches(pat: string, i: nat)
    requires i < |pat| && pat[i] == '*' && StarFree(pat[..i])
    ensures Matches(pat, pat[..i + 1] + "*" + Starred(pat[i + 1..]))
  {
    var tail := "**" + Starred(pat[i + 1..]);
    StarredMatches(pat[i + 1..]);
    assert tail[2..] == Starred(pat[i + 1..]) && pat[i..][1..] == pat[i + 1..];
    LiteralFront(pat[..i], pat[i..], tail);
    assert pat[..i] + pat[i..] == pat && pat[..i] + tail == pat[..i + 1] + "*" + Starred(pat[i + 1..]);
  }

  lemma {:induction false} StarredPatternHasCounterexample(pat: string) returns (val: string)
    requires !StarFree(pat)
    ensures Matches(pat, val) && !Match(pat, val)
  {
    var i := FirstStar(pat);
    val := pat[..i + 1] + "*" + Starred(pat[i + 1..]);
    DoubledStarMatches(pat, i);
    DoubledStarTrap(pat, i, 0);
  }

  /** Agreement with the meaning for all values holds exactly for star-free patterns. */
  lemma {:induction false} ExactForEveryValueIff(pat: string)
    ensures (forall val :: Match(pat, val) == Matches(pat, val)) <==> StarFree(pat)
  {
    if StarFree(pat) {
      forall val ensures Match(pat, val) == Matches(pat, val) {
        MatchExactOnStarFreePattern(pat, val);
      }
    } else {
      var val := StarredPatternHasCounterexample(pat);
    }
  }

  // ----- facts the policy engine builds on

  lemma {:induction false} SelfScan(pat: string, k: nat)
    requires k <= |pat|
    ensures Scan(pat, pat, k, k, -1, 0)
    decreases |pat| - k
  {
    if k < |pat| {
      SelfScan(pat, k + 1);
    }
  }

  /** Every pattern matches itself read as a value, stars and question marks included. */
  lemma {:induction false} MatchesItself(pat: string)
    ensures Match(pat, pat)
  {
    SelfScan(pat, 0);
  }

  predicate WildcardFree(s: string) {
    '*' !in s && '?' !in s
  }

  /** A wildcard-free front of a pattern must stand literally at the front of the value. */
  lemma {:induction false} LiteralFrontForced(lit: string, pat: string, val: string)
    requires WildcardFree(lit) && Matches(lit + pat, val)
    ensures lit <= val && Matches(pat, val[|lit|..])
  {
    if lit == [] {
      assert lit + pat == pat && val[0..] == val;
    } else {
      assert lit[0] in lit && (lit + pat)[0] == lit[0] && (lit + pat)[1..] == lit[1..] + pat;
      LiteralFrontForced(lit[1..], pat, val[1..]);
      assert val[1..][|lit| - 1..] == val[|lit|..];
    }
  }
}

/**
 The canonical query string (sigv4/canonical.go canonicalQuery): decoded pairs are
 grouped by key, one key may be dropped, values are sorted per key, and everything is
 re-encoded key by key with spaces as %20.
 */
module Query {
  import opened Text
  import opened Ordering

  /** A decoded query parameter. */
  datatype Pair = Pair(key: string, value: string)

  type Values = map<string, seq<string>>

  // ----- grouping

  /** url.Values: each key's values in order of appearance. */
  function Group(pairs: seq<Pair>): (q: Values)
    ensures forall k :: k in q ==> q[k] != []
  {
    if pairs == [] then map[]
    else
      var q, p := Group(pairs[..|pairs| - 1]), pairs[|pairs| - 1];
      q[p.key := (if p.key in q then q[p.key] else []) + [p.value]]
  }

  /** The pairs that count: all of them, or all but those of the dropped key. */
  function Kept(pairs: seq<Pair>, drop: string): (r: seq<Pair>) {
    if pairs == [] then []
    else
      var rest, p := Kept(pairs[..|pairs| - 1], drop), pairs[|pairs| - 1];
      if drop != "" && p.key == drop then rest else rest + [p]
  }

  function Delete(q: Values, drop: string): (r: Values) {
    if drop != "" then q - {drop} else q
  }

  lemma {:induction false} GroupAppend(pairs: seq<Pair>, p: Pair)
    ensures var q := Group(pairs); Group(pairs + [p]) == q[p.key := (if p.key in q then q[p.key] else []) + [p.value]]
  {
    assert (pairs + [p])[..|pairs|] == pairs;
  }

  lemma {:induction false} DeleteGroups(pairs: seq<Pair>, drop: string)
    ensures Delete(Group(pairs), drop) == Group(Kept(pairs, drop))
  {
    hide Group;
    if pairs != [] {
      var front, p := pairs[..|pairs| - 1], pairs[|pairs| - 1];
      DeleteGroups(front, drop);
      assert pairs == front + [p];
      GroupAppend(front, p);
      GroupAppend(Kept(front, drop), p);
    } else {
      GroupNone();
    }
  }

  lemma {:induction false} GroupNone()
    ensures Group([]) == map[]
  {
  }

  /** Occurrences of a value among a key's values. */
  function CountIn(q: Values, p: Pair): (n: nat) {
    if p.key in q then multiset(q[p.key])[p.value] else 0
  }

  lemma {:induction false} GroupCounts(pairs: seq<Pair>, p: Pair)
    ensures CountIn(Group(pairs), p) == multiset(pairs)[p]
  {
    if pairs != [] {
      GroupCounts(pairs[..|pairs| - 1], p);
      assert pairs == pairs[..|pairs| - 1] + [pairs[|pairs| - 1]];
    }
  }

  // ----- the keys in order

  lemma {:induction false} LeastExists(ks: set<string>)
    requires ks != {}
    ensures exists k :: k in ks && forall x :: x in ks ==> x == k || Less(k, x)
  {
    hide Less;
    var k :| k in ks;
    var rest := ks - {k};
    if rest == {} {
      assert forall x :: x in ks ==> x == k || x in rest;
    } else {
      LeastExists(rest);
      var m :| m in rest && forall x :: x in rest ==> x == m || Less(m, x);
      LessTotal(k, m);
      if Less(k, m) {
        forall x | x in ks ensures x == k || Less(k, x) {
          if x != k && x != m {
            LessTransitive(k, m, x);
          }
        }
      } else {
        assert forall x :: x in ks ==> x == m || Less(m, x);
      }
    }
  }

  /** The keys in ascending order. */
  ghost function SortedKeys(ks: set<string>): (r: seq<string>)
    ensures Ascending(r)
    ensures forall x :: x in r <==> x in ks
    decreases |ks|
  {
    if ks == {} then []
    else
      LeastExists(ks);
      var k :| k in ks && forall x :: x in ks ==> x == k || Less(k, x);
      var rest := SortedKeys(ks - {k});
      assert rest != [] ==> rest[0] in rest;
      [k] + rest
  }

  /** Keys collected in any order without repetition come out the same once sorted. */
  lemma {:induction false} SortKeys(keys: seq<string>, ks: set<string>)
    requires Distinct(keys) && forall x :: x in keys <==> x in ks
    ensures Sort(keys) == SortedKeys(ks)
  {
    var s := Sort(keys);
    SortAscends(keys);
    assert forall x :: x in s <==> x in multiset(s);
    assert forall x :: x in keys <==> x in multiset(keys);
    AscendingUnique(s, SortedKeys(ks));
  }

  // ----- the pairs in canonical order

  function Tagged(key: string, values: seq<string>): (r: seq<Pair>) {
    seq(|values|, i requires 0 <= i < |values| => Pair(key, values[i]))
  }

  function Flatten(q: Values, keys: seq<string>): (r: seq<Pair>)
    requires forall k :: k in keys ==> k in q
  {
    if keys == [] then [] else Tagged(keys[0], Sort(q[keys[0]])) + Flatten(q, keys[1..])
  }

  ghost function Items(q: Values): (r: seq<Pair>) {
    Flatten(q, SortedKeys(q.Keys))
  }

  lemma {:induction false} TaggedCount(key: string, values: seq<string>, p: Pair)
    ensures multiset(Tagged(key, values))[p] == if p.key == key then multiset(values)[p.value] else 0
  {
    if values != [] {
      var front, v := values[..|values| - 1], values[|values| - 1];
      TaggedCount(key, front, p);
      assert values == front + [v] && Tagged(key, values) == Tagged(key, front) + [Pair(key, v)];
    }
  }

  lemma {:induction false} FlattenCount(q: Values, keys: seq<string>, p: Pair)
    requires Ascending(keys) && forall k :: k in keys ==> k in q
    ensures multiset(Flatten(q, keys))[p] == if p.key in keys then CountIn(q, p) else 0
  {
    if keys != [] {
      AscendingTail(keys);
      FlattenCount(q, keys[1..], p);
      TaggedCount(keys[0], Sort(q[keys[0]]), p);
      assert p.key in keys <==> p.key == keys[0] || p.key in keys[1..];
    }
  }

  /** The canonical order only rearranges: the pairs are recovered from it. */
  lemma {:induction false} ItemsArePairs(pairs: seq<Pair>)
    ensures multiset(Items(Group(pairs))) == multiset(pairs)
  {
    var q := Group(pairs);
    forall p ensures multiset(Items(q))[p] == multiset(pairs)[p] {
      FlattenCount(q, SortedKeys(q.Keys), p);
      GroupCounts(pairs, p);
    }
  }

  lemma {:induction false} FlattenCongruent(q: Values, r: Values, keys: seq<string>)
    requires forall k :: k in keys ==> k in q && k in r && multiset(q[k]) == multiset(r[k])
    ensures Flatten(q, keys) == Flatten(r, keys)
  {
    if keys != [] {
      SortCanonical(q[keys[0]], r[keys[0]]);
      FlattenCongruent(q, r, keys[1..]);
    }
  }

  lemma {:induction false} GroupKeys(pairs: seq<Pair>, k: string)
    ensures k in Group(pairs) <==> exists p :: p in pairs && p.key == k
  {
    if pairs != [] {
      var front, last := pairs[..|pairs| - 1], pairs[|pairs| - 1];
      GroupKeys(front, k);
      assert pairs == front + [last];
    }
  }

  lemma {:induction false} PermutedGroups(a: seq<Pair>, b: seq<Pair>)
    requires multiset(a) == multiset(b)
    ensures Group(a).Keys == Group(b).Keys
    ensures forall k :: k in Group(a) ==> multiset(Group(a)[k]) == multiset(Group(b)[k])
  {
    var q, r := Group(a), Group(b);
    assert forall p :: (p in a <==> p in multiset(a)) && (p in b <==> p in multiset(b));
    forall k ensures k in q <==> k in r {
      GroupKeys(a, k);
      GroupKeys(b, k);
    }
    forall k | k in q ensures multiset(q[k]) == multiset(r[k]) {
      forall v ensures multiset(q[k])[v] == multiset(r[k])[v] {
        GroupCounts(a, Pair(k, v));
        GroupCounts(b, Pair(k, v));
      }
    }
  }

  /** The canonical order depends on the pairs exactly up to permutation. */
  lemma {:induction false} ItemsEqualIff(a: seq<Pair>, b: seq<Pair>)
    ensures Items(Group(a)) == Items(Group(b)) <==> multiset(a) == multiset(b)
  {
    ItemsArePairs(a);
    ItemsArePairs(b);
    if multiset(a) == multiset(b) {
      PermutedGroups(a, b);
      FlattenCongruent(Group(a), Group(b), SortedKeys(Group(a).Keys));
    }
  }

  // ----- escaping

  predicate Bytes(s: string) {
    forall i :: 0 <= i < |s| ==> s[i] as int < 256
  }

  predicate BytePairs(pairs: seq<Pair>) {
    forall i :: 0 <= i < |pairs| ==> Bytes(pairs[i].key) && Bytes(pairs[i].value)
  }

  predicate Unreserved(c: char) {
    'a' <= c <= 'z' || 'A' <= c <= 'Z' || '0' <= c <= '9' || c == '-' || c == '_' || c == '.' || c == '~'
  }

  function HexUpper(v: nat): (c: char)
    requires v < 16
    ensures Unreserved(c)
  {
    if v < 10 then ('0' as int + v) as char else ('A' as int + v - 10) as char
  }

  /** The %XX form of a byte. */
  function Percent(c: char): (r: string) {
    ['%', HexUpper(c as int / 16 % 16), HexUpper(c as int % 16)]
  }

  /** url.QueryEscape of one byte: a space becomes a plus sign. */
  function QueryEscapeByte(c: char): (r: string) {
    if Unreserved(c) then [c] else if c == ' ' then "+" else Percent(c)
  }

  function QueryEscape(s: string): (r: string) {
    if s == "" then "" else QueryEscapeByte(s[0]) + QueryEscape(s[1..])
  }

  /** strings.ReplaceAll(t, "+", "%20"). */
  function PlusAsSpace(t: string): (r: string) {
    if t == "" then "" else (if t[0] == '+' then "%20" else [t[0]]) + PlusAsSpace(t[1..])
  }

  /** The canonical escape: unreserved bytes as they are, every other byte as %XX. */
  function EscapeByte(c: char): (r: string) {
    if Unreserved(c) then [c] else Percent(c)
  }

  function Escape(s: string): (r: string) {
    if s == "" then "" else EscapeByte(s[0]) + Escape(s[1..])
  }

  lemma {:induction false} PlusAsSpaceCons(c: char, s: string)
    ensures PlusAsSpace([c] + s) == (if c == '+' then "%20" else [c]) + PlusAsSpace(s)
  {
    assert ([c] + s)[1..] == s;
  }

  lemma {:induction false} PlusAsSpaceNone()
    ensures PlusAsSpace("") == ""
  {
  }

  lemma {:induction false} PlusAsSpaceConcat(a: string, b: string)
    ensures PlusAsSpace(a + b) == PlusAsSpace(a) + PlusAsSpace(b)
  {
    hide PlusAsSpace;
    if a == "" {
      PlusAsSpaceNone();
      assert a + b == b;
    } else {
      PlusAsSpaceConcat(a[1..], b);
      assert a == [a[0]] + a[1..] && a + b == [a[0]] + (a[1..] + b);
      PlusAsSpaceCons(a[0], a[1..]);
      PlusAsSpaceCons(a[0], a[1..] + b);
    }
  }

  lemma {:induction false} ByteEscapes(c: char)
    ensures PlusAsSpace(QueryEscapeByte(c)) == EscapeByte(c)
  {
    var r := QueryEscapeByte(c);
    assert |r| == 1 ==> r[1..] == "";
    assert |r| == 3 ==> r == [r[0]] + ([r[1]] + [r[2]]);
    if |r| == 3 {
      PlusAsSpaceConcat([r[0]], [r[1]] + [r[2]]);
      PlusAsSpaceConcat([r[1]], [r[2]]);
    }
  }

  /** Escaping for a form and then turning plus signs into %20 is the canonical escape. */
  lemma {:induction false} EscapeInTwoSteps(s: string)
    ensures PlusAsSpace(QueryEscape(s)) == Escape(s)
  {
    if s != "" {
      EscapeInTwoSteps(s[1..]);
      ByteEscapes(s[0]);
      PlusAsSpaceConcat(QueryEscapeByte(s[0]), QueryEscape(s[1..]));
    }
  }

  predicate Escaped(t: string) {
    forall i :: 0 <= i < |t| ==> Unreserved(t[i]) || t[i] == '%'
  }

  lemma {:induction false} EscapeIsEscaped(s: string)
    ensures Escaped(Escape(s)) && '=' !in Escape(s) && '&' !in Escape(s) && '\n' !in Escape(s)
  {
    if s != "" {
      EscapeIsEscaped(s[1..]);
    }
  }

  lemma {:induction false} PercentInjective(a: char, b: char)
    requires a as int < 256 && b as int < 256 && Percent(a) == Percent(b)
    ensures a == b
  {
    var s, t := Percent(a), Percent(b);
    assert s[1] == t[1] && s[2] == t[2];
    HexInjective(a as int / 16, b as int / 16);
    HexInjective(a as int % 16, b as int % 16);
  }

  lemma {:induction false} EscapeByteDecodes(a: char, x: string, b: char, y: string)
    requires a as int < 256 && b as int < 256
    requires EscapeByte(a) + x == EscapeByte(b) + y
    ensures a == b && x == y
  {
    hide HexUpper;
    var u, v := EscapeByte(a), EscapeByte(b);
    var s := u + x;
    assert s[0] == u[0] == v[0];
    assert Unreserved(a) <==> Unreserved(b);
    assert u == s[..|u|] && v == s[..|v|] && x == s[|u|..] && y == s[|v|..];
    if !Unreserved(a) {
      PercentInjective(a, b);
    }
  }

  lemma {:induction false} HexInjective(u: nat, v: nat)
    requires u < 16 && v < 16 && HexUpper(u) == HexUpper(v)
    ensures u == v
  {
  }

  lemma {:induction false} EscapeInjective(a: string, b: string)
    requires Bytes(a) && Bytes(b) && Escape(a) == Escape(b)
    ensures a == b
  {
    if a != "" && b != "" {
      EscapeByteDecodes(a[0], Escape(a[1..]), b[0], Escape(b[1..]));
      EscapeInjective(a[1..], b[1..]);
      assert a == [a[0]] + a[1..] && b == [b[0]] + b[1..];
    }
  }

  // ----- the text

  /** key=value pairs joined by ampersands, for a given escape. */
  function Render(items: seq<Pair>, esc: string -> string): (t: string) {
    if items == [] then ""
    else
      var first := esc(items[0].key) + "=" + esc(items[0].value);
      if |items| == 1 then first else first + "&" + Render(items[1..], esc)
  }

  ghost function CanonicalQuery(pairs: seq<Pair>, drop: string): (t: string) {
    PlusAsSpace(Render(Items(Delete(Group(pairs), drop)), QueryEscape))
  }

  lemma {:induction false} PlusAsSpaceRender(items: seq<Pair>)
    ensures PlusAsSpace(Render(items, QueryEscape)) == Render(items, Escape)
  {
    if items != [] {
      var k, v := QueryEscape(items[0].key), QueryEscape(items[0].value);
      EscapeInTwoSteps(items[0].key);
      EscapeInTwoSteps(items[0].value);
      PlusAsSpaceConcat(k + "=", v);
      PlusAsSpaceConcat(k, "=");
      PlusSpared();
      if |items| > 1 {
        var first := k + "=" + v;
        PlusAsSpaceRender(items[1..]);
        PlusAsSpaceConcat(first + "&", Render(items[1..], QueryEscape));
        PlusAsSpaceConcat(first, "&");
      }
    }
  }

  lemma {:induction false} PlusSpared()
    ensures PlusAsSpace("=") == "=" && PlusAsSpace("&") == "&"
  {
  }

  lemma {:induction false} RenderSplits(items: seq<Pair>)
    requires items != []
    ensures var k, v := Escape(items[0].key), Escape(items[0].value);
            Render(items, Escape) == k + "=" + (v + (if |items| == 1 then "" else "&" + Render(items[1..], Escape)))
  {
  }

  /** A value up to the next ampersand, or to the end. */
  lemma {:induction false} CutOrEnd(a: string, x: string, b: string, y: string)
    requires '&' !in a && '&' !in b
    requires (x == "" || x[0] == '&') && (y == "" || y[0] == '&')
    requires a + x == b + y
    ensures a == b && x == y
  {
    var s := a + x;
    assert forall i :: 0 <= i < |a| ==> s[i] == a[i] != '&';
    assert forall i :: 0 <= i < |b| ==> s[i] == b[i] != '&';
    assert x != "" ==> s[|a|] == '&';
    assert y != "" ==> s[|b|] == '&';
    assert a == s[..|a|] && b == s[..|b|] && x == s[|a|..] && y == s[|b|..];
  }

  lemma {:induction false} RenderInjective(a: seq<Pair>, b: seq<Pair>)
    requires BytePairs(a) && BytePairs(b) && Render(a, Escape) == Render(b, Escape)
    ensures a == b
  {
    hide Render, Escape;
    RenderEmpty(a);
    RenderEmpty(b);
    if a != [] && b != [] {
      RenderSplits(a);
      RenderSplits(b);
      var k, l, v, w := Escape(a[0].key), Escape(b[0].key), Escape(a[0].value), Escape(b[0].value);
      EscapeIsEscaped(a[0].key);
      EscapeIsEscaped(b[0].key);
      EscapeIsEscaped(a[0].value);
      EscapeIsEscaped(b[0].value);
      var x := if |a| == 1 then "" else "&" + Render(a[1..], Escape);
      var y := if |b| == 1 then "" else "&" + Render(b[1..], Escape);
      CutIsUnique(k, v + x, l, w + y, '=');
      CutOrEnd(v, x, w, y);
      EscapeInjective(a[0].key, b[0].key);
      EscapeInjective(a[0].value, b[0].value);
      if |a| > 1 {
        assert x[1..] == Render(a[1..], Escape) && y[1..] == Render(b[1..], Escape);
        RenderInjective(a[1..], b[1..]);
      }
      assert a == [a[0]] + a[1..] && b == [b[0]] + b[1..];
    }
  }

  lemma {:induction false} RenderEmpty(items: seq<Pair>)
    ensures Render(items, Escape) == "" <==> items == []
  {
  }

  lemma {:induction false} RenderOneLine(items: seq<Pair>)
    ensures '\n' !in Render(items, Escape)
  {
    if items != [] {
      EscapeIsEscaped(items[0].key);
      EscapeIsEscaped(items[0].value);
      if |items| > 1 {
        RenderOneLine(items[1..]);
      }
    }
  }

  lemma {:induction false} CanonicalQueryText(pairs: seq<Pair>, drop: string)
    ensures CanonicalQuery(pairs, drop) == Render(Items(Group(Kept(pairs, drop))), Escape)
    ensures '\n' !in CanonicalQuery(pairs, drop)
  {
    DeleteGroups(pairs, drop);
    PlusAsSpaceRender(Items(Group(Kept(pairs, drop))));
    RenderOneLine(Items(Group(Kept(pairs, drop))));
  }

  lemma {:induction false} KeptMembers(pairs: seq<Pair>, drop: string, p: Pair)
    requires p in Kept(pairs, drop)
    ensures p in pairs
  {
    if pairs != [] {
      var front, last := pairs[..|pairs| - 1], pairs[|pairs| - 1];
      assert pairs == front + [last];
      if p in Kept(front, drop) {
        KeptMembers(front, drop, p);
      }
    }
  }

  lemma {:induction false} ItemsAreBytes(pairs: seq<Pair>, drop: string)
    requires BytePairs(pairs)
    ensures BytePairs(Items(Group(Kept(pairs, drop))))
  {
    var kept := Kept(pairs, drop);
    var items := Items(Group(kept));
    ItemsArePairs(kept);
    forall i | 0 <= i < |items| ensures Bytes(items[i].key) && Bytes(items[i].value) {
      assert items[i] in multiset(items);
      assert items[i] in kept;
      KeptMembers(pairs, drop, items[i]);
    }
  }

  /** Two queries have the same canonical text exactly when the pairs that count are permutations of each other. */
  lemma {:induction false} CanonicalQueryEqualIff(a: seq<Pair>, b: seq<Pair>, drop: string)
    requires BytePairs(a) && BytePairs(b)
    ensures CanonicalQuery(a, drop) == CanonicalQuery(b, drop) <==> multiset(Kept(a, drop)) == multiset(Kept(b, drop))
  {
    hide CanonicalQuery, Render, Items, Group, Kept;
    CanonicalQueryText(a, drop);
    CanonicalQueryText(b, drop);
    ItemsEqualIff(Kept(a, drop), Kept(b, drop));
    if CanonicalQuery(a, drop) == CanonicalQuery(b, drop) {
      ItemsAreBytes(a, drop);
      ItemsAreBytes(b, drop);
      RenderInjective(Items(Group(Kept(a, drop))), Items(Group(Kept(b, drop))));
    }
  }

  // ----- reading the canonical text back

  // The unreserved characters of section 2.3 of RFC 3986, listed.
  const CAPITALS := "ABCDEFGHIJKLMNOPQRSTUVWXYZ"
  const LETTERS := "abcdefghijklmnopqrstuvwxyz"
  const DIGITS := "0123456789"
  const MARKS := "-._~"

  predicate IsUnreserved(c: char) {
    c in CAPITALS || c in LETTERS || c in DIGITS || c in MARKS
  }

  const HEX := "0123456789ABCDEF"

  lemma {:induction false} CapitalsIff(c: char)
    ensures c in CAPITALS <==> 'A' <= c <= 'Z'
  {
    if 'A' <= c <= 'Z' {
      assert CAPITALS[c as int - 'A' as int] == c;
    }
  }

  lemma {:induction false} LettersIff(c: char)
    ensures c in LETTERS <==> 'a' <= c <= 'z'
  {
    if 'a' <= c <= 'z' {
      assert LETTERS[c as int - 'a' as int] == c;
    }
  }

  lemma {:induction false} DigitsIff(c: char)
    ensures c in DIGITS <==> '0' <= c <= '9'
  {
    if '0' <= c <= '9' {
      assert DIGITS[c as int - '0' as int] == c;
    }
  }

  lemma {:induction false} UnreservedIff(c: char)
    ensures Unreserved(c) <==> IsUnreserved(c)
  {
    hide CAPITALS, LETTERS, DIGITS;
    CapitalsIff(c);
    LettersIff(c);
    DigitsIff(c);
    assert MARKS[0] == '-' && MARKS[1] == '.' && MARKS[2] == '_' && MARKS[3] == '~';
  }

  lemma {:induction false} HexUpperMeans(v: nat)
    requires v < 16
    ensures HexUpper(v) == HEX[v]
  {
  }

  /** The byte a canonical escape stands for: an unreserved one for itself, every other one as two capital digits. */
  predicate EscapeOf(c: char, t: string) {
    if IsUnreserved(c) then t == [c] else t == ['%', HEX[c as int / 16 % 16], HEX[c as int % 16]]
  }

  lemma {:induction false} EscapeByteMeans(c: char)
    ensures EscapeOf(c, EscapeByte(c))
  {
    hide Unreserved, HexUpper, IsUnreserved;
    UnreservedIff(c);
    HexUpperMeans(c as int / 16 % 16);
    HexUpperMeans(c as int % 16);
  }

  /** The whole escape, byte by byte. */
  predicate EscapeOfText(s: string, t: string)
    decreases |s|
  {
    if s == "" then t == ""
    else
      var n := if IsUnreserved(s[0]) then 1 else 3;
      n <= |t| && EscapeOf(s[0], t[..n]) && EscapeOfText(s[1..], t[n..])
  }

  lemma {:induction false} EscapeMeans(s: string)
    ensures EscapeOfText(s, Escape(s))
  {
    hide EscapeByte, EscapeOf, IsUnreserved;
    if s != "" {
      EscapeByteMeans(s[0]);
      EscapeWidth(s[0], EscapeByte(s[0]));
      EscapeMeans(s[1..]);
      var n := |EscapeByte(s[0])|;
      assert Escape(s)[..n] == EscapeByte(s[0]) && Escape(s)[n..] == Escape(s[1..]);
    }
  }

  lemma {:induction false} EscapeWidth(c: char, t: string)
    requires EscapeOf(c, t)
    ensures |t| == if IsUnreserved(c) then 1 else 3
  {
  }

  predicate NotBehind(x: Pair, y: Pair) {
    Less(x.key, y.key) || (x.key == y.key && !Less(y.value, x.value))
  }

  /** Ascending by key, and by value under the same key. */
  ghost predicate SortedPairs(items: seq<Pair>) {
    forall i, j :: 0 <= i < j < |items| ==> NotBehind(items[i], items[j])
  }

  lemma {:induction false} FlattenSorted(q: Values, keys: seq<string>)
    requires Ascending(keys) && forall k :: k in keys ==> k in q
    ensures SortedPairs(Flatten(q, keys))
    ensures forall p :: p in Flatten(q, keys) ==> p.key in keys
  {
    hide Sort, Less;
    if keys != [] {
      AscendingTail(keys);
      FlattenSorted(q, keys[1..]);
      SortSorts(q[keys[0]]);
      var a, b := Tagged(keys[0], Sort(q[keys[0]])), Flatten(q, keys[1..]);
      forall i, j | 0 <= i < j < |a + b| ensures NotBehind((a + b)[i], (a + b)[j]) {
        if i < |a| <= j {
          assert b[j - |a|] in b;
        }
      }
    }
  }

  lemma {:induction false} RenderParts(items: seq<Pair>)
    requires items != []
    ensures Split(Render(items, Escape), '&') ==
            seq(|items|, i requires 0 <= i < |items| => Escape(items[i].key) + "=" + Escape(items[i].value))
  {
    hide Split, Render, Escape;
    RenderSplits(items);
    EscapeIsEscaped(items[0].key);
    EscapeIsEscaped(items[0].value);
    var t := Escape(items[0].key) + "=" + Escape(items[0].value);
    if |items| == 1 {
      assert Render(items, Escape) == t;
      SplitPlain(t, '&');
    } else {
      var rest := items[1..];
      RenderParts(rest);
      assert Render(items, Escape) == t + ['&'] + Render(rest, Escape);
      SplitFirst(t, Render(rest, Escape), '&');
    }
  }

  /**
   What the canonical query is: the pairs that count, ascending by key and then by value, each as its escaped key, an
   equals sign and its escaped value, with ampersands between them.
   */
  lemma {:induction false} CanonicalQueryMeans(pairs: seq<Pair>, drop: string) returns (items: seq<Pair>)
    ensures SortedPairs(items)
    ensures forall p :: multiset(items)[p] == if drop != "" && p.key == drop then 0 else multiset(pairs)[p]
    ensures items == [] ==> CanonicalQuery(pairs, drop) == ""
    ensures items != [] ==>
              Split(CanonicalQuery(pairs, drop), '&') ==
              seq(|items|, i requires 0 <= i < |items| => Escape(items[i].key) + "=" + Escape(items[i].value))
  {
    hide Render, CanonicalQuery, Kept, Group, Split, Escape;
    var kept := Kept(pairs, drop);
    var q := Group(kept);
    items := Items(q);
    CanonicalQueryText(pairs, drop);
    ItemsArePairs(kept);
    FlattenSorted(q, SortedKeys(q.Keys));
    forall p ensures multiset(items)[p] == if drop != "" && p.key == drop then 0 else multiset(pairs)[p] {
      KeptCounts(pairs, drop, p);
    }
    RenderEmpty(items);
    if items != [] {
      RenderParts(items);
    }
  }

  lemma {:induction false} KeptCounts(pairs: seq<Pair>, drop: string, p: Pair)
    ensures multiset(Kept(pairs, drop))[p] == if drop != "" && p.key == drop then 0 else multiset(pairs)[p]
  {
    if pairs != [] {
      KeptCounts(pairs[..|pairs| - 1], drop, p);
      assert pairs == pairs[..|pairs| - 1] + [pairs[|pairs| - 1]];
    }
  }

  // ----- the builder

  method EncodeQuery(pairs: seq<Pair>, drop: string) returns (r: string)
    ensures r == CanonicalQuery(pairs, drop)
  {
    var q: Values := map[];
    for i := 0 to |pairs|
      invariant q == Group(pairs[..i])
    {
      assert pairs[..i + 1][..i] == pairs[..i];
      var p := pairs[i];
      q := q[p.key := (if p.key in q then q[p.key] else []) + [p.value]];
    }
    assert pairs[..|pairs|] == pairs;
    if drop != "" {
      q := q - {drop};
    }
    var keys := CollectKeys(q);
    keys := Sort(keys);
    var buf := EncodeItems(q, keys);
    r := PlusAsSpace(buf);
  }

  /** The keys of a map, in whatever order the iteration yields them. */
  method CollectKeys(q: Values) returns (keys: seq<string>)
    ensures forall x :: x in keys <==> x in q
    ensures Distinct(keys)
    ensures Sort(keys) == SortedKeys(q.Keys)
  {
    keys := [];
    var left := q.Keys;
    while left != {}
      invariant left <= q.Keys
      invariant forall x :: x in keys <==> x in q.Keys - left
      invariant Distinct(keys)
      decreases left
    {
      var k :| k in left;
      assert k !in keys;
      keys := keys + [k];
      left := left - {k};
    }
    SortKeys(keys, q.Keys);
  }

  lemma {:induction false} RenderCons(p: Pair, items: seq<Pair>, esc: string -> string)
    ensures Render([p] + items, esc) ==
            esc(p.key) + "=" + esc(p.value) + (if items == [] then "" else "&" + Render(items, esc))
  {
    assert ([p] + items)[1..] == items;
  }

  lemma {:induction false} RenderAppend(items: seq<Pair>, p: Pair, esc: string -> string)
    ensures Render(items + [p], esc) ==
            Render(items, esc) + (if items == [] then "" else "&") + esc(p.key) + "=" + esc(p.value)
  {
    hide Render;
    RenderCons(p, [], esc);
    if items == [] {
      RenderNonEmpty(items, esc);
      assert items + [p] == [p] + [];
    } else {
      var rest := items[1..];
      RenderAppend(rest, p, esc);
      assert items == [items[0]] + rest && items + [p] == [items[0]] + (rest + [p]);
      RenderCons(items[0], rest, esc);
      RenderCons(items[0], rest + [p], esc);
      RenderNonEmpty(rest, esc);
    }
  }

  lemma {:induction false} RenderNonEmpty(items: seq<Pair>, esc: string -> string)
    ensures Render(items, esc) == "" <==> items == []
  {
  }

  lemma {:induction false} FlattenStep(q: Values, keys: seq<string>, i: nat)
    requires i < |keys| && forall k :: k in keys ==> k in q
    ensures Flatten(q, keys[..i + 1]) == Flatten(q, keys[..i]) + Tagged(keys[i], Sort(q[keys[i]]))
  {
    hide Flatten, Tagged, Sort;
    FlattenAppend(q, keys[..i], keys[i]);
    assert keys[..i + 1] == keys[..i] + [keys[i]];
  }

  lemma {:induction false} FlattenAppend(q: Values, keys: seq<string>, k: string)
    requires k in q && forall x :: x in keys ==> x in q
    ensures Flatten(q, keys + [k]) == Flatten(q, keys) + Tagged(k, Sort(q[k]))
  {
    hide Tagged, Sort;
    if keys == [] {
      assert ([] + [k])[1..] == [];
    } else {
      FlattenAppend(q, keys[1..], k);
      var all := keys + [k];
      assert all[0] == keys[0] && all[1..] == keys[1..] + [k];
    }
  }

  /** The inner loop of the encoder: one key's values, appended to what is written already. */
  method EncodeValues(key: string, vs: seq<string>, start: string, ghost items: seq<Pair>) returns (buf: string)
    requires start == Render(items, QueryEscape)
    ensures buf == Render(items + Tagged(key, vs), QueryEscape)
  {
    hide Render, QueryEscape;
    buf := start;
    ghost var done := items;
    assert items + Tagged(key, vs[..0]) == items;
    for j := 0 to |vs|
      invariant done == items + Tagged(key, vs[..j]) && buf == Render(done, QueryEscape)
    {
      ghost var p := Pair(key, vs[j]);
      RenderNonEmpty(done, QueryEscape);
      RenderAppend(done, p, QueryEscape);
      assert Tagged(key, vs[..j + 1]) == Tagged(key, vs[..j]) + [p];
      if |buf| > 0 {
        buf := buf + "&";
      }
      buf := buf + QueryEscape(key) + "=" + QueryEscape(vs[j]);
      done := done + [p];
    }
    assert vs[..|vs|] == vs;
  }

  method EncodeItems(q: Values, keys: seq<string>) returns (buf: string)
    requires forall k :: k in keys ==> k in q
    ensures buf == Render(Flatten(q, keys), QueryEscape)
  {
    hide Render, Flatten, QueryEscape, Tagged;
    buf := "";
    RenderNonEmpty([], QueryEscape);
    FlattenNone(q);
    assert keys[..0] == [];
    for i := 0 to |keys|
      invariant buf == Render(Flatten(q, keys[..i]), QueryEscape)
    {
      FlattenStep(q, keys, i);
      var vs := Sort(q[keys[i]]);
      buf := EncodeValues(keys[i], vs, buf, Flatten(q, keys[..i]));
    }
    assert keys[..|keys|] == keys;
  }

  lemma {:induction false} FlattenNone(q: Values)
    ensures Flatten(q, []) == []
  {
  }
}

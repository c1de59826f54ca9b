/** Small text vocabulary shared by the models; strings are sequences of bytes written as characters. */
module Text {

  datatype Option<+T> = None | Some(value: T)

  function LowerChar(c: char): (r: char) {
    if 'A' <= c <= 'Z' then (c as int + 32) as char else c
  }

  /** strings.ToLower on ASCII. */
  function ToLower(s: string): (r: string) {
    seq(|s|, i requires 0 <= i < |s| => LowerChar(s[i]))
  }

  predicate HasSuffix(s: string, suffix: string) {
    |suffix| <= |s| && s[|s| - |suffix|..] == suffix
  }

  /** ASCII white space. */
  predicate IsSpace(c: char) {
    c == ' ' || '\t' <= c <= '\r'
  }

  /** The two bytes of U+0085 or U+00A0. */
  predicate PairSpace(a: int, b: int) {
    a == 0xC2 && (b == 0x85 || b == 0xA0)
  }

  /** The three bytes of one of the other runes of unicode.IsSpace. */
  predicate WideSpace(a: int, b: int, c: int) {
    || (a == 0xE1 && b == 0x9A && c == 0x80)
    || (a == 0xE2 && b == 0x80 && (0x80 <= c <= 0x8A || c == 0xA8 || c == 0xA9 || c == 0xAF))
    || (a == 0xE2 && b == 0x81 && c == 0x9F)
    || (a == 0xE3 && b == 0x80 && c == 0x80)
  }

  /** The n bytes from i on are one white-space rune. */
  predicate SpaceRune(s: string, i: int, n: nat) {
    && 0 <= i <= i + n <= |s|
    && (|| (n == 1 && IsSpace(s[i]))
        || (n == 2 && PairSpace(s[i] as int, s[i + 1] as int))
        || (n == 3 && WideSpace(s[i] as int, s[i + 1] as int, s[i + 2] as int)))
  }

  /** The width of the white-space rune at the front, 0 when there is none. */
  function SpaceFront(s: string): (n: nat)
    ensures n <= |s|
    ensures n > 0 ==> SpaceRune(s, 0, n)
    ensures n == 0 ==> forall k: nat :: !SpaceRune(s, 0, k)
  {
    if SpaceRune(s, 0, 1) then 1 else if SpaceRune(s, 0, 2) then 2 else if SpaceRune(s, 0, 3) then 3 else 0
  }

  /** The width of the white-space rune at the end, 0 when there is none. */
  function SpaceBack(s: string): (n: nat)
    ensures n <= |s|
    ensures n > 0 ==> SpaceRune(s, |s| - n, n)
    ensures n == 0 ==> forall i, k: nat :: i + k == |s| ==> !SpaceRune(s, i, k)
  {
    if SpaceRune(s, |s| - 1, 1) then 1
    else if SpaceRune(s, |s| - 2, 2) then 2
    else if SpaceRune(s, |s| - 3, 3) then 3
    else 0
  }

  function TrimLeft(s: string): (r: string)
    decreases |s|
  {
    var n := SpaceFront(s);
    if n > 0 then TrimLeft(s[n..]) else s
  }

  function TrimEnd(s: string): (r: string)
    decreases |s|
  {
    var n := SpaceBack(s);
    if n > 0 then TrimEnd(s[..|s| - n]) else s
  }

  /** strings.TrimSpace on UTF-8, and on bytes that are not. */
  function TrimSpace(s: string): (r: string) {
    TrimEnd(TrimLeft(s))
  }

  lemma {:induction false} NothingToTrim(s: string)
    requires SpaceFront(s) == 0 && SpaceBack(s) == 0
    ensures TrimSpace(s) == s
  {
    hide SpaceFront, SpaceBack;
  }

  /** Cutting at the first separator is unambiguous when the front parts do not contain it. */
  lemma {:induction false} CutIsUnique(a: string, x: string, b: string, y: string, sep: char)
    requires sep !in a && sep !in b && a + [sep] + x == b + [sep] + y
    ensures a == b && x == y
  {
    var s := a + [sep] + x;
    assert s[|a|] == sep && s[|b|] == sep;
    assert forall i :: 0 <= i < |a| ==> s[i] == a[i] != sep;
    assert forall i :: 0 <= i < |b| ==> s[i] == b[i] != sep;
    assert a == s[..|a|] && b == s[..|b|];
    assert x == s[|a| + 1..] && y == s[|b| + 1..];
  }

  // ----- what the functions above mean

  /** Lower case changes exactly the capital letters, each to its own small letter. */
  lemma {:induction false} ToLowerMeans(s: string)
    ensures |ToLower(s)| == |s|
    ensures forall i :: 0 <= i < |s| && 'A' <= s[i] <= 'Z' ==>
              'a' <= ToLower(s)[i] <= 'z' && ToLower(s)[i] as int - 'a' as int == s[i] as int - 'A' as int
    ensures forall i :: 0 <= i < |s| && !('A' <= s[i] <= 'Z') ==> ToLower(s)[i] == s[i]
  {
  }

  /** The runes of unicode.IsSpace. */
  predicate SpaceCode(r: nat) {
    || 9 <= r <= 13 || r == 0x20 || r == 0x85 || r == 0xA0 || r == 0x1680 || 0x2000 <= r <= 0x200A
    || r == 0x2028 || r == 0x2029 || r == 0x202F || r == 0x205F || r == 0x3000
  }

  /** The bytes of a rune, section 3 of RFC 3629. */
  function Utf8(r: nat): (s: string)
    requires r < 0x110000
  {
    if r < 0x80 then [r as char]
    else if r < 0x800 then [(0xC0 + r / 64) as char, (0x80 + r % 64) as char]
    else if r < 0x10000 then [(0xE0 + r / 4096) as char, (0x80 + r / 64 % 64) as char, (0x80 + r % 64) as char]
    else
      [(0xF0 + r / 262144) as char, (0x80 + r / 4096 % 64) as char, (0x80 + r / 64 % 64) as char,
       (0x80 + r % 64) as char]
  }

  /** The bytes of a text. */
  function Utf8Text(s: string): (t: string) {
    if s == "" then "" else Utf8Text(s[..|s| - 1]) + Utf8(s[|s| - 1] as int)
  }

  /** The bytes recognized as white space are exactly the encodings of the white-space runes. */
  lemma {:induction false} SpaceRuneIff(s: string)
    ensures SpaceRune(s, 0, |s|) <==> exists r: nat :: SpaceCode(r) && Utf8(r) == s
  {
    if SpaceRune(s, 0, |s|) {
      var r := RuneOf(s);
      assert SpaceCode(r) && Utf8(r) == s;
    }
    forall r: nat | SpaceCode(r) && Utf8(r) == s ensures SpaceRune(s, 0, |s|) {
      SpaceIsRecognized(r);
    }
  }

  lemma {:induction false} RuneOf(s: string) returns (r: nat)
    requires SpaceRune(s, 0, |s|)
    ensures SpaceCode(r) && Utf8(r) == s
  {
    if |s| == 3 {
      r := WideRuneOf(s[0] as int, s[1] as int, s[2] as int);
    } else {
      r := s[|s| - 1] as int;
    }
  }

  lemma {:induction false} WideRuneOf(a: int, b: int, c: int) returns (r: nat)
    requires WideSpace(a, b, c)
    ensures SpaceCode(r) && Utf8(r) == [a as char, b as char, c as char]
  {
    r := if a == 0xE1 then 0x1680 else if a == 0xE3 then 0x3000 else if b == 0x81 then 0x205F else 0x1F80 + c;
  }

  lemma {:induction false} SpaceIsRecognized(r: nat)
    requires SpaceCode(r)
    ensures SpaceRune(Utf8(r), 0, |Utf8(r)|)
  {
  }

  /** Nothing but white space. */
  predicate AllSpace(s: string)
    decreases |s|
  {
    s == "" || exists n :: 0 < n <= |s| && SpaceRune(s, 0, n) && AllSpace(s[n..])
  }

  lemma {:induction false} NoSpaceAtAll()
    ensures AllSpace("")
  {
  }

  lemma {:induction false} AllSpaceAppend(s: string, w: string)
    requires AllSpace(s) && w != "" && SpaceRune(w, 0, |w|)
    ensures AllSpace(s + w)
    decreases |s|
  {
    hide SpaceRune;
    if s == "" {
      assert s + w == w && w[|w|..] == "";
    } else {
      var n :| 0 < n <= |s| && SpaceRune(s, 0, n) && AllSpace(s[n..]);
      AllSpaceAppend(s[n..], w);
      assert (s + w)[n..] == s[n..] + w && (s + w)[..n] == s[..n];
      SameRune(s, s + w, n);
    }
  }

  lemma {:induction false} SameRune(s: string, t: string, n: nat)
    requires n <= |s| && n <= |t| && s[..n] == t[..n]
    ensures SpaceRune(s, 0, n) <==> SpaceRune(t, 0, n)
  {
    hide IsSpace, PairSpace, WideSpace;
    assert forall i :: 0 <= i < n ==> s[i] == s[..n][i] && t[i] == t[..n][i];
  }

  lemma {:induction false} TrimLeftCuts(s: string) returns (a: string)
    ensures s == a + TrimLeft(s) && AllSpace(a)
    decreases |s|
  {
    hide IsSpace, PairSpace, WideSpace;
    var n := SpaceFront(s);
    a := "";
    if n > 0 {
      var rest := TrimLeftCuts(s[n..]);
      a := s[..n] + rest;
      assert SpaceRune(a, 0, n) && a[n..] == rest;
      assert s == s[..n] + s[n..];
    }
  }

  lemma {:induction false} TrimEndCuts(s: string) returns (b: string)
    ensures s == TrimEnd(s) + b && AllSpace(b)
    decreases |s|
  {
    hide IsSpace, PairSpace, WideSpace, AllSpace;
    NoSpaceAtAll();
    var n := SpaceBack(s);
    b := "";
    if n > 0 {
      var k := |s| - n;
      var front := TrimEndCuts(s[..k]);
      b := front + s[k..];
      assert SpaceRune(s[k..], 0, n);
      AllSpaceAppend(front, s[k..]);
      assert s == s[..k] + s[k..];
    } else {
      assert s == s + "";
    }
  }

  lemma {:induction false} FrontIsFound(s: string, r: nat)
    requires SpaceCode(r) && Utf8(r) <= s
    ensures SpaceFront(s) > 0
  {
    hide IsSpace, PairSpace, WideSpace, SpaceCode;
    SpaceIsRecognized(r);
    SameRune(Utf8(r), s, |Utf8(r)|);
  }

  lemma {:induction false} BackIsFound(s: string, a: string, r: nat)
    requires SpaceCode(r) && s == a + Utf8(r)
    ensures SpaceBack(s) > 0
  {
    hide IsSpace, PairSpace, WideSpace, SpaceCode;
    SpaceIsRecognized(r);
    var k := |a|;
    assert forall i :: 0 <= i < |Utf8(r)| ==> s[k + i] == Utf8(r)[i];
  }

  lemma {:induction false} TrimLeftClears(s: string)
    ensures SpaceFront(TrimLeft(s)) == 0
    decreases |s|
  {
    hide SpaceFront;
    if SpaceFront(s) > 0 {
      TrimLeftClears(s[SpaceFront(s)..]);
    }
  }

  lemma {:induction false} TrimEndClears(s: string)
    ensures SpaceBack(TrimEnd(s)) == 0
    decreases |s|
  {
    hide SpaceBack;
    if SpaceBack(s) > 0 {
      TrimEndClears(s[..|s| - SpaceBack(s)]);
    }
  }

  /** Trimming takes white space off both ends, all of it and nothing else. */
  lemma {:induction false} TrimSpaceCuts(s: string) returns (a: string, b: string)
    ensures s == a + TrimSpace(s) + b && AllSpace(a) && AllSpace(b)
    ensures forall r: nat :: SpaceCode(r) ==> !(Utf8(r) <= TrimSpace(s))
    ensures forall r: nat, x :: SpaceCode(r) ==> TrimSpace(s) != x + Utf8(r)
  {
    hide SpaceFront, SpaceBack, Utf8, TrimLeft, TrimEnd, AllSpace;
    a := TrimLeftCuts(s);
    b := TrimEndCuts(TrimLeft(s));
    TrimLeftClears(s);
    TrimEndClears(TrimLeft(s));
    forall r: nat | SpaceCode(r) && Utf8(r) <= TrimSpace(s) ensures false {
      FrontIsFound(TrimLeft(s), r);
    }
    forall r: nat, x | SpaceCode(r) && TrimSpace(s) == x + Utf8(r) ensures false {
      BackIsFound(TrimSpace(s), x, r);
    }
  }

  /** The parts of a text between the separators. */
  function Split(t: string, sep: char): (parts: seq<string>)
    ensures parts != []
  {
    if t == "" then [""]
    else
      var rest := Split(t[1..], sep);
      if t[0] == sep then [""] + rest else [[t[0]] + rest[0]] + rest[1..]
  }

  lemma {:induction false} SplitPlain(a: string, sep: char)
    requires sep !in a
    ensures Split(a, sep) == [a]
  {
    if a != "" {
      SplitPlain(a[1..], sep);
      assert a == [a[0]] + a[1..];
    }
  }

  lemma {:induction false} SplitFirst(a: string, x: string, sep: char)
    requires sep !in a
    ensures Split(a + [sep] + x, sep) == [a] + Split(x, sep)
  {
    var t := a + [sep] + x;
    if a == "" {
      assert t[1..] == x;
    } else {
      SplitFirst(a[1..], x, sep);
      assert t[1..] == a[1..] + [sep] + x;
      assert a == [a[0]] + a[1..];
      assert ([a[1..]] + Split(x, sep))[1..] == Split(x, sep);
    }
  }
}

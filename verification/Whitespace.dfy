/** Canonical header values (sigv4/canonical.go collapseWhitespace): trimmed, runs of blanks as one space. */
module Whitespace {
  import opened Text

  predicate Blank(c: char) {
    c == ' ' || c == '\t'
  }

  predicate Plain(v: string) {
    '\t' !in v && forall i :: 0 < i < |v| ==> !(v[i - 1] == ' ' && v[i] == ' ')
  }

  /** The byte loop: inRun says that the previous byte was a blank. */
  function Squeeze(v: string, inRun: bool): (r: string) {
    if v == "" then ""
    else if Blank(v[0]) then (if inRun then "" else " ") + Squeeze(v[1..], true)
    else [v[0]] + Squeeze(v[1..], false)
  }

  function Collapse(v: string): (r: string) {
    var t := TrimSpace(v);
    if Plain(t) then t else Squeeze(t, false)
  }

  method CollapseWhitespace(v: string) returns (r: string)
    ensures r == Collapse(v)
  {
    hide TrimSpace;
    var t := TrimSpace(v);
    if Plain(t) {
      return t;
    }
    hide Squeeze, Plain;
    assert t[0..] == t;
    r := "";
    var inRun := false;
    for i := 0 to |t|
      invariant r + Squeeze(t[i..], inRun) == Squeeze(t, false)
    {
      SqueezeStep(r, t, i, inRun);
      if Blank(t[i]) {
        if !inRun {
          r := r + " ";
        }
        inRun := true;
        continue;
      }
      inRun := false;
      r := r + [t[i]];
    }
    SqueezeNone(t, inRun);
  }

  /** What one turn of the loop moves from the rest of the value to the result. */
  lemma {:induction false} SqueezeStep(r: string, t: string, i: nat, inRun: bool)
    requires i < |t|
    ensures r + Squeeze(t[i..], inRun) ==
            if !Blank(t[i]) then (r + [t[i]]) + Squeeze(t[i + 1..], false)
            else if inRun then r + Squeeze(t[i + 1..], true)
            else (r + " ") + Squeeze(t[i + 1..], true)
  {
    assert t[i..][1..] == t[i + 1..];
    Regroup(r, [t[i]], Squeeze(t[i + 1..], false));
    Regroup(r, " ", Squeeze(t[i + 1..], true));
    assert "" + Squeeze(t[i + 1..], true) == Squeeze(t[i + 1..], true);
  }

  lemma {:induction false} Regroup(a: string, b: string, c: string)
    ensures a + (b + c) == (a + b) + c
  {
  }

  lemma {:induction false} SqueezeNone(t: string, inRun: bool)
    ensures Squeeze(t[|t|..], inRun) == ""
  {
    assert t[|t|..] == "";
  }

  // ----- what the loop computes

  /** The maximal runs of non-blank bytes, in order. */
  function Words(v: string): (ws: seq<string>)
    ensures v != "" && !Blank(v[0]) ==> ws != []
  {
    if v == "" then []
    else if Blank(v[0]) then Words(v[1..])
    else if |v| == 1 || Blank(v[1]) then [[v[0]]] + Words(v[1..])
    else
      var ws := Words(v[1..]);
      [[v[0]] + ws[0]] + ws[1..]
  }

  function Spaced(ws: seq<string>): (r: string) {
    if ws == [] then "" else if |ws| == 1 then ws[0] else ws[0] + " " + Spaced(ws[1..])
  }

  predicate IsWord(w: string) {
    w != "" && forall i :: 0 <= i < |w| ==> !Blank(w[i])
  }

  predicate AllWords(ws: seq<string>) {
    forall i :: 0 <= i < |ws| ==> IsWord(ws[i])
  }

  lemma {:induction false} WordsAreWords(v: string)
    ensures AllWords(Words(v))
  {
    if v != "" {
      WordsAreWords(v[1..]);
    }
  }

  /** Not ending in a blank, so every run of blanks has a word behind it. */
  predicate NoTrailingBlank(v: string) {
    v != "" ==> !Blank(v[|v| - 1])
  }

  lemma {:induction false} SomeWord(v: string)
    requires v != "" && NoTrailingBlank(v)
    ensures Words(v) != []
  {
    if Blank(v[0]) {
      SomeWord(v[1..]);
    }
  }

  lemma {:induction false} SpacedFront(c: char, ws: seq<string>)
    requires ws != []
    ensures Spaced([[c] + ws[0]] + ws[1..]) == [c] + Spaced(ws)
  {
    var us := [[c] + ws[0]] + ws[1..];
    assert us[1..] == ws[1..];
  }

  /** The loop writes the words of the value separated by single spaces. */
  lemma {:induction false} SqueezeIsSpaced(v: string)
    requires NoTrailingBlank(v)
    ensures Squeeze(v, true) == Spaced(Words(v))
    ensures Squeeze(v, false) == (if v != "" && Blank(v[0]) then " " else "") + Spaced(Words(v))
  {
    if v != "" {
      var rest := v[1..];
      SqueezeIsSpaced(rest);
      if !Blank(v[0]) {
        if |v| == 1 {
        } else if Blank(v[1]) {
          SomeWord(rest);
          assert ([[v[0]]] + Words(rest))[1..] == Words(rest);
        } else {
          SpacedFront(v[0], Words(rest));
        }
      }
    }
  }

  lemma {:induction false} PlainTail(v: string)
    requires v != "" && Plain(v)
    ensures Plain(v[1..])
  {
  }

  /** The shortcut for values that need no work gives what the loop would. */
  lemma {:induction false} FastPathIsLoop(v: string)
    requires Plain(v)
    ensures Squeeze(v, false) == v
    ensures v != "" && v[0] != ' ' ==> Squeeze(v, true) == v
  {
    if v != "" {
      PlainTail(v);
      FastPathIsLoop(v[1..]);
      assert v[0] in v;
      assert v == [v[0]] + v[1..];
      if v[0] == ' ' && |v| > 1 {
        assert v[1..][0] == v[1] != ' ';
      }
    }
  }

  /** Neither end is white space. */
  predicate Trimmed(t: string) {
    SpaceFront(t) == 0 && SpaceBack(t) == 0
  }

  lemma {:induction false} TrimEndEnds(v: string)
    requires SpaceFront(v) == 0
    ensures Trimmed(TrimEnd(v))
    decreases |v|
  {
    if SpaceBack(v) > 0 {
      var w := v[..|v| - SpaceBack(v)];
      assert forall k: nat :: SpaceRune(w, 0, k) ==> SpaceRune(v, 0, k);
      TrimEndEnds(w);
    }
  }

  lemma {:induction false} TrimSpaceEnds(v: string)
    ensures Trimmed(TrimSpace(v))
  {
    TrimLeftClears(v);
    TrimEndEnds(TrimLeft(v));
  }

  lemma {:induction false} TrimSpaceOfTrimmed(t: string)
    requires Trimmed(t)
    ensures TrimSpace(t) == t
  {
    NothingToTrim(t);
  }

  lemma {:induction false} TrimmedIsNotBlank(t: string)
    requires Trimmed(t) && t != ""
    ensures !Blank(t[0]) && !Blank(t[|t| - 1])
  {
    assert !SpaceRune(t, 0, 1) && !SpaceRune(t, |t| - 1, 1);
  }

  /** On both paths the canonical value is the words of the trimmed value, one space apart. */
  lemma {:induction false} CollapseIsWords(v: string)
    ensures Collapse(v) == Spaced(Words(TrimSpace(v)))
  {
    hide Squeeze, Spaced, Words, TrimSpace, Plain;
    var t := TrimSpace(v);
    TrimSpaceEnds(v);
    if t != "" {
      TrimmedIsNotBlank(t);
    }
    SqueezeIsSpaced(t);
    if Plain(t) {
      FastPathIsLoop(t);
    }
  }

  lemma {:induction false} SpacedHasNoRuns(ws: seq<string>)
    requires AllWords(ws)
    ensures '\t' !in Spaced(ws)
    ensures forall i :: 0 < i < |Spaced(ws)| ==> !(Spaced(ws)[i - 1] == ' ' && Spaced(ws)[i] == ' ')
    ensures ws != [] ==> Spaced(ws) != "" && Spaced(ws)[0] != ' '
  {
    if ws != [] {
      assert IsWord(ws[0]);
      SpacedHasNoRuns(ws[1..]);
      assert |ws| > 1 ==> Spaced(ws) == ws[0] + " " + Spaced(ws[1..]);
    }
  }

  /** A canonical value has no tab and no two spaces side by side. */
  lemma {:induction false} CollapseHasNoRuns(v: string)
    ensures '\t' !in Collapse(v)
    ensures forall i :: 0 < i < |Collapse(v)| ==> !(Collapse(v)[i - 1] == ' ' && Collapse(v)[i] == ' ')
  {
    CollapseIsWords(v);
    WordsAreWords(TrimSpace(v));
    SpacedHasNoRuns(Words(TrimSpace(v)));
  }

  // ----- the canonical value identifies the words

  lemma {:induction false} WordsOfWord(w: string, rest: string)
    requires IsWord(w) && (rest == "" || Blank(rest[0]))
    ensures Words(w + rest) == [w] + Words(rest)
  {
    if |w| == 1 {
      assert (w + rest)[1..] == rest && w == [w[0]];
    } else {
      WordsOfWord(w[1..], rest);
      assert (w + rest)[1..] == w[1..] + rest;
      assert w == [w[0]] + w[1..];
    }
  }

  lemma {:induction false} WordsOfSpaced(ws: seq<string>)
    requires AllWords(ws)
    ensures Words(Spaced(ws)) == ws
  {
    if ws != [] {
      WordsOfSpaced(ws[1..]);
      if |ws| == 1 {
        assert ws[0] + "" == ws[0];
        WordsOfWord(ws[0], "");
      } else {
        var rest := " " + Spaced(ws[1..]);
        assert rest[1..] == Spaced(ws[1..]);
        WordsOfWord(ws[0], rest);
        assert ws[0] + rest == Spaced(ws);
      }
      assert ws == [ws[0]] + ws[1..];
    }
  }

  /** Two header values have the same canonical form exactly when they have the same words. */
  lemma {:induction false} CollapseEqualIff(a: string, b: string)
    ensures Collapse(a) == Collapse(b) <==> Words(TrimSpace(a)) == Words(TrimSpace(b))
  {
    CollapseIsWords(a);
    CollapseIsWords(b);
    WordsAreWords(TrimSpace(a));
    WordsAreWords(TrimSpace(b));
    WordsOfSpaced(Words(TrimSpace(a)));
    WordsOfSpaced(Words(TrimSpace(b)));
  }

  predicate StartsWithWord(r: string, w: string) {
    IsWord(w) && w <= r && (|w| == |r| || Blank(r[|w|]))
  }

  predicate EndsWithWord(r: string, w: string) {
    IsWord(w) && |w| <= |r| && r[|r| - |w|..] == w && (|w| == |r| || Blank(r[|r| - |w| - 1]))
  }

  lemma {:induction false} FirstWord(t: string)
    requires t != "" && !Blank(t[0])
    ensures Words(t) != [] && StartsWithWord(t, Words(t)[0])
  {
    if |t| > 1 && !Blank(t[1]) {
      FirstWord(t[1..]);
    }
  }

  lemma {:induction false} LastWord(t: string)
    requires t != "" && !Blank(t[|t| - 1])
    ensures var ws := Words(t); ws != [] && EndsWithWord(t, ws[|ws| - 1])
  {
    if |t| > 1 {
      LastWord(t[1..]);
      var us := Words(t[1..]);
      var w := us[|us| - 1];
      if Blank(t[0]) || Blank(t[1]) || |us| > 1 {
        EndsLonger(t, us, w);
      } else {
        FirstWord(t[1..]);
        OnlyWord(t, w);
      }
    }
  }

  /** One more byte in front of a text whose last word does not reach its front. */
  lemma {:induction false} EndsLonger(t: string, us: seq<string>, w: string)
    requires |t| > 1 && us == Words(t[1..]) && us != [] && w == us[|us| - 1] && EndsWithWord(t[1..], w)
    requires Blank(t[0]) || Blank(t[1]) || |us| > 1
    ensures Words(t) != [] && Words(t)[|Words(t)| - 1] == w && EndsWithWord(t, w)
  {
    var ws := Words(t);
    assert t[1..][|t| - 1 - |w|..] == t[|t| - |w|..];
    if |w| == |t| - 1 {
      assert t[1..] == w;
      assert !Blank(t[1]);
      WordsOfWord(w, "");
      assert w + "" == w;
    } else {
      assert t[1..][|t| - 1 - |w| - 1] == t[|t| - |w| - 1];
    }
  }

  lemma {:induction false} SingleWord(x: string, w: string)
    requires x != "" && NoTrailingBlank(x) && Words(x) == [w] && StartsWithWord(x, w)
    ensures x == w
  {
    hide Words;
    var rest := x[|w|..];
    assert x == w + rest;
    WordsOfWord(w, rest);
    assert |[w] + Words(rest)| == 1 + |Words(rest)|;
    if rest != "" {
      SomeWord(rest);
    }
  }

  /** One more byte in front of a single word. */
  lemma {:induction false} OnlyWord(t: string, w: string)
    requires |t| > 1 && NoTrailingBlank(t) && !Blank(t[0]) && !Blank(t[1])
    requires Words(t[1..]) == [w] && StartsWithWord(t[1..], w)
    ensures Words(t) == [[t[0]] + w] && EndsWithWord(t, [t[0]] + w)
  {
    SingleWord(t[1..], w);
    assert t == [t[0]] + w;
  }

  lemma {:induction false} SpacedWords(ws: seq<string>)
    requires ws != [] && AllWords(ws)
    ensures StartsWithWord(Spaced(ws), ws[0]) && EndsWithWord(Spaced(ws), ws[|ws| - 1])
  {
    if |ws| > 1 {
      SpacedWords(ws[1..]);
      var front, r, w := ws[0] + " ", Spaced(ws[1..]), ws[|ws| - 1];
      assert (front + r)[|front + r| - |w|..] == r[|r| - |w|..];
    }
  }

  /** White space at the front would lie within the first word. */
  lemma {:induction false} SameFront(t: string, r: string, w: string)
    requires StartsWithWord(t, w) && StartsWithWord(r, w) && SpaceFront(t) == 0
    ensures SpaceFront(r) == 0
  {
    forall k: nat ensures !SpaceRune(r, 0, k) {
      assert k <= |w| ==> (SpaceRune(r, 0, k) <==> SpaceRune(t, 0, k));
      assert |w| < k <= |r| ==> Blank(r[|w|]);
    }
  }

  lemma {:induction false} SameBack(t: string, r: string, w: string)
    requires EndsWithWord(t, w) && EndsWithWord(r, w) && SpaceBack(t) == 0
    ensures SpaceBack(r) == 0
  {
    hide EndsWithWord;
    forall i, k: nat | i + k == |r| ensures !SpaceRune(r, i, k) {
      if 0 < k <= 3 {
        WordAtEnd(t, w, k);
        WordAtEnd(r, w, k);
      }
      assert !SpaceRune(t, |t| - k, k);
    }
  }

  /** The last k bytes are those of the word, or reach beyond it to a blank. */
  lemma {:induction false} WordAtEnd(r: string, w: string, k: nat)
    requires EndsWithWord(r, w) && k > 0
    ensures |r| >= |w|
    ensures k <= |w| ==> r[|r| - k] == w[|w| - k]
    ensures 1 < k <= |w| ==> r[|r| - k + 1] == w[|w| - k + 1]
    ensures 2 < k <= |w| ==> r[|r| - k + 2] == w[|w| - k + 2]
    ensures |w| < k <= |r| ==> Blank(r[|r| - |w| - 1])
    ensures w != ""
  {
    var back := r[|r| - |w|..];
    if k <= |w| {
      assert back[|w| - k] == r[|r| - k];
      assert k > 1 ==> back[|w| - k + 1] == r[|r| - k + 1];
      assert k > 2 ==> back[|w| - k + 2] == r[|r| - k + 2];
    }
  }

  /** Canonicalizing twice is canonicalizing once. */
  lemma {:induction false} CollapseIdempotent(v: string)
    ensures Collapse(Collapse(v)) == Collapse(v)
  {
    hide Spaced, Words, TrimSpace, Collapse, StartsWithWord, EndsWithWord, SpaceFront, SpaceBack;
    var t, r := TrimSpace(v), Collapse(v);
    var ws := Words(t);
    CollapseIsWords(v);
    CollapseIsWords(r);
    WordsAreWords(t);
    WordsOfSpaced(ws);
    TrimSpaceEnds(v);
    if t != "" {
      TrimmedIsNotBlank(t);
      FirstWord(t);
      LastWord(t);
      SpacedWords(ws);
      SameFront(t, r, ws[0]);
      SameBack(t, r, ws[|ws| - 1]);
    } else {
      EmptyCollapses();
    }
    TrimSpaceOfTrimmed(r);
  }

  lemma {:induction false} EmptyCollapses()
    ensures Spaced(Words("")) == ""
  {
  }

  /** Canonicalization introduces no byte that was not there, except spaces. */
  lemma {:induction false} SqueezeBytes(v: string, inRun: bool, c: char)
    requires c !in v && c != ' '
    ensures c !in Squeeze(v, inRun)
  {
    if v != "" {
      SqueezeBytes(v[1..], true, c);
      SqueezeBytes(v[1..], false, c);
      assert v == [v[0]] + v[1..];
    }
  }

  lemma {:induction false} TrimLeftBytes(v: string, c: char)
    requires c !in v
    ensures c !in TrimLeft(v)
    decreases |v|
  {
    if SpaceFront(v) > 0 {
      TrimLeftBytes(v[SpaceFront(v)..], c);
    }
  }

  lemma {:induction false} TrimEndBytes(v: string, c: char)
    requires c !in v
    ensures c !in TrimEnd(v)
    decreases |v|
  {
    if SpaceBack(v) > 0 {
      TrimEndBytes(v[..|v| - SpaceBack(v)], c);
    }
  }

  lemma {:induction false} CollapseBytes(v: string, c: char)
    requires c !in v && c != ' '
    ensures c !in Collapse(v)
  {
    TrimLeftBytes(v, c);
    TrimEndBytes(TrimLeft(v), c);
    SqueezeBytes(TrimSpace(v), false, c);
  }
}

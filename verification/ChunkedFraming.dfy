/**
 The text layer of the aws-chunked format (sigv4/chunked.go): framing lines, the
 chunk header "<hex-size>[;chunk-signature=<hex>]", and the checksum trailer.
 Each reader is a function from the unread input to its result and what is left.
 */
module ChunkedFraming {
  import opened Text

  const MAX_LINE := 8 * 1024

  /** How the request body ends: at its end of file, or with a transport failure. */
  datatype End = CleanEnd | Broken

  datatype Error =
    | Eof
    | IncompleteBody
    | Transport
    | LineTooLong
    | ExpectedCRLF
    | MalformedSize
    | UnknownExtension
    | MissingSignature
    | ChunkTooLarge
    | SignatureDoesNotMatch
    | BadDigest

  // ----- lines

  /** strings.TrimRight(s, "\r\n"). */
  function TrimRight(s: string): (r: string)
    ensures r <= s
  {
    if s != "" && (s[|s| - 1] == '\r' || s[|s| - 1] == '\n') then TrimRight(s[..|s| - 1]) else s
  }

  /** A complete framing line as it stands in the body. */
  predicate Terminated(head: string) {
    && 0 < |head| <= MAX_LINE + 1
    && head[|head| - 1] == '\n'
    && '\n' !in head[..|head| - 1]
  }

  /** What one line may look like in front of `after`: terminated, or cut short by a clean end. */
  predicate LineBefore(end: End, head: string, after: string) {
    || Terminated(head)
    || (after == "" && end.CleanEnd? && 0 < |head| <= MAX_LINE && '\n' !in head)
  }

  /** The number of bytes in front of the first newline; all of them when there is none. */
  function LineLength(s: string): (n: nat)
    ensures n <= |s| && '\n' !in s[..n]
    ensures n < |s| ==> s[n] == '\n'
  {
    if s == "" || s[0] == '\n' then 0
    else
      var n := LineLength(s[1..]);
      assert s[..n + 1] == [s[0]] + s[1..][..n];
      n + 1
  }

  datatype Line = Line(text: string, rest: string) | NoLine(error: Error, rest: string)

  /** One framing line, at most MAX_LINE bytes before its newline. */
  function ReadLine(end: End, input: string): (l: Line)
    ensures l.Line? ==> |l.rest| < |input|
  {
    var n := LineLength(input);
    if n > MAX_LINE then NoLine(LineTooLong, input[MAX_LINE + 1..])
    else if n < |input| then Line(TrimRight(input[..n]), input[n + 1..])
    else if end.Broken? then NoLine(Transport, "")
    else if input == "" then NoLine(Eof, "")
    else Line(TrimRight(input), "")
  }

  lemma {:induction false} LineLengthOf(head: string, after: string)
    requires '\n' !in head
    ensures after == "" ==> LineLength(head + after) == |head|
    ensures LineLength(head + ['\n'] + after) == |head|
  {
    var s := head + ['\n'] + after;
    var n := LineLength(s);
    assert s[|head|] == '\n';
    assert forall i :: 0 <= i < |head| ==> s[i] == head[i];
    assert after == "" ==> head + after == head;
  }

  lemma {:induction false} TrimRightNewline(s: string)
    ensures TrimRight(s + ['\n']) == TrimRight(s)
  {
    assert (s + ['\n'])[..|s|] == s;
  }

  /** Reading a line is exactly splitting the input at a line boundary: completeness ... */
  lemma {:induction false} ReadLineOf(end: End, head: string, after: string)
    requires LineBefore(end, head, after)
    ensures ReadLine(end, head + after) == Line(TrimRight(head), after)
  {
    if Terminated(head) {
      var body := head[..|head| - 1];
      assert head == body + ['\n'];
      LineLengthOf(body, after);
      assert head + after == body + ['\n'] + after;
      assert (head + after)[..|body|] == body && (head + after)[|body| + 1..] == after;
      TrimRightNewline(body);
    } else {
      LineLengthOf(head, after);
      assert head + after == head;
    }
  }

  /** ... and soundness. */
  lemma {:induction false} ReadLineSplits(end: End, input: string) returns (head: string)
    requires ReadLine(end, input).Line?
    ensures var l := ReadLine(end, input);
            input == head + l.rest && LineBefore(end, head, l.rest) && l.text == TrimRight(head)
  {
    var n := LineLength(input);
    if n < |input| {
      head := input[..n + 1];
      assert head == input[..n] + ['\n'] && head[..|head| - 1] == input[..n];
      TrimRightNewline(input[..n]);
    } else {
      head := input;
      assert input[..n] == input && input == head + "";
    }
  }

  /** Trimming a line takes all carriage returns and newlines off its end and nothing else. */
  lemma {:induction false} TrimRightCuts(s: string) returns (b: string)
    ensures s == TrimRight(s) + b && forall i :: 0 <= i < |b| ==> b[i] == '\r' || b[i] == '\n'
    ensures TrimRight(s) == "" || TrimRight(s)[|TrimRight(s)| - 1] !in {'\r', '\n'}
  {
    if s != "" && s[|s| - 1] in {'\r', '\n'} {
      var front := TrimRightCuts(s[..|s| - 1]);
      b := front + [s[|s| - 1]];
    } else {
      b := "";
    }
  }

  /** A line is too long exactly when more than 8192 bytes come before its newline. */
  lemma {:induction false} TooLongIff(end: End, input: string)
    ensures ReadLine(end, input).NoLine? && ReadLine(end, input).error == LineTooLong <==>
            |input| > 8192 && '\n' !in input[..8193]
  {
    var n := LineLength(input);
    if n <= MAX_LINE && n < |input| && |input| > 8192 {
      assert input[..8193][n] == '\n';
    } else if n > MAX_LINE {
      assert input[..8193] == input[..n][..8193];
    }
  }

  // ----- chunk headers

  datatype Cut = Cut(before: string, after: string, found: bool)

  /** strings.Cut at the first separator. */
  function CutAt(s: string, sep: char): (c: Cut)
    ensures c.found ==> s == c.before + [sep] + c.after && sep !in c.before
    ensures !c.found ==> sep !in s && c.before == s && c.after == ""
  {
    if s == "" then Cut("", "", false)
    else if s[0] == sep then Cut("", s[1..], true)
    else
      var c := CutAt(s[1..], sep);
      Cut([s[0]] + c.before, c.after, c.found)
  }

  lemma {:induction false} CutAtOf(before: string, after: string, sep: char)
    requires sep !in before
    ensures CutAt(before + [sep] + after, sep) == Cut(before, after, true)
  {
    var s := before + [sep] + after;
    assert s[|before|] == sep;
    var c := CutAt(s, sep);
    CutIsUnique(before, after, c.before, c.after, sep);
  }

  function HexValue(c: char): (v: int)
    ensures -1 <= v < 16
  {
    if '0' <= c <= '9' then c as int - '0' as int
    else if 'a' <= c <= 'f' then c as int - 'a' as int + 10
    else if 'A' <= c <= 'F' then c as int - 'A' as int + 10
    else -1
  }

  predicate HexDigits(s: string) {
    forall i :: 0 <= i < |s| ==> HexValue(s[i]) >= 0
  }

  function HexNumber(s: string): (n: nat)
    requires HexDigits(s)
  {
    if s == "" then 0 else HexNumber(s[..|s| - 1]) * 16 + HexValue(s[|s| - 1])
  }

  const INT64_LIMIT := 0x8000_0000_0000_0000

  /** strconv.ParseInt(s, 16, 64) restricted to what the header accepts: a sign is read, a negative size is not. */
  function ParseSize(s: string): (size: Option<nat>)
    ensures size.Some? ==> size.value < INT64_LIMIT
  {
    var negative := s != "" && s[0] == '-';
    var digits := if s != "" && (s[0] == '-' || s[0] == '+') then s[1..] else s;
    if digits == "" || !HexDigits(digits) then None
    else
      var n := HexNumber(digits);
      if n >= INT64_LIMIT || (negative && n > 0) then None else Some(n)
  }

  const EXTENSION := "chunk-signature"

  datatype Header = Header(size: nat, sig: string) | BadHeader(error: Error)

  /** The meaning of a header line. */
  function ParseHeader(signed: bool, line: string): (h: Header) {
    var c := CutAt(line, ';');
    var size := ParseSize(c.before);
    if size.None? then BadHeader(MalformedSize)
    else
      var e := CutAt(c.after, '=');
      if c.found && e.before != EXTENSION then BadHeader(UnknownExtension)
      else
        var sig := if c.found then e.after else "";
        if signed && sig == "" then BadHeader(MissingSignature) else Header(size.value, sig)
  }

  /** A digit and its value: its place among the sixteen, in either case. */
  lemma {:induction false} HexValueMeans(c: char, k: int)
    ensures HexValue(c) == k >= 0 <==> 0 <= k < 16 && ("0123456789abcdef"[k] == c || "0123456789ABCDEF"[k] == c)
  {
  }

  function Pow16(k: nat): (p: nat) {
    if k == 0 then 1 else 16 * Pow16(k - 1)
  }

  /** Place value, from the front: the first of k digits counts for its value times 16^(k - 1). */
  function PlaceValue(s: string): (n: nat)
    requires HexDigits(s)
  {
    if s == "" then 0 else HexValue(s[0]) * Pow16(|s| - 1) + PlaceValue(s[1..])
  }

  lemma {:induction false} PlaceValueAppend(s: string, c: char)
    requires HexDigits(s) && HexValue(c) >= 0
    ensures HexDigits(s + [c]) && PlaceValue(s + [c]) == PlaceValue(s) * 16 + HexValue(c)
  {
    hide HexValue;
    var t := s + [c];
    if s == "" {
      assert t[1..] == "" && Pow16(0) == 1;
    } else {
      PlaceValueAppend(s[1..], c);
      assert t[1..] == s[1..] + [c];
      assert Pow16(|s|) == 16 * Pow16(|s| - 1);
      var h, p := HexValue(s[0]), Pow16(|s| - 1);
      assert h * (16 * p) == h * p * 16;
    }
  }

  /** Reading digits one by one gives their place value. */
  lemma {:induction false} HexNumberIsPlaceValue(s: string)
    requires HexDigits(s)
    ensures HexNumber(s) == PlaceValue(s)
  {
    hide HexValue, PlaceValue;
    if s != "" {
      var front := s[..|s| - 1];
      HexNumberIsPlaceValue(front);
      PlaceValueAppend(front, s[|s| - 1]);
      assert s == front + [s[|s| - 1]];
    } else {
      NoPlaceValue();
    }
  }

  lemma {:induction false} NoPlaceValue()
    ensures PlaceValue("") == 0
  {
  }

  predicate SizeText(s: string, sign: string, digits: string, n: nat) {
    && s == sign + digits && (sign == "" || sign == "+" || sign == "-")
    && digits != "" && HexDigits(digits) && PlaceValue(digits) == n
    && n < 0x8000_0000_0000_0000 && (sign == "-" ==> n == 0)
  }

  /** Which texts are sizes: hexadecimal digits below 2^63, with an optional sign, negative only for zero. */
  lemma {:induction false} ParseSizeIff(s: string, n: nat)
    ensures ParseSize(s) == Some(n) <==> exists sign, digits :: SizeText(s, sign, digits, n)
  {
    hide HexNumber, PlaceValue, HexValue;
    SignIsNoDigit();
    var signed := s != "" && (s[0] == '-' || s[0] == '+');
    var sign, digits := if signed then s[..1] else "", if signed then s[1..] else s;
    assert s == sign + digits;
    if HexDigits(digits) {
      HexNumberIsPlaceValue(digits);
    }
    if ParseSize(s) == Some(n) {
      assert SizeText(s, sign, digits, n);
    }
    forall sign', digits' | SizeText(s, sign', digits', n) ensures sign' == sign && digits' == digits {
      assert sign' == "" ==> s == digits' && s[0] == digits'[0];
      assert sign' != "" ==> s[0] == sign'[0] && s[1..] == digits';
    }
  }

  lemma {:induction false} SignIsNoDigit()
    ensures HexValue('-') < 0 && HexValue('+') < 0
  {
  }

  /** The extension of a header line that gives this signature; without an equals sign it is empty. */
  predicate SignatureText(ext: string, sig: string) {
    ext == "chunk-signature=" + sig || (ext == "chunk-signature" && sig == "")
  }

  /** Which lines are headers: a size, then possibly a signature extension; a signed stream needs a signature. */
  lemma {:induction false} ParseHeaderIff(signed: bool, line: string, n: nat, sig: string)
    ensures ParseHeader(signed, line) == Header(n, sig) <==>
            && (signed ==> sig != "")
            && exists size :: HeaderText(line, size, n, sig)
  {
    hide ParseSize;
    var c := CutAt(line, ';');
    var e := CutAt(c.after, '=');
    var word := "chunk-signature";
    assert e.found ==> c.after == e.before + "=" + e.after;
    assert word + "=" + sig == "chunk-signature=" + sig;
    if ParseHeader(signed, line) == Header(n, sig) {
      assert c.found ==> line == c.before + ";" + c.after;
      assert HeaderText(line, c.before, n, sig);
    }
    forall size | HeaderText(line, size, n, sig) && (signed ==> sig != "")
      ensures ParseHeader(signed, line) == Header(n, sig)
    {
      HeaderTextParses(signed, line, size, n, sig);
    }
  }

  predicate HeaderText(line: string, size: string, n: nat, sig: string) {
    && ';' !in size && ParseSize(size) == Some(n)
    && ((line == size && sig == "") ||
        (size + ";" <= line && SignatureText(line[|size| + 1..], sig)))
  }

  lemma {:induction false} HeaderTextParses(signed: bool, line: string, size: string, n: nat, sig: string)
    requires HeaderText(line, size, n, sig) && (signed ==> sig != "")
    ensures ParseHeader(signed, line) == Header(n, sig)
  {
    hide ParseSize, CutAt;
    if line == size {
      NothingToCut(line, ';');
    } else {
      var ext := line[|size| + 1..];
      assert line == size + [';'] + ext;
      CutAtOf(size, ext, ';');
      if ext == "chunk-signature=" + sig {
        assert ext == "chunk-signature" + ['='] + sig;
        CutAtOf("chunk-signature", sig, '=');
      } else {
        NothingToCut(ext, '=');
      }
    }
  }

  lemma {:induction false} NothingToCut(s: string, sep: char)
    requires sep !in s
    ensures CutAt(s, sep) == Cut(s, "", false)
  {
  }

  // ----- trailers

  predicate EqualFold(a: string, b: string) {
    ToLower(a) == ToLower(b)
  }

  const CHECKSUM_PREFIX := "x-amz-checksum-"

  /** The line is the declared algorithm's trailer, and this is the value it carries. */
  function TrailerValue(alg: string, line: string): (v: Option<string>) {
    var c := CutAt(line, ':');
    if c.found && EqualFold(TrimSpace(c.before), CHECKSUM_PREFIX + alg) then Some(TrimSpace(c.after)) else None
  }

  /** The lines that carry the declared checksum: its name up to case and surrounding white space, a trimmed value. */
  lemma {:induction false} TrailerValueIff(alg: string, line: string, v: string)
    ensures TrailerValue(alg, line) == Some(v) <==>
            exists name, value ::
              && line == name + ":" + value && ':' !in name && v == TrimSpace(value)
              && ToLower(TrimSpace(name)) == ToLower("x-amz-checksum-" + alg)
  {
    hide TrimSpace, ToLower;
    var c := CutAt(line, ':');
    forall name, value | line == name + ":" + value && ':' !in name ensures c == Cut(name, value, true) {
      assert line == name + [':'] + value;
      CutAtOf(name, value, ':');
    }
    if c.found {
      assert line == c.before + ":" + c.after;
    }
  }

  /** What is checked in the trailers: an algorithm and the digest it must carry; None checks nothing. */
  datatype Expected = Expected(alg: string, digest: string)

  datatype Drain = Drain(seen: bool, rest: string, error: Option<Error>)

  /** Reads trailer lines up to the blank line or the end of the body. */
  function DrainTrailers(end: End, want: Option<Expected>, input: string, seen: bool): (d: Drain)
    decreases |input|
  {
    match ReadLine(end, input)
    case NoLine(e, rest) =>
      if e == Eof then Drain(seen, rest, if want.Some? && !seen then Some(BadDigest) else None)
      else Drain(seen, rest, Some(e))
    case Line(text, rest) =>
      if text == "" then Drain(seen, rest, if want.Some? && !seen then Some(BadDigest) else None)
      else if want.None? then DrainTrailers(end, want, rest, seen)
      else
        var v := TrailerValue(want.value.alg, text);
        if v.None? then DrainTrailers(end, want, rest, seen)
        else if v.value != want.value.digest then Drain(seen, rest, Some(BadDigest))
        else DrainTrailers(end, want, rest, true)
  }

  /** The line ends the trailers: blank once its line ending is dropped. */
  predicate BlankLine(end: End, line: string, after: string) {
    LineBefore(end, line, after) && TrimRight(line) == ""
  }

  /** These are the trailer lines at the front of the text, up to a blank line or a clean end of the body. */
  ghost predicate TrailerLines(end: End, text: string, lines: seq<string>) {
    if lines == [] then
      (text == "" && end.CleanEnd?) || exists n :: 0 <= n <= |text| && BlankLine(end, text[..n], text[n..])
    else
      && lines[0] <= text
      && LineBefore(end, lines[0], text[|lines[0]|..])
      && TrimRight(lines[0]) != ""
      && TrailerLines(end, text[|lines[0]|..], lines[1..])
  }

  predicate Names(alg: string, line: string) {
    TrailerValue(alg, TrimRight(line)).Some?
  }

  predicate Carries(want: Expected, line: string) {
    TrailerValue(want.alg, TrimRight(line)) == Some(want.digest)
  }

  predicate NoneWrong(want: Expected, lines: seq<string>) {
    forall i :: 0 <= i < |lines| && Names(want.alg, lines[i]) ==> Carries(want, lines[i])
  }

  predicate Presented(want: Expected, lines: seq<string>) {
    exists i :: 0 <= i < |lines| && Carries(want, lines[i])
  }

  /** A line of the declared checksum is there, and all of them carry the digest. */
  predicate Attested(want: Expected, lines: seq<string>) {
    Presented(want, lines) && NoneWrong(want, lines)
  }

  /** Whether these lines pass, the checksum having been seen before or not. */
  predicate LinesPass(want: Option<Expected>, lines: seq<string>, seen: bool) {
    want.Some? ==> NoneWrong(want.value, lines) && (seen || Presented(want.value, lines))
  }

  lemma {:induction false} NoLinesPass(want: Option<Expected>, seen: bool)
    ensures LinesPass(want, [], seen) <==> want.None? || seen
  {
  }

  lemma {:induction false} LinesPassCons(want: Option<Expected>, line: string, lines: seq<string>, seen: bool)
    ensures want.Some? ==>
              (LinesPass(want, [line] + lines, seen) <==>
               && (Names(want.value.alg, line) ==> Carries(want.value, line))
               && LinesPass(want, lines, seen || Carries(want.value, line)))
    ensures want.None? ==> LinesPass(want, [line] + lines, seen) && LinesPass(want, lines, seen)
  {
    hide Names, Carries;
    if want.Some? {
      var all := [line] + lines;
      assert all[0] == line && forall i :: 0 <= i < |lines| ==> all[i + 1] == lines[i];
      assert Presented(want.value, all) <==> Carries(want.value, line) || Presented(want.value, lines);
    }
  }

  /** Draining passes exactly when the text is trailer lines, closed properly, that pass. */
  lemma {:induction false} DrainPassesIff(end: End, want: Option<Expected>, text: string, seen: bool)
    ensures DrainTrailers(end, want, text, seen).error.None? <==>
            exists lines :: TrailerLines(end, text, lines) && LinesPass(want, lines, seen)
    decreases |text|
  {
    if DrainTrailers(end, want, text, seen).error.None? {
      var lines := DrainedLines(end, want, text, seen);
    }
    forall lines | TrailerLines(end, text, lines) && LinesPass(want, lines, seen)
      ensures DrainTrailers(end, want, text, seen).error.None?
    {
      LinesDrain(end, want, text, lines, seen);
    }
  }

  lemma {:induction false} DrainedLines(
    end: End, want: Option<Expected>, text: string, seen: bool)
    returns (lines: seq<string>)
    requires DrainTrailers(end, want, text, seen).error.None?
    ensures TrailerLines(end, text, lines) && LinesPass(want, lines, seen)
    decreases |text|
  {
    hide LineBefore, TrimRight, TrailerValue, ReadLine, LinesPass;
    lines := [];
    if ReadLine(end, text).NoLine? {
      NothingRead(end, want, text, seen);
    } else {
      var head := ReadLineSplits(end, text);
      var l := ReadLine(end, text);
      assert text[..|head|] == head && text[|head|..] == l.rest;
      if l.text == "" {
        assert BlankLine(end, text[..|head|], text[|head|..]);
        NoLinesPass(want, seen);
      } else {
        var rest := DrainedLines(end, want, l.rest, seen || (want.Some? && Carries(want.value, head)));
        lines := [head] + rest;
        assert lines[1..] == rest;
        LinesPassCons(want, head, rest, seen);
      }
    }
  }

  /** Draining that passes without a line found a clean end, with nothing missing. */
  lemma {:induction false} NothingRead(end: End, want: Option<Expected>, text: string, seen: bool)
    requires ReadLine(end, text).NoLine? && DrainTrailers(end, want, text, seen).error.None?
    ensures text == "" && end.CleanEnd? && LinesPass(want, [], seen)
  {
  }

  lemma {:induction false} LinesDrain(end: End, want: Option<Expected>, text: string, lines: seq<string>, seen: bool)
    requires TrailerLines(end, text, lines) && LinesPass(want, lines, seen)
    ensures DrainTrailers(end, want, text, seen).error.None?
    decreases |lines|
  {
    hide LineBefore, TrimRight, TrailerValue, ReadLine, LinesPass;
    if lines == [] {
      NoLinesPass(want, seen);
      if !(text == "" && end.CleanEnd?) {
        var n :| 0 <= n <= |text| && BlankLine(end, text[..n], text[n..]);
        ReadLineOf(end, text[..n], text[n..]);
        assert text == text[..n] + text[n..];
      } else {
        EndOfText(end);
      }
    } else {
      var head, rest := lines[0], text[|lines[0]|..];
      ReadLineOf(end, head, rest);
      assert text == head + rest;
      assert lines == [head] + lines[1..];
      LinesPassCons(want, head, lines[1..], seen);
      LinesDrain(end, want, rest, lines[1..], seen || (want.Some? && Carries(want.value, head)));
    }
  }

  lemma {:induction false} EndOfText(end: End)
    requires end.CleanEnd?
    ensures ReadLine(end, "") == NoLine(Eof, "")
  {
  }
}

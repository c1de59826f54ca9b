/**
 The aws-chunked decoder (sigv4/chunked.go) as a state machine: `ReadStep` is one call
 of the reader, for any buffer size and any amount the transport hands over. The
 class `Decoder` is the reader itself, with its fields updated in place, proved to
 perform exactly these steps.
 */
module ChunkedReader {
  import opened Text
  import opened ChunkedFraming

  /** A hex-encoded HMAC-SHA256. */
  type HexSig = s: string | |s| == 64 && HexDigits(s) witness seq(64, _ => '0')

  datatype Checksum = Checksum(alg: string, digest: string -> string)

  /** What a reader is created with; the hash functions are parameters. */
  datatype Setup = Setup(
    signed: bool,
    trailer: bool,
    checksum: Option<Checksum>,
    hmac: string -> HexSig,
    sha: string -> string,
    timestamp: string,
    scope: string,
    end: End)
  {
    /** A checksum is verified only in trailer mode. */
    predicate Valid() { checksum.Some? ==> trailer }
  }

  datatype State = State(
    input: string,
    prevSig: string,
    chunkSig: string,
    chunkData: string,
    summed: string,
    seen: bool,
    remaining: int,
    undecoded: int,
    started: bool,
    eof: bool,
    err: Option<Error>)

  function Init(body: string, seed: string, decodedLength: int): (s: State) {
    State(body, seed, "", "", "", false, 0, decodedLength, false, false, None)
  }

  /** The text a chunk's signature is computed over. */
  function SignedText(c: Setup, prev: string, data: string): (t: string) {
    "AWS4-HMAC-SHA256-PAYLOAD\n" + c.timestamp + "\n" + c.scope + "\n" + prev + "\n" + c.sha("") + "\n" + c.sha(data)
  }

  /** The signature a chunk must carry: it chains to the previous one. */
  function ChunkSignature(c: Setup, prev: string, data: string): (sig: HexSig) {
    c.hmac(SignedText(c, prev, data))
  }

  // ----- the helpers of Read; a step that fails leaves the fields as far as it got

  datatype Step = Step(st: State, err: Option<Error>)

  function Fail(s: State, e: Error): (r: Step) {
    Step(s.(err := Some(e)), Some(e))
  }

  function ReadCRLF(s: State): (r: Step) {
    if |s.input| < 2 then Step(s.(input := ""), Some(IncompleteBody))
    else Step(s.(input := s.input[2..]), if s.input[..2] == "\r\n" then None else Some(ExpectedCRLF))
  }

  /** The CRLF behind the previous chunk's data, once there is a previous chunk. */
  function ReadSeparator(s: State): (r: Step) {
    if s.started then ReadCRLF(s) else Step(s, None)
  }

  datatype HeaderStep = HeaderStep(st: State, size: int, err: Option<Error>)

  function ReadChunkHeader(c: Setup, s: State): (r: HeaderStep) {
    match ReadLine(c.end, s.input)
    case NoLine(e, rest) => HeaderStep(s.(input := rest), 0, Some(if e == Eof then IncompleteBody else e))
    case Line(text, rest) =>
      match ParseHeader(c.signed, text)
      case BadHeader(e) =>
        HeaderStep(s.(input := rest, chunkSig := if e == MalformedSize then s.chunkSig else ""), 0, Some(e))
      case Header(size, sig) => HeaderStep(s.(input := rest, chunkSig := sig), size, None)
  }

  function VerifyChunk(c: Setup, s: State): (r: Step) {
    if !c.signed then Step(s, None)
    else if ChunkSignature(c, s.prevSig, s.chunkData) != s.chunkSig then Step(s, Some(SignatureDoesNotMatch))
    else Step(s.(prevSig := s.chunkSig, chunkData := ""), None)
  }

  function Wanted(c: Setup, summed: string): (w: Option<Expected>) {
    match c.checksum
    case None => None
    case Some(k) => Some(Expected(k.alg, k.digest(summed)))
  }

  function DiscardTrailers(c: Setup, s: State): (r: Step) {
    if !c.trailer then Step(ReadCRLF(s).st, None)
    else
      var d := DrainTrailers(c.end, Wanted(c, s.summed), s.input, s.seen);
      Step(s.(input := d.rest, seen := d.seen), d.error)
  }

  function ReadTerminal(c: Setup, s: State): (r: Step) {
    var crlf := ReadCRLF(s);
    if crlf.err.Some? then crlf
    else
      var h := ReadChunkHeader(c, crlf.st);
      if h.err.Some? then Step(h.st, h.err)
      else if h.size != 0 then Step(h.st, Some(ChunkTooLarge))
      else
        var v := VerifyChunk(c, h.st);
        if v.err.Some? then v
        else
          var t := DiscardTrailers(c, v.st);
          if t.err.Some? then t else Step(t.st.(eof := true), None)
  }

  /** The header of the terminal chunk was read: it must verify, nothing may be missing, the trailers must pass. */
  function CloseStream(c: Setup, s: State): (r: Step) {
    var v := VerifyChunk(c, s);
    if v.err.Some? then Fail(v.st, v.err.value)
    else if v.st.undecoded != 0 then Fail(v.st, IncompleteBody)
    else
      var t := DiscardTrailers(c, v.st);
      if t.err.Some? then Fail(t.st, t.err.value) else Step(t.st.(eof := true), Some(Eof))
  }

  /** The part of Read in front of a chunk's data; the end of the stream is reported as Eof. */
  function NextChunk(c: Setup, s: State): (r: Step) {
    var crlf := ReadSeparator(s);
    if crlf.err.Some? then Fail(crlf.st, crlf.err.value)
    else
      var h := ReadChunkHeader(c, crlf.st);
      if h.err.Some? then Fail(h.st, h.err.value)
      else if h.size > h.st.undecoded then Fail(h.st.(started := true), ChunkTooLarge)
      else
        var s1 := h.st.(started := true, undecoded := h.st.undecoded - h.size);
        if h.size != 0 then Step(s1.(remaining := h.size), None) else CloseStream(c, s1)
  }

  /**
   One call: the buffer size, how many bytes the transport is ready to hand over, and
   whether it reports its end together with the last of them.
   */
  datatype Call = Call(size: nat, ready: nat, withEnd: bool)

  datatype Result = Result(st: State, data: string, err: Option<Error>)

  function Min(a: int, b: int): (m: int) {
    if a < b then a else b
  }

  function Take(s: State, k: Call): (n: nat) {
    Min(Min(k.size, if s.remaining > 0 then s.remaining else 0), Min(k.ready, |s.input|))
  }

  /** The fields after n bytes of the current chunk have been copied to the caller. */
  function Copied(c: Setup, s: State, n: nat): (t: State)
    requires n <= |s.input|
  {
    s.(input := s.input[n..],
       remaining := s.remaining - n,
       chunkData := if c.signed then s.chunkData + s.input[..n] else s.chunkData,
       summed := if c.checksum.Some? then s.summed + s.input[..n] else s.summed)
  }

  /** All data of a chunk was read: it must verify, and when it was the last one so must the rest of the stream. */
  function CompleteChunk(c: Setup, s: State): (r: Step) {
    var v := VerifyChunk(c, s);
    if v.err.Some? || v.st.undecoded != 0 then v else ReadTerminal(c, v.st)
  }

  /** The part of Read that delivers data of the current chunk. */
  function Deliver(c: Setup, s: State, k: Call): (r: Result) {
    var n := Take(s, k);
    var data, s1 := s.input[..n], Copied(c, s, n);
    var ended := k.withEnd && s1.input == "";
    if ended && c.end.Broken? then Result(Fail(s1, Transport).st, data, Some(Transport))
    else if ended && s1.remaining > 0 then Result(Fail(s1, IncompleteBody).st, data, Some(IncompleteBody))
    else if s1.remaining != 0 then Result(s1, data, None)
    else
      var v := CompleteChunk(c, s1);
      if v.err.Some? then Result(Fail(v.st, v.err.value).st, "", v.err) else Result(v.st, data, None)
  }

  function ReadStep(c: Setup, s: State, k: Call): (r: Result) {
    if s.err.Some? then Result(s, "", s.err)
    else if s.eof then Result(s, "", Some(Eof))
    else if s.remaining != 0 then Deliver(c, s, k)
    else
      var h := NextChunk(c, s);
      if h.err.Some? then Result(h.st, "", h.err) else Deliver(c, h.st, k)
  }

  /** A body that ends where more must follow is an incomplete body, never a shorter one. */
  lemma {:induction false} TruncationIsReported(c: Setup, s: State, k: Call)
    requires s.err.None? && !s.eof && s.remaining >= 0 && s.input == ""
    requires c.end.CleanEnd? && (s.remaining > 0 ==> k.withEnd)
    ensures ReadStep(c, s, k).err == Some(IncompleteBody) && ReadStep(c, s, k).st.err == Some(IncompleteBody)
  {
  }

  // ----- the reader

  class Decoder {
    const c: Setup
    var input: string
    var prevSig: string
    var chunkSig: string
    var chunkData: string
    var summed: string
    var seen: bool
    var remaining: int
    var undecoded: int
    var started: bool
    var eof: bool
    var err: Option<Error>

    function Abs(): (s: State)
      reads this
    {
      State(input, prevSig, chunkSig, chunkData, summed, seen, remaining, undecoded, started, eof, err)
    }

    constructor (c: Setup, body: string, seed: string, decodedLength: int)
      ensures this.c == c && Abs() == Init(body, seed, decodedLength)
    {
      this.c := c;
      input, prevSig, chunkSig, chunkData, summed := body, seed, "", "", "";
      seen, remaining, undecoded, started, eof, err := false, 0, decodedLength, false, false, None;
    }

    method ReadByte() returns (b: char, e: Option<Error>)
      modifies this`input
      ensures old(input) != "" ==> e.None? && b == old(input)[0] && input == old(input)[1..]
      ensures old(input) == "" ==> e == Some(if c.end.Broken? then Transport else Eof) && input == ""
    {
      if input == "" {
        return '\0', Some(if c.end.Broken? then Transport else Eof);
      }
      b, e := input[0], None;
      input := input[1..];
    }

    method Line() returns (l: Line)
      modifies this`input
      ensures l == ReadLine(c.end, old(input)) && input == l.rest
    {
      hide ReadLine, TrimRight;
      var sb := "";
      ghost var start := input;
      while true
        invariant |sb| <= MAX_LINE && '\n' !in sb && start == sb + input
        decreases |input|
      {
        var b, e := ReadByte();
        if e.Some? {
          LineAtEnd(c.end, sb);
          assert start == sb;
          if e.value == Eof && |sb| > 0 {
            return ChunkedFraming.Line(TrimRight(sb), input);
          }
          return NoLine(e.value, input);
        }
        if b == '\n' {
          LineAtNewline(c.end, sb, input);
          assert start == sb + ['\n'] + input;
          return ChunkedFraming.Line(TrimRight(sb), input);
        }
        assert start == sb + [b] + input;
        if |sb| >= MAX_LINE {
          LineWithoutEnd(c.end, sb + [b], input);
          return NoLine(LineTooLong, input);
        }
        sb := sb + [b];
      }
    }

    method CRLF() returns (e: Option<Error>)
      modifies this`input
      ensures Step(Abs(), e) == ReadCRLF(old(Abs()))
    {
      if |input| < 2 {
        input := "";
        return Some(IncompleteBody);
      }
      var b := input[..2];
      input := input[2..];
      if b[0] != '\r' || b[1] != '\n' {
        return Some(ExpectedCRLF);
      }
      return None;
    }

    method ChunkHeader() returns (size: int, e: Option<Error>)
      modifies this`input, this`chunkSig
      ensures HeaderStep(Abs(), size, e) == ReadChunkHeader(c, old(Abs()))
    {
      hide ReadLine, CutAt, ParseSize;
      var l := Line();
      if l.NoLine? {
        return 0, Some(if l.error == Eof then IncompleteBody else l.error);
      }
      var cut := CutAt(l.text, ';');
      var n := ParseSize(cut.before);
      if n.None? {
        return 0, Some(MalformedSize);
      }
      chunkSig := "";
      if cut.found {
        var ext := CutAt(cut.after, '=');
        if ext.before != EXTENSION {
          return 0, Some(UnknownExtension);
        }
        chunkSig := ext.after;
      }
      if c.signed && chunkSig == "" {
        return 0, Some(MissingSignature);
      }
      return n.value, None;
    }

    method Verify() returns (e: Option<Error>)
      modifies this`prevSig, this`chunkData
      ensures Step(Abs(), e) == VerifyChunk(c, old(Abs()))
    {
      if !c.signed {
        return None;
      }
      var want := ChunkSignature(c, prevSig, chunkData);
      if want != chunkSig {
        return Some(SignatureDoesNotMatch);
      }
      prevSig := chunkSig;
      chunkData := "";
      return None;
    }

    method Trailers() returns (e: Option<Error>)
      modifies this`input, this`seen
      ensures Step(Abs(), e) == DiscardTrailers(c, old(Abs()))
    {
      hide ReadLine, TrailerValue;
      if !c.trailer {
        var _ := CRLF();
        return None;
      }
      ghost var want, goal := Wanted(c, summed), DrainTrailers(c.end, Wanted(c, summed), input, seen);
      while true
        invariant DrainTrailers(c.end, want, input, seen) == goal
        decreases |input|
      {
        var l := Line();
        if (l.NoLine? && l.error == Eof) || (l.Line? && l.text == "") {
          if c.checksum.Some? && !seen {
            return Some(BadDigest);
          }
          return None;
        }
        if l.NoLine? {
          return Some(l.error);
        }
        if c.checksum.None? {
          continue;
        }
        var k := c.checksum.value;
        var v := TrailerValue(k.alg, l.text);
        if v.Some? {
          if v.value != k.digest(summed) {
            return Some(BadDigest);
          }
          seen := true;
        }
      }
    }

    method Terminal() returns (e: Option<Error>)
      modifies this
      ensures Step(Abs(), e) == ReadTerminal(c, old(Abs()))
    {
      hide ReadLine, ParseHeader, ReadCRLF, DrainTrailers, ChunkSignature;
      e := CRLF();
      if e.Some? {
        return;
      }
      var size;
      size, e := ChunkHeader();
      if e.Some? {
        return;
      }
      if size != 0 {
        return Some(ChunkTooLarge);
      }
      e := Verify();
      if e.Some? {
        return;
      }
      e := Trailers();
      if e.Some? {
        return;
      }
      eof := true;
      return None;
    }

    /** The body of the loop at the head of Read; it is left with an error, or with data to deliver. */
    method Advance() returns (e: Option<Error>)
      modifies this
      ensures Step(Abs(), e) == NextChunk(c, old(Abs()))
    {
      hide ReadLine, ParseHeader, ReadCRLF, CloseStream;
      ghost var crlf := ReadSeparator(Abs());
      if started {
        e := CRLF();
        if e.Some? {
          err := e;
          return;
        }
      }
      assert Abs() == crlf.st && crlf.err.None?;
      var size;
      size, e := ChunkHeader();
      ghost var h := ReadChunkHeader(c, crlf.st);
      assert HeaderStep(Abs(), size, e) == h;
      if e.Some? {
        err := e;
        return;
      }
      started := true;
      if size > undecoded {
        err := Some(ChunkTooLarge);
        return err;
      }
      undecoded := undecoded - size;
      if size == 0 {
        e := Close();
        return;
      }
      remaining := size;
      return None;
    }

    method Close() returns (e: Option<Error>)
      modifies this
      ensures Step(Abs(), e) == CloseStream(c, old(Abs()))
    {
      e := Verify();
      if e.Some? {
        err := e;
        return;
      }
      if undecoded != 0 {
        err := Some(IncompleteBody);
        return err;
      }
      e := Trailers();
      if e.Some? {
        err := e;
        return;
      }
      eof := true;
      return Some(Eof);
    }

    method Read(k: Call) returns (data: string, e: Option<Error>)
      modifies this
      ensures Result(Abs(), data, e) == ReadStep(c, old(Abs()), k)
    {
      if err.Some? {
        return "", err;
      }
      if eof {
        return "", Some(Eof);
      }
      if remaining == 0 {
        e := Advance();
        if e.Some? {
          return "", e;
        }
      }
      data, e := Supply(k);
    }

    /** Hands n bytes of the current chunk over, feeding both running hashes. */
    method Copy(n: nat) returns (data: string)
      requires n <= |input|
      modifies this
      ensures data == old(input)[..n] && Abs() == Copied(c, old(Abs()), n)
    {
      data := input[..n];
      input := input[n..];
      remaining := remaining - n;
      if c.signed {
        chunkData := chunkData + data;
      }
      if c.checksum.Some? {
        summed := summed + data;
      }
    }

    method Supply(k: Call) returns (data: string, e: Option<Error>)
      modifies this
      ensures Result(Abs(), data, e) == Deliver(c, old(Abs()), k)
    {
      var n := Take(Abs(), k);
      data := Copy(n);
      var transport: Option<Error> :=
        if k.withEnd && input == "" then Some(if c.end.Broken? then Transport else Eof) else None;
      if transport == Some(Eof) && remaining > 0 {
        transport := Some(IncompleteBody);
      }
      if transport.Some? && transport != Some(Eof) {
        err := transport;
        return data, err;
      }
      if remaining == 0 {
        e := Complete();
        if e.Some? {
          err := e;
          return "", e;
        }
      }
      return data, None;
    }

    method Complete() returns (e: Option<Error>)
      modifies this
      ensures Step(Abs(), e) == CompleteChunk(c, old(Abs()))
    {
      e := Verify();
      if e.None? && undecoded == 0 {
        e := Terminal();
      }
    }
  }

  // ----- how a line ends

  lemma {:induction false} LineAtEnd(end: End, s: string)
    requires '\n' !in s && |s| <= MAX_LINE
    ensures ReadLine(end, s) ==
            if end.Broken? then NoLine(Transport, "")
            else if s == "" then NoLine(Eof, "")
            else Line.Line(TrimRight(s), "")
  {
    hide TrimRight;
    assert LineLength(s) == |s|;
  }

  lemma {:induction false} LineAtNewline(end: End, s: string, rest: string)
    requires '\n' !in s && |s| <= MAX_LINE
    ensures ReadLine(end, s + ['\n'] + rest) == Line.Line(TrimRight(s), rest)
  {
    hide TrimRight, LineLength;
    LineLengthOf(s, rest);
    var t := s + ['\n'] + rest;
    assert t[..|s|] == s && t[|s| + 1..] == rest;
  }

  lemma {:induction false} LineWithoutEnd(end: End, s: string, rest: string)
    requires '\n' !in s && |s| == MAX_LINE + 1
    ensures ReadLine(end, s + rest) == NoLine(LineTooLong, rest)
  {
    hide TrimRight;
    var n := LineLength(s + rest);
    assert (s + rest)[MAX_LINE + 1..] == rest;
  }
}

/**
 Whole-run safety of the aws-chunked decoder. For every body, every sequence of
 calls and every way the transport delivers, what the consumer holds is the data of
 framed chunks of that body: every complete chunk has verified on the signature
 chain, and reaching the declared length (or end of file) means that the terminal
 chunk and the trailers have verified as well.
 */
module ChunkedSafety {
  import opened Text
  import opened ChunkedFraming
  import opened ChunkedReader

  /** One chunk of a body: its header line as it stands there, what the line says, and its data. */
  datatype Frame = Frame(head: string, size: nat, sig: string, data: string)
  {
    predicate Whole() { |data| == size }
  }

  const CRLF := "\r\n"

  /** The text of consecutive chunks. */
  function Framed(fs: seq<Frame>): (t: string) {
    if fs == [] then ""
    else if |fs| == 1 then fs[0].head + fs[0].data
    else fs[0].head + fs[0].data + CRLF + Framed(fs[1..])
  }

  function Payload(fs: seq<Frame>): (t: string) {
    if fs == [] then "" else Payload(fs[..|fs| - 1]) + fs[|fs| - 1].data
  }

  function LastSig(seed: string, fs: seq<Frame>): (sig: string) {
    if fs == [] then seed else fs[|fs| - 1].sig
  }

  /** Every chunk's signature is the one computed over its data and the signature before it. */
  predicate Chain(c: Setup, seed: string, fs: seq<Frame>) {
    fs != [] ==>
      var front, f := fs[..|fs| - 1], fs[|fs| - 1];
      Chain(c, seed, front) && f.sig == ChunkSignature(c, LastSig(seed, front), f.data)
  }

  /** The chunks whose data is complete; only the last one can be under way. */
  function Complete(fs: seq<Frame>): (r: seq<Frame>) {
    if fs != [] && !fs[|fs| - 1].Whole() then fs[..|fs| - 1] else fs
  }

  predicate FramesOk(c: Setup, fs: seq<Frame>) {
    && (forall i :: 0 <= i < |fs| ==> ParseHeader(c.signed, TrimRight(fs[i].head)) == Header(fs[i].size, fs[i].sig))
    && (forall i :: 0 <= i < |fs| - 1 ==> fs[i].Whole() && Terminated(fs[i].head) && fs[i].size > 0)
    && (fs != [] ==> |fs[|fs| - 1].data| <= fs[|fs| - 1].size)
  }

  /** The data of the last chunk begins in the body right behind the line that is its header. */
  predicate BehindHeader(end: End, body: string, fs: seq<Frame>)
    requires fs != []
  {
    var f := fs[|fs| - 1];
    |f.data| <= |Framed(fs)| <= |body| && LineBefore(end, f.head, body[|Framed(fs)| - |f.data|..])
  }

  /** What is promised about the delivered bytes at every point of every run. */
  predicate Vouched(c: Setup, seed: string, body: string, delivered: string, fs: seq<Frame>) {
    && FramesOk(c, fs)
    && delivered == Payload(fs)
    && Framed(fs) <= body
    && (fs != [] ==> BehindHeader(c.end, body, fs))
    && (c.signed ==> Chain(c, seed, Complete(fs)))
  }

  predicate TrailersPass(c: Setup, text: string, payload: string) {
    c.trailer ==> DrainTrailers(c.end, Wanted(c, payload), text, false).error.None?
  }

  /**
   A body that is a complete, fully verified stream of the declared length: its last
   chunk is the terminal one, and what follows it passes as trailers.
   */
  predicate Stream(c: Setup, seed: string, length: int, body: string, fs: seq<Frame>) {
    && FramesOk(c, fs)
    && fs != [] && fs[|fs| - 1].size == 0
    && Framed(fs) <= body
    && LineBefore(c.end, fs[|fs| - 1].head, body[|Framed(fs)|..])
    && (c.signed ==> Chain(c, seed, fs))
    && |Payload(fs)| == length
    && TrailersPass(c, body[|Framed(fs)|..], Payload(fs))
  }

  /** The reader is neither failed nor finished. */
  predicate Open(c: Setup, seed: string, length: int, body: string, s: State, fs: seq<Frame>) {
    && FramesOk(c, fs)
    && body == Framed(fs) + s.input
    && s.started == (fs != [])
    && s.undecoded >= 0
    && |Payload(fs)| + s.remaining + s.undecoded == length
    && (c.signed ==> Chain(c, seed, Complete(fs)) && s.prevSig == LastSig(seed, Complete(fs)))
    && (c.checksum.Some? ==> s.summed == Payload(fs))
    && !s.seen
    && (if fs == [] then s.remaining == 0 && (c.signed ==> s.chunkData == "")
        else
          var f := fs[|fs| - 1];
          && f.size > 0
          && s.remaining == f.size - |f.data|
          && LineBefore(c.end, f.head, f.data + s.input)
          && (s.remaining > 0 ==> s.chunkSig == f.sig && (c.signed ==> s.chunkData == f.data))
          && (s.remaining == 0 ==> s.undecoded > 0 && (c.signed ==> s.chunkData == "")))
  }

  predicate Safe(c: Setup, seed: string, length: int, body: string, s: State, delivered: string, fs: seq<Frame>) {
    if s.err.Some? then Vouched(c, seed, body, delivered, fs) && (length > 0 ==> |delivered| < length)
    else if s.eof then Stream(c, seed, length, body, fs) && delivered == Payload(fs) && s.remaining == 0 == s.undecoded
    else Open(c, seed, length, body, s, fs) && delivered == Payload(fs)
  }

  // ----- text of frames, seen from its end

  lemma {:induction false} FramedAppend(fs: seq<Frame>, f: Frame)
    ensures Framed(fs + [f]) == Framed(fs) + (if fs == [] then "" else CRLF) + f.head + f.data
  {
    if fs == [] {
      assert fs + [f] == [f];
    } else {
      FramedAppend(fs[1..], f);
      assert (fs + [f])[1..] == fs[1..] + [f];
      var x := fs[0].head + fs[0].data;
      if |fs| == 1 {
        assert Framed(fs[1..]) == "";
      } else {
        assert Framed(fs + [f]) == x + CRLF + (Framed(fs[1..]) + CRLF + f.head + f.data);
        assert Framed(fs) == x + CRLF + Framed(fs[1..]);
      }
    }
  }

  /** The same frames with more data in the last one. */
  function Extend(fs: seq<Frame>, data: string): (r: seq<Frame>)
    requires fs != []
  {
    var f := fs[|fs| - 1];
    fs[..|fs| - 1] + [f.(data := f.data + data)]
  }

  lemma {:induction false} ExtendFacts(fs: seq<Frame>, data: string)
    requires fs != []
    ensures Framed(Extend(fs, data)) == Framed(fs) + data
    ensures Payload(Extend(fs, data)) == Payload(fs) + data
  {
    var front, f := fs[..|fs| - 1], fs[|fs| - 1];
    var g := f.(data := f.data + data);
    assert fs == front + [f];
    FramedAppend(front, f);
    FramedAppend(front, g);
    assert Extend(fs, data)[..|fs| - 1] == front;
  }

  lemma {:induction false} PayloadAppend(fs: seq<Frame>, f: Frame)
    ensures Payload(fs + [f]) == Payload(fs) + f.data
  {
    assert (fs + [f])[..|fs|] == fs;
  }

  lemma {:induction false} ChainAppend(c: Setup, seed: string, fs: seq<Frame>, f: Frame)
    ensures Chain(c, seed, fs + [f]) <==> Chain(c, seed, fs) && f.sig == ChunkSignature(c, LastSig(seed, fs), f.data)
  {
    assert (fs + [f])[..|fs|] == fs;
  }

  // ----- between chunks

  /** No chunk is under way: all chunks so far are complete and verified. */
  predicate Settled(c: Setup, seed: string, length: int, body: string, s: State, fs: seq<Frame>) {
    && FramesOk(c, fs)
    && (fs != [] ==> fs[|fs| - 1].Whole() && fs[|fs| - 1].size > 0 && Terminated(fs[|fs| - 1].head))
    && body == Framed(fs) + s.input
    && s.started == (fs != [])
    && s.undecoded >= 0
    && s.remaining == 0
    && |Payload(fs)| + s.undecoded == length
    && (c.signed ==> Chain(c, seed, fs) && s.prevSig == LastSig(seed, fs) && s.chunkData == "")
    && (c.checksum.Some? ==> s.summed == Payload(fs))
    && !s.seen
  }

  lemma {:induction false} OpenIsSettled(c: Setup, seed: string, length: int, body: string, s: State, fs: seq<Frame>)
    requires s.remaining == 0
    ensures Open(c, seed, length, body, s, fs) ==> Settled(c, seed, length, body, s, fs)
    ensures Settled(c, seed, length, body, s, fs) && s.undecoded > 0 ==> Open(c, seed, length, body, s, fs)
  {
  }

  lemma {:induction false} HeaderSplits(c: Setup, s: State) returns (head: string)
    requires ReadChunkHeader(c, s).err.None?
    ensures var h := ReadChunkHeader(c, s);
            && h.st == s.(input := h.st.input, chunkSig := h.st.chunkSig)
            && s.input == head + h.st.input
            && LineBefore(c.end, head, h.st.input)
            && h.size >= 0
            && ParseHeader(c.signed, TrimRight(head)) == Header(h.size, h.st.chunkSig)
  {
    head := ReadLineSplits(c.end, s.input);
  }

  /** The frame a header line opens, in front of everything the body still holds. */
  lemma {:induction false} FrameOpens(
    c: Setup, body: string, fs: seq<Frame>, sep: string, head: string, size: nat, sig: string, rest: string)
    requires FramesOk(c, fs)
    requires fs != [] ==> fs[|fs| - 1].Whole() && fs[|fs| - 1].size > 0 && Terminated(fs[|fs| - 1].head)
    requires sep == if fs == [] then "" else CRLF
    requires body == Framed(fs) + sep + head + rest
    requires ParseHeader(c.signed, TrimRight(head)) == Header(size, sig)
    ensures var gs := fs + [Frame(head, size, sig, "")];
            FramesOk(c, gs) && body == Framed(gs) + rest && Payload(gs) == Payload(fs)
  {
    hide ParseHeader, TrimRight, Framed, Payload;
    var f := Frame(head, size, sig, "");
    FramedAppend(fs, f);
    PayloadAppend(fs, f);
    assert Framed(fs + [f]) == Framed(fs) + sep + head;
  }

  /** The terminal chunk verified and the trailers passed, so the body is a complete stream. */
  lemma {:induction false} StreamEnds(
    c: Setup, seed: string, length: int, body: string, s: State, fs: seq<Frame>, head: string)
    requires c.Valid()
    requires FramesOk(c, fs + [Frame(head, 0, s.chunkSig, "")])
    requires body == Framed(fs + [Frame(head, 0, s.chunkSig, "")]) + s.input
    requires LineBefore(c.end, head, s.input)
    requires |Payload(fs)| == length
    requires c.signed ==> Chain(c, seed, fs) && s.prevSig == LastSig(seed, fs) && s.chunkData == ""
    requires c.checksum.Some? ==> s.summed == Payload(fs)
    requires !s.seen
    requires VerifyChunk(c, s).err.None? && DiscardTrailers(c, VerifyChunk(c, s).st).err.None?
    ensures Stream(c, seed, length, body, fs + [Frame(head, 0, s.chunkSig, "")])
    ensures Payload(fs + [Frame(head, 0, s.chunkSig, "")]) == Payload(fs)
  {
    var f := Frame(head, 0, s.chunkSig, "");
    var gs := fs + [f];
    PayloadAppend(fs, f);
    ChainAppend(c, seed, fs, f);
    assert body[|Framed(gs)|..] == s.input;
    assert Wanted(c, s.summed) == Wanted(c, Payload(gs));
  }

  /** A data chunk that fits the declared length opens. */
  lemma {:induction false} ChunkOpens(
    c: Setup, seed: string, length: int, body: string, s: State, fs: seq<Frame>, t: State, f: Frame)
    requires Settled(c, seed, length, body, s, fs)
    requires f.data == "" && 0 < f.size <= s.undecoded
    requires FramesOk(c, fs + [f]) && body == Framed(fs + [f]) + t.input && Payload(fs + [f]) == Payload(fs)
    requires LineBefore(c.end, f.head, t.input)
    requires t == s.(input := t.input, chunkSig := f.sig, started := true, undecoded := s.undecoded - f.size,
                     remaining := f.size)
    ensures Open(c, seed, length, body, t, fs + [f])
  {
    hide ParseHeader, TrimRight, Framed, Payload, Chain;
    assert Complete(fs + [f]) == fs;
    assert f.data + t.input == t.input;
  }

  /** The next header line of the body opens a frame behind the settled ones. */
  lemma {:induction false} HeaderAfter(
    c: Setup, seed: string, length: int, body: string, s: State, fs: seq<Frame>)
    returns (head: string)
    requires Settled(c, seed, length, body, s, fs)
    requires ReadSeparator(s).err.None? && ReadChunkHeader(c, ReadSeparator(s).st).err.None?
    ensures var h := ReadChunkHeader(c, ReadSeparator(s).st);
            && h.size >= 0
            && h.st == s.(input := h.st.input, chunkSig := h.st.chunkSig)
            && LineBefore(c.end, head, h.st.input)
            && var gs := fs + [Frame(head, h.size, h.st.chunkSig, "")];
               FramesOk(c, gs) && body == Framed(gs) + h.st.input && Payload(gs) == Payload(fs)
  {
    hide ReadChunkHeader, ParseHeader, TrimRight, Framed, Payload, Chain;
    var crlf := ReadSeparator(s);
    var sep := if fs == [] then "" else CRLF;
    assert s.input == sep + crlf.st.input;
    head := HeaderSplits(c, crlf.st);
    var h := ReadChunkHeader(c, crlf.st);
    assert body == Framed(fs) + sep + head + h.st.input;
    FrameOpens(c, body, fs, sep, head, h.size, h.st.chunkSig, h.st.input);
  }

  /** What the step in front of a chunk's data may leave behind. */
  predicate Advanced(c: Setup, seed: string, length: int, body: string, r: Step, gs: seq<Frame>) {
    if r.st.err.Some? then r.err == r.st.err
    else if r.err.None? then Open(c, seed, length, body, r.st, gs) && r.st.remaining > 0 && !r.st.eof
    else r.err == Some(Eof) && r.st.eof && Stream(c, seed, length, body, gs) && r.st.remaining == 0 == r.st.undecoded
  }

  lemma {:induction false} CloseSafe(
    c: Setup, seed: string, length: int, body: string, s: State, s1: State, fs: seq<Frame>, head: string)
    requires c.Valid() && Settled(c, seed, length, body, s, fs) && s.err.None?
    requires s1 == s.(input := s1.input, chunkSig := s1.chunkSig, started := true)
    requires FramesOk(c, fs + [Frame(head, 0, s1.chunkSig, "")])
    requires body == Framed(fs + [Frame(head, 0, s1.chunkSig, "")]) + s1.input
    requires LineBefore(c.end, head, s1.input)
    ensures Advanced(c, seed, length, body, CloseStream(c, s1), fs + [Frame(head, 0, s1.chunkSig, "")])
  {
    hide ParseHeader, TrimRight, DrainTrailers, Framed, Payload, Chain;
    if CloseStream(c, s1).st.err.None? {
      StreamEnds(c, seed, length, body, s1, fs, head);
    }
  }

  /** The step in front of a chunk's data keeps the run safe. */
  lemma {:induction false} NextChunkSafe(
    c: Setup, seed: string, length: int, body: string, s: State, fs: seq<Frame>)
    returns (gs: seq<Frame>)
    requires c.Valid() && Settled(c, seed, length, body, s, fs) && s.err.None? && !s.eof
    ensures Advanced(c, seed, length, body, NextChunk(c, s), gs) && Payload(gs) == Payload(fs)
  {
    hide ReadChunkHeader, ReadCRLF, CloseStream, LineBefore, ParseHeader, TrimRight, FramesOk, Framed, Payload, Chain,
         Open, Stream;
    var r, crlf := NextChunk(c, s), ReadSeparator(s);
    gs := fs;
    if crlf.err.None? {
      var h := ReadChunkHeader(c, crlf.st);
      if h.err.None? && h.size <= h.st.undecoded {
        var head := HeaderAfter(c, seed, length, body, s, fs);
        gs := fs + [Frame(head, h.size, h.st.chunkSig, "")];
        if h.size == 0 {
          CloseSafe(c, seed, length, body, s, h.st.(started := true, undecoded := h.st.undecoded - h.size), fs, head);
        } else {
          ChunkOpens(c, seed, length, body, s, fs, r.st, Frame(head, h.size, h.st.chunkSig, ""));
        }
      }
    }
  }

  /** The end of the stream, read in the same call as the last data, keeps the run safe. */
  lemma {:induction false} TerminalSafe(
    c: Setup, seed: string, length: int, body: string, s: State, fs: seq<Frame>)
    returns (gs: seq<Frame>)
    requires c.Valid() && Settled(c, seed, length, body, s, fs) && fs != [] && s.undecoded == 0
    requires ReadTerminal(c, s).err.None?
    ensures var r := ReadTerminal(c, s);
            && Stream(c, seed, length, body, gs) && r.st.eof && r.st.err == s.err
            && r.st.remaining == 0 == r.st.undecoded
    ensures Payload(gs) == Payload(fs)
  {
    hide ReadChunkHeader, ParseHeader, TrimRight, DrainTrailers, Framed, Payload, Chain;
    var head := HeaderAfter(c, seed, length, body, s, fs);
    var h := ReadChunkHeader(c, ReadSeparator(s).st);
    gs := fs + [Frame(head, 0, h.st.chunkSig, "")];
    StreamEnds(c, seed, length, body, h.st, fs, head);
  }

  // ----- inside a chunk

  /** Copying bytes of the chunk under way moves them from the input into its frame. */
  lemma {:induction false} CopyFrames(
    c: Setup, seed: string, length: int, body: string, s: State, fs: seq<Frame>, n: nat)
    requires Open(c, seed, length, body, s, fs) && 0 < s.remaining && n <= s.remaining && n <= |s.input|
    ensures var t, gs, f := Copied(c, s, n), Extend(fs, s.input[..n]), fs[|fs| - 1];
            && FramesOk(c, gs) && body == Framed(gs) + t.input
            && Payload(gs) == Payload(fs) + s.input[..n]
            && gs == fs[..|fs| - 1] + [f.(data := f.data + s.input[..n])]
            && LineBefore(c.end, f.head, f.data + s.input[..n] + t.input)
  {
    hide ReadLine, ParseHeader, TrimRight, LineBefore, Terminated, ChunkSignature, Framed, Payload, Chain;
    var data, f, front := s.input[..n], fs[|fs| - 1], fs[..|fs| - 1];
    var t := Copied(c, s, n);
    ExtendFacts(fs, data);
    assert s.input == data + t.input;
    assert f.data + data + t.input == f.data + s.input;
  }

  lemma {:induction false} CopySafe(c: Setup, seed: string, length: int, body: string, s: State, fs: seq<Frame>, n: nat)
    requires Open(c, seed, length, body, s, fs) && 0 < s.remaining && n <= s.remaining && n <= |s.input|
    ensures var t, gs := Copied(c, s, n), Extend(fs, s.input[..n]);
            && Payload(gs) == Payload(fs) + s.input[..n]
            && (t.remaining > 0 ==> Open(c, seed, length, body, t, gs))
            && (t.remaining == 0 && VerifyChunk(c, t).err.None? ==>
                  Settled(c, seed, length, body, VerifyChunk(c, t).st, gs))
  {
    hide ReadLine, ParseHeader, TrimRight, Terminated, ChunkSignature, FramesOk, Framed, Payload, Chain, Extend;
    CopyFrames(c, seed, length, body, s, fs, n);
    var f, front := fs[|fs| - 1], fs[..|fs| - 1];
    var t, gs := Copied(c, s, n), Extend(fs, s.input[..n]);
    var g := f.(data := f.data + s.input[..n]);
    assert gs[..|gs| - 1] == front && gs[|gs| - 1] == g && Complete(fs) == front;
    ChainAppend(c, seed, front, g);
  }

  lemma {:induction false} DeliverSafe(
    c: Setup, seed: string, length: int, body: string, s: State, fs: seq<Frame>, k: Call)
    returns (gs: seq<Frame>)
    requires c.Valid() && Open(c, seed, length, body, s, fs) && s.remaining > 0 && s.err.None? && !s.eof
    ensures var r := Deliver(c, s, k);
            Safe(c, seed, length, body, r.st, if r.err.None? then Payload(fs) + r.data else Payload(fs), gs)
  {
    hide ReadTerminal, ReadLine, ParseHeader, TrimRight, LineBefore, DrainTrailers, ChunkSignature, FramesOk, Framed,
         Payload, Chain, Stream, Vouched;
    var r, n := Deliver(c, s, k), Take(s, k);
    CopySafe(c, seed, length, body, s, fs, n);
    var t := Copied(c, s, n);
    gs := Extend(fs, s.input[..n]);
    if r.err.Some? {
      OpenIsVouched(c, seed, length, body, s, fs);
      gs := fs;
    } else if t.remaining == 0 {
      var v := VerifyChunk(c, t).st;
      if v.undecoded == 0 {
        var hs := TerminalSafe(c, seed, length, body, v, gs);
        gs := hs;
      } else {
        OpenIsSettled(c, seed, length, body, v, gs);
      }
    }
  }

  lemma {:induction false} OpenIsVouched(c: Setup, seed: string, length: int, body: string, s: State, fs: seq<Frame>)
    requires Open(c, seed, length, body, s, fs)
    ensures Vouched(c, seed, body, Payload(fs), fs)
    ensures length > 0 ==> |Payload(fs)| < length
  {
    hide LineBefore, Framed, Chain, ParseHeader, TrimRight, Terminated;
    if fs != [] {
      var f := fs[|fs| - 1];
      LastFrame(fs);
      assert body[|Framed(fs)| - |f.data|..] == f.data + s.input;
    }
  }

  /** The text of frames ends with the data of the last one. */
  lemma {:induction false} LastFrame(fs: seq<Frame>)
    requires fs != []
    ensures var f := fs[|fs| - 1]; |f.data| <= |Framed(fs)| && Framed(fs)[|Framed(fs)| - |f.data|..] == f.data
  {
    hide Framed;
    var front, f := fs[..|fs| - 1], fs[|fs| - 1];
    assert fs == front + [f];
    FramedAppend(front, f);
  }

  lemma {:induction false} ReadSafe(
    c: Setup, seed: string, length: int, body: string, s: State, delivered: string, fs: seq<Frame>, k: Call)
    returns (gs: seq<Frame>)
    requires c.Valid() && Safe(c, seed, length, body, s, delivered, fs)
    ensures var r := ReadStep(c, s, k);
            Safe(c, seed, length, body, r.st, if r.err.None? then delivered + r.data else delivered, gs)
  {
    hide Deliver, NextChunk, Stream, Vouched, Settled, ParseHeader, TrimRight, LineBefore, Framed, Payload, Chain;
    gs := fs;
    if s.err.None? && !s.eof {
      if s.remaining != 0 {
        gs := DeliverSafe(c, seed, length, body, s, fs, k);
      } else {
        OpenIsSettled(c, seed, length, body, s, fs);
        gs := NextChunkSafe(c, seed, length, body, s, fs);
        var h := NextChunk(c, s);
        if h.err.None? {
          gs := DeliverSafe(c, seed, length, body, h.st, gs, k);
        } else if h.st.err.Some? {
          OpenIsVouched(c, seed, length, body, s, fs);
          gs := fs;
        }
      }
    }
  }

  // ----- whole runs

  /** The state after a sequence of calls, and the bytes of those that returned no error. */
  datatype Trace = Trace(st: State, delivered: string)

  function Run(c: Setup, s: State, calls: seq<Call>): (t: Trace) {
    if calls == [] then Trace(s, "")
    else
      var t := Run(c, s, calls[..|calls| - 1]);
      var r := ReadStep(c, t.st, calls[|calls| - 1]);
      Trace(r.st, if r.err.None? then t.delivered + r.data else t.delivered)
  }

  lemma {:induction false} RunIsSafe(
    c: Setup, seed: string, length: nat, body: string, calls: seq<Call>)
    returns (fs: seq<Frame>)
    requires c.Valid()
    ensures var t := Run(c, Init(body, seed, length), calls);
            Safe(c, seed, length, body, t.st, t.delivered, fs)
  {
    if calls == [] {
      fs := [];
      assert body == "" + body;
    } else {
      fs := RunIsSafe(c, seed, length, body, calls[..|calls| - 1]);
      var t := Run(c, Init(body, seed, length), calls[..|calls| - 1]);
      fs := ReadSafe(c, seed, length, body, t.st, t.delivered, fs, calls[|calls| - 1]);
    }
  }

  lemma {:induction false} StreamIsVouched(c: Setup, seed: string, length: int, body: string, fs: seq<Frame>)
    requires Stream(c, seed, length, body, fs)
    ensures Vouched(c, seed, body, Payload(fs), fs)
  {
    hide LineBefore, Framed, Chain, ParseHeader, TrimRight, Terminated, TrailersPass, Payload;
    var f := fs[|fs| - 1];
    LastFrame(fs);
    assert f.data == "";
  }

  /**
   For every body, every declared length and every sequence of calls:
   the bytes handed out without error are the data of framed chunks of the body, all
   verified but a strictly partial last one; delivered + remaining + undecoded is the
   declared length; and once the declared length is reached, or end of file, the body
   is a complete verified stream with exactly that payload.
   */
  lemma {:induction false} DecoderIsSafe(c: Setup, seed: string, length: nat, body: string, calls: seq<Call>)
    requires c.Valid()
    ensures var t := Run(c, Init(body, seed, length), calls);
            && (exists fs :: Vouched(c, seed, body, t.delivered, fs))
            && (t.st.err.None? ==> |t.delivered| + t.st.remaining + t.st.undecoded == length)
            && ((t.st.err.None? && t.st.eof) || |t.delivered| == length > 0 ==>
                  exists fs :: Stream(c, seed, length, body, fs) && t.delivered == Payload(fs))
  {
    var fs := RunIsSafe(c, seed, length, body, calls);
    var t := Run(c, Init(body, seed, length), calls);
    if t.st.err.None? && t.st.eof {
      StreamIsVouched(c, seed, length, body, fs);
    } else if t.st.err.None? {
      OpenIsVouched(c, seed, length, body, t.st, fs);
    }
    assert Vouched(c, seed, body, t.delivered, fs);
  }

  /**
   A complete stream under a declared checksum: among the trailer lines behind its last chunk there is one of
   that name, and every one of that name carries the digest of the payload.
   */
  lemma {:induction false} StreamIsAttested(c: Setup, seed: string, length: int, body: string, fs: seq<Frame>)
    requires c.Valid() && c.checksum.Some? && Stream(c, seed, length, body, fs)
    ensures var want := Expected(c.checksum.value.alg, c.checksum.value.digest(Payload(fs)));
            exists lines :: TrailerLines(c.end, body[|Framed(fs)|..], lines) && Attested(want, lines)
  {
    DrainPassesIff(c.end, Wanted(c, Payload(fs)), body[|Framed(fs)|..], false);
  }
}

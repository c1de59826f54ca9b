/**
 The other half of the aws-chunked decoder's contract. A body that is a complete
 verified stream is decoded without error, whatever the buffer sizes and however the
 transport delivers, so end of file is reachable exactly on such bodies.
 */
module ChunkedRoundTrip {
  import opened Text
  import opened ChunkedFraming
  import opened ChunkedReader
  import opened ChunkedSafety

  // ----- frames, seen from their front

  lemma {:induction false} PayloadFront(fs: seq<Frame>)
    requires fs != []
    ensures Payload(fs) == fs[0].data + Payload(fs[1..])
  {
    if |fs| == 1 {
      assert fs[..0] == [] && fs[1..] == [];
    } else {
      var front := fs[..|fs| - 1];
      PayloadFront(front);
      var gs := fs[1..];
      assert gs[..|gs| - 1] == front[1..] && gs[|gs| - 1] == fs[|fs| - 1];
      assert Payload(gs) == Payload(front[1..]) + fs[|fs| - 1].data;
      assert Payload(fs) == fs[0].data + Payload(front[1..]) + fs[|fs| - 1].data;
    }
  }

  lemma {:induction false} ChainFront(c: Setup, prev: string, fs: seq<Frame>)
    requires fs != [] && Chain(c, prev, fs)
    ensures fs[0].sig == ChunkSignature(c, prev, fs[0].data) && Chain(c, fs[0].sig, fs[1..])
  {
    var front := fs[..|fs| - 1];
    if |fs| == 1 {
      assert front == [] && fs[1..] == [];
    } else {
      ChainFront(c, prev, front);
      assert fs[1..][..|fs| - 2] == front[1..];
      assert LastSig(fs[0].sig, front[1..]) == LastSig(prev, front);
    }
  }

  lemma {:induction false} ChainBuild(c: Setup, prev: string, fs: seq<Frame>)
    requires fs != [] && fs[0].sig == ChunkSignature(c, prev, fs[0].data) && Chain(c, fs[0].sig, fs[1..])
    ensures Chain(c, prev, fs)
  {
    var front := fs[..|fs| - 1];
    if |fs| == 1 {
      assert front == [];
    } else {
      assert fs[1..][..|fs| - 2] == front[1..];
      ChainBuild(c, prev, front);
      assert LastSig(fs[0].sig, front[1..]) == LastSig(prev, front);
    }
  }

  // ----- what the unread input still holds

  /** The frames still to come in `text`, chaining from `prev`, up to trailers that pass for the whole payload. */
  predicate Upcoming(c: Setup, prev: string, text: string, fs: seq<Frame>, total: string) {
    && FramesOk(c, fs)
    && fs != [] && fs[|fs| - 1].size == 0
    && Framed(fs) <= text
    && LineBefore(c.end, fs[|fs| - 1].head, text[|Framed(fs)|..])
    && (c.signed ==> Chain(c, prev, fs))
    && TrailersPass(c, text[|Framed(fs)|..], total)
  }

  /** The input is `d`, the rest of the chunk under way, and behind it the frames to come. */
  predicate Flowing(c: Setup, s: State, total: string, delivered: string, d: string, text: string, fs: seq<Frame>) {
    && s.err.None? && !s.eof && !s.seen
    && s.remaining == |d|
    && s.undecoded == |Payload(fs)|
    && delivered + d + Payload(fs) == total
    && (c.checksum.Some? ==> s.summed == delivered)
    && s.input == d + (if s.started then CRLF else "") + text
    && (if d != "" then
          && s.started
          && (c.signed ==> s.chunkSig == ChunkSignature(c, s.prevSig, s.chunkData + d))
          && Upcoming(c, s.chunkSig, text, fs, total)
        else
          && (c.signed ==> s.chunkData == "")
          && (s.started ==> s.undecoded > 0)
          && Upcoming(c, s.prevSig, text, fs, total))
  }

  lemma {:induction false} FrontFrame(
    c: Setup, prev: string, text: string, fs: seq<Frame>, total: string)
    returns (rest: string)
    requires Upcoming(c, prev, text, fs, total) && |fs| > 1
    ensures text == fs[0].head + fs[0].data + CRLF + rest
    ensures Upcoming(c, fs[0].sig, rest, fs[1..], total)
    ensures c.signed ==> fs[0].sig == ChunkSignature(c, prev, fs[0].data)
  {
    hide ParseHeader, TrimRight, Terminated, LineBefore, Payload, DrainTrailers, ChunkSignature;
    var f, gs := fs[0], fs[1..];
    var x := f.head + f.data + CRLF;
    assert Framed(fs) == x + Framed(gs);
    rest := text[|x|..];
    assert text == x + rest;
    assert Framed(gs) <= rest;
    assert rest[|Framed(gs)|..] == text[|Framed(fs)|..];
    assert gs[|gs| - 1] == fs[|fs| - 1];
    if c.signed {
      ChainFront(c, prev, fs);
    }
  }

  lemma {:induction false} HeaderOf(c: Setup, s: State, head: string, size: nat, sig: string, after: string)
    requires s.input == head + after && LineBefore(c.end, head, after)
    requires ParseHeader(c.signed, TrimRight(head)) == Header(size, sig)
    ensures ReadChunkHeader(c, s) == HeaderStep(s.(input := after, chunkSig := sig), size, None)
  {
    hide ReadLine, ParseHeader, TrimRight, LineBefore;
    ReadLineOf(c.end, head, after);
  }

  lemma {:induction false} SeparatorOf(s: State, text: string)
    requires s.input == (if s.started then CRLF else "") + text
    ensures ReadSeparator(s) == Step(s.(input := text), None)
  {
    assert s.started ==> s.input[..2] == CRLF && s.input[2..] == text;
  }

  /** In front of a data chunk the reader opens it. */
  lemma {:induction false} OpensNext(c: Setup, s: State, total: string, delivered: string, text: string, fs: seq<Frame>)
    returns (rest: string)
    requires Flowing(c, s, total, delivered, "", text, fs) && |fs| > 1
    ensures NextChunk(c, s).err.None?
    ensures Flowing(c, NextChunk(c, s).st, total, delivered, fs[0].data, rest, fs[1..]) && fs[0].data != ""
  {
    hide ReadChunkHeader, ReadCRLF, CloseStream, LineBefore, ParseHeader, TrimRight, Framed, Payload, Chain,
         ChunkSignature, TrailersPass;
    var f := fs[0];
    rest := FrontFrame(c, s.prevSig, text, fs, total);
    PayloadFront(fs);
    assert s.input == (if s.started then CRLF else "") + text;
    SeparatorOf(s, text);
    var after := f.data + CRLF + rest;
    assert text == f.head + after;
    assert LineBefore(c.end, f.head, after) by {
      TerminatedIsLine(c.end, f.head, after);
    }
    HeaderOf(c, s.(input := text), f.head, f.size, f.sig, after);
    assert delivered + "" + Payload(fs) == delivered + f.data + Payload(fs[1..]);
    assert s.chunkData + f.data == f.data || !c.signed;
  }

  lemma {:induction false} TerminatedIsLine(end: End, head: string, after: string)
    requires Terminated(head)
    ensures LineBefore(end, head, after)
  {
  }

  /** The state once the terminal header has been read: it verifies, and the trailers pass. */
  lemma {:induction false} TerminalPasses(c: Setup, s: State, f: Frame, text: string, total: string)
    requires c.Valid() && Upcoming(c, s.prevSig, text, [f], total)
    requires s.chunkSig == f.sig && s.input == text[|f.head|..] && !s.seen
    requires c.signed ==> s.chunkData == ""
    requires c.checksum.Some? ==> s.summed == total
    ensures f.head <= text
    ensures VerifyChunk(c, s).err.None? && DiscardTrailers(c, VerifyChunk(c, s).st).err.None?
  {
    hide ParseHeader, TrimRight, LineBefore, DrainTrailers, ChunkSignature;
    assert f.data == "" && Framed([f]) == f.head;
    if c.signed {
      ChainFront(c, s.prevSig, [f]);
    }
  }

  lemma {:induction false} TerminalHeader(c: Setup, s: State, f: Frame, text: string, total: string)
    requires Upcoming(c, s.prevSig, text, [f], total)
    requires s.input == text
    ensures f.head <= text
    ensures ReadChunkHeader(c, s) == HeaderStep(s.(input := text[|f.head|..], chunkSig := f.sig), 0, None)
  {
    hide ReadChunkHeader, ParseHeader, TrimRight, LineBefore, DrainTrailers, ChunkSignature, Chain;
    assert f.data == "" && Framed([f]) == f.head;
    assert text == f.head + text[|f.head|..];
    HeaderOf(c, s, f.head, 0, f.sig, text[|f.head|..]);
  }

  /** An empty stream ends at its first header. */
  lemma {:induction false} ClosesEmpty(
    c: Setup, s: State, total: string, delivered: string, text: string, fs: seq<Frame>)
    requires c.Valid() && Flowing(c, s, total, delivered, "", text, fs) && |fs| == 1
    ensures NextChunk(c, s).err == Some(Eof) && NextChunk(c, s).st.err.None? && NextChunk(c, s).st.eof
    ensures delivered == total
  {
    hide ReadChunkHeader, LineBefore, ParseHeader, TrimRight, Chain, ChunkSignature, DrainTrailers, TrailersPass,
         Framed;
    var f := fs[0];
    assert fs == [f] && Payload([f]) == "" + f.data && f.data == "";
    assert total == delivered;
    assert s.input == text && !s.started;
    TerminalHeader(c, s, f, text, total);
    var s1 := s.(input := text[|f.head|..], chunkSig := f.sig, started := true);
    TerminalPasses(c, s1, f, text, total);
    assert NextChunk(c, s) == CloseStream(c, s1.(undecoded := s.undecoded - 0));
  }

  /** Behind the last data chunk the rest of the stream passes in the same call. */
  lemma {:induction false} TerminalFlows(c: Setup, s: State, text: string, f: Frame, total: string)
    requires c.Valid() && Upcoming(c, s.prevSig, text, [f], total)
    requires s.started && s.input == CRLF + text && !s.seen && s.err.None?
    requires c.signed ==> s.chunkData == ""
    requires c.checksum.Some? ==> s.summed == total
    ensures ReadTerminal(c, s).err.None? && ReadTerminal(c, s).st.eof && ReadTerminal(c, s).st.err.None?
  {
    hide ReadChunkHeader, LineBefore, ParseHeader, TrimRight, Chain, ChunkSignature, DrainTrailers, TrailersPass,
         Framed, FramesOk;
    SeparatorOf(s, text);
    TerminalHeader(c, s.(input := text), f, text, total);
    TerminalPasses(c, s.(input := text[|f.head|..], chunkSig := f.sig), f, text, total);
  }

  lemma {:induction false} AloneWhenEmpty(c: Setup, fs: seq<Frame>)
    requires FramesOk(c, fs) && fs != [] && fs[|fs| - 1].size == 0
    ensures |fs| == 1 <==> Payload(fs) == ""
  {
    PayloadFront(fs);
    if |fs| == 1 {
      assert fs[1..] == [];
    } else {
      assert fs[0].data != "";
    }
  }

  /**
   The state after a call that could take at least one byte: more was delivered, and the flow goes on or has ended.
   */
  predicate Progressed(c: Setup, r: Result, total: string, delivered: string, d: string, text: string, fs: seq<Frame>) {
    && r.err.None? && r.data != ""
    && (Flowing(c, r.st, total, delivered + r.data, d, text, fs) ||
        (r.st.err.None? && r.st.eof && delivered + r.data == total))
  }

  /** Inside a chunk every such call makes progress. */
  lemma {:induction false} DeliverFlows(
    c: Setup, s: State, k: Call, total: string, delivered: string, d: string, text: string, fs: seq<Frame>)
    returns (d': string)
    requires c.Valid() && Flowing(c, s, total, delivered, d, text, fs) && d != ""
    requires k.size > 0 && k.ready > 0
    ensures Progressed(c, Deliver(c, s, k), total, delivered, d', text, fs)
  {
    hide LineBefore, ParseHeader, TrimRight, Chain, ChunkSignature, DrainTrailers, TrailersPass, Framed, FramesOk,
         Payload, ReadTerminal;
    var n := Take(s, k);
    var data, s1 := s.input[..n], Copied(c, s, n);
    d' := d[n..];
    assert 0 < n <= |d| && data == d[..n] && d == data + d';
    assert s1.input == d' + CRLF + text;
    assert delivered + d + Payload(fs) == (delivered + data) + d' + Payload(fs);
    if d' == "" {
      assert s1.chunkData == s.chunkData + d || !c.signed;
      var v := VerifyChunk(c, s1);
      assert v.err.None? && v.st.input == CRLF + text;
      AloneWhenEmpty(c, fs);
      if v.st.undecoded == 0 {
        assert fs == [fs[0]] && delivered + data == total;
        TerminalFlows(c, v.st, text, fs[0], total);
      } else {
        assert "" + CRLF + text == CRLF + text;
      }
    } else {
      assert s1.chunkData + d' == s.chunkData + d || !c.signed;
    }
  }

  /** A call on a flowing stream: it makes progress, or the stream was empty and ends. */
  lemma {:induction false} ReadFlows(
    c: Setup, s: State, k: Call, total: string, delivered: string, d: string, text: string, fs: seq<Frame>)
    returns (d': string, text': string, fs': seq<Frame>)
    requires c.Valid() && Flowing(c, s, total, delivered, d, text, fs)
    requires k.size > 0 && k.ready > 0
    ensures var r := ReadStep(c, s, k);
            || Progressed(c, r, total, delivered, d', text', fs')
            || (r.err == Some(Eof) && r.st.err.None? && r.st.eof && delivered == total)
  {
    hide Deliver, NextChunk, Upcoming, Payload, ChunkSignature;
    d', text', fs' := d, text, fs;
    if d != "" {
      d' := DeliverFlows(c, s, k, total, delivered, d, text, fs);
    } else if |fs| > 1 {
      text' := OpensNext(c, s, total, delivered, text, fs);
      fs' := fs[1..];
      d' := DeliverFlows(c, NextChunk(c, s).st, k, total, delivered, fs[0].data, text', fs');
    } else {
      assert |fs| == 1 by { UpcomingIsNonEmpty(c, s.prevSig, text, fs, total); }
      ClosesEmpty(c, s, total, delivered, text, fs);
    }
  }

  lemma {:induction false} UpcomingIsNonEmpty(c: Setup, prev: string, text: string, fs: seq<Frame>, total: string)
    requires Upcoming(c, prev, text, fs, total)
    ensures fs != []
  {
  }

  /** After some calls: the stream has ended with everything delivered, or every call delivered something. */
  predicate OnCourse(c: Setup, t: Trace, calls: nat, total: string, d: string, text: string, fs: seq<Frame>) {
    || (t.st.err.None? && t.st.eof && t.delivered == total)
    || (Flowing(c, t.st, total, t.delivered, d, text, fs) && |t.delivered| >= calls)
  }

  lemma {:induction false} RunFlows(c: Setup, seed: string, body: string, gs: seq<Frame>, calls: seq<Call>)
    returns (d: string, text: string, fs: seq<Frame>)
    requires c.Valid() && Stream(c, seed, |Payload(gs)|, body, gs)
    requires forall i :: 0 <= i < |calls| ==> calls[i].size > 0 && calls[i].ready > 0
    ensures OnCourse(c, Run(c, Init(body, seed, |Payload(gs)|), calls), |calls|, Payload(gs), d, text, fs)
  {
    hide ReadStep, Chain, ChunkSignature, ParseHeader, TrimRight, LineBefore, DrainTrailers, Framed, Payload;
    var s0, total := Init(body, seed, |Payload(gs)|), Payload(gs);
    if calls == [] {
      d, text, fs := "", body, gs;
      assert "" + "" + body == body && "" + "" + total == total;
    } else {
      var front, k := calls[..|calls| - 1], calls[|calls| - 1];
      d, text, fs := RunFlows(c, seed, body, gs, front);
      var t := Run(c, s0, front);
      if !t.st.eof {
        d, text, fs := ReadFlows(c, t.st, k, total, t.delivered, d, text, fs);
      } else {
        EndStays(c, t.st, k);
      }
    }
  }

  lemma {:induction false} EndStays(c: Setup, s: State, k: Call)
    requires s.err.None? && s.eof
    ensures ReadStep(c, s, k) == Result(s, "", Some(Eof))
  {
  }

  lemma {:induction false} FlowIsShort(c: Setup, t: Trace, total: string, d: string, text: string, fs: seq<Frame>)
    requires Flowing(c, t.st, total, t.delivered, d, text, fs)
    ensures t.delivered <= total
  {
    hide Upcoming, Payload, ChunkSignature;
    assert total == t.delivered + (d + Payload(fs));
  }

  /**
   Every complete verified stream is decoded: no call that offers a non-empty buffer and
   finds the transport ready ever fails, the bytes delivered so far are a prefix of the
   payload, and after more calls than the payload has bytes all of it has been delivered
   and every further call answers end of file.
   */
  lemma {:induction false} StreamIsDecoded(c: Setup, seed: string, body: string, gs: seq<Frame>, calls: seq<Call>)
    requires c.Valid() && Stream(c, seed, |Payload(gs)|, body, gs)
    requires forall i :: 0 <= i < |calls| ==> calls[i].size > 0 && calls[i].ready > 0
    ensures var t := Run(c, Init(body, seed, |Payload(gs)|), calls);
            && t.st.err.None?
            && t.delivered <= Payload(gs)
            && (|calls| > |Payload(gs)| ==>
                  t.st.eof && t.delivered == Payload(gs) &&
                  forall k :: ReadStep(c, t.st, k) == Result(t.st, "", Some(Eof)))
  {
    var d, text, fs := RunFlows(c, seed, body, gs, calls);
    var t := Run(c, Init(body, seed, |Payload(gs)|), calls);
    if t.st.eof {
      forall k ensures ReadStep(c, t.st, k) == Result(t.st, "", Some(Eof)) {
        EndStays(c, t.st, k);
      }
    } else {
      FlowIsShort(c, t, Payload(gs), d, text, fs);
    }
  }

  /** This sequence of calls brings the reader to the end of the stream without an error. */
  predicate Ends(c: Setup, seed: string, length: nat, body: string, calls: seq<Call>) {
    var t := Run(c, Init(body, seed, length), calls);
    t.st.err.None? && t.st.eof
  }

  lemma {:induction false} StreamEndsByteByByte(
    c: Setup, seed: string, length: nat, body: string, fs: seq<Frame>)
    returns (calls: seq<Call>)
    requires c.Valid() && Stream(c, seed, length, body, fs)
    ensures Ends(c, seed, length, body, calls)
  {
    calls := seq(|Payload(fs)| + 1, _ => Call(1, 1, false));
    StreamIsDecoded(c, seed, body, fs, calls);
  }

  /** The reader can be driven to end of file exactly on complete verified streams of the declared length. */
  lemma {:induction false} EndReachedIff(c: Setup, seed: string, length: nat, body: string)
    requires c.Valid()
    ensures (exists calls :: Ends(c, seed, length, body, calls)) <==> (exists fs :: Stream(c, seed, length, body, fs))
  {
    hide Stream, Run, Vouched;
    forall calls | Ends(c, seed, length, body, calls)
      ensures exists fs :: Stream(c, seed, length, body, fs)
    {
      DecoderIsSafe(c, seed, length, body, calls);
    }
    forall fs | Stream(c, seed, length, body, fs)
      ensures exists calls :: Ends(c, seed, length, body, calls)
    {
      var calls := StreamEndsByteByByte(c, seed, length, body, fs);
    }
  }
}

/** A chunked, chain-signed encoding of a payload, and the round trip through the decoder. */
module ChunkedEncode {
  import opened Text
  import opened ChunkedFraming
  import opened ChunkedReader
  import opened ChunkedSafety
  import opened ChunkedRoundTrip

  // ----- hexadecimal sizes

  function HexDigit(v: nat): (c: char)
    requires v < 16
    ensures HexValue(c) == v
  {
    if v < 10 then ('0' as int + v) as char else ('a' as int + v - 10) as char
  }

  function ToHex(n: nat): (s: string)
    ensures s != "" && HexDigits(s)
  {
    if n < 16 then [HexDigit(n)] else ToHex(n / 16) + [HexDigit(n % 16)]
  }

  lemma {:induction false} HexNumberOf(n: nat)
    ensures HexNumber(ToHex(n)) == n
  {
    if n < 16 {
      assert ToHex(n)[..0] == "";
    } else {
      HexNumberOf(n / 16);
      var s := ToHex(n);
      assert s[..|s| - 1] == ToHex(n / 16) && s[|s| - 1] == HexDigit(n % 16);
    }
  }

  lemma {:induction false} HexLength(n: nat, k: nat)
    requires k > 0 && n < Pow16(k)
    ensures |ToHex(n)| <= k
  {
    if n >= 16 {
      HexLength(n / 16, k - 1);
    }
  }

  lemma {:induction false} SizeFits(n: nat)
    requires n < INT64_LIMIT
    ensures |ToHex(n)| <= 16
  {
    assert Pow16(4) == 65536;
    assert Pow16(8) == 16 * (16 * (16 * (16 * Pow16(4))));
    assert Pow16(12) == 16 * (16 * (16 * (16 * Pow16(8))));
    assert Pow16(16) == 16 * (16 * (16 * (16 * Pow16(12))));
    HexLength(n, 16);
  }

  lemma {:induction false} SizeRoundTrip(n: nat)
    requires n < INT64_LIMIT
    ensures ParseSize(ToHex(n)) == Some(n)
  {
    HexNumberOf(n);
    assert HexValue(ToHex(n)[0]) >= 0;
  }

  // ----- headers

  /** The signature a client puts on a chunk; none in unsigned mode. */
  function Signed(c: Setup, prev: string, data: string): (sig: string) {
    if c.signed then ChunkSignature(c, prev, data) else ""
  }

  function HeaderLine(c: Setup, size: nat, sig: string): (h: string) {
    ToHex(size) + (if c.signed then ";" + EXTENSION + "=" + sig else "")
  }

  lemma {:induction false} HexIsPlain(s: string)
    requires HexDigits(s)
    ensures '\n' !in s && '\r' !in s && ';' !in s && '=' !in s
  {
  }

  lemma {:induction false} TrimRightEnds(s: string)
    requires s != "" && s[|s| - 1] != '\r' && s[|s| - 1] != '\n'
    ensures TrimRight(s + CRLF) == s
  {
    var t := s + CRLF;
    var u := s + ['\r'];
    assert t[|t| - 1] == '\n' && t[..|t| - 1] == u && u[..|u| - 1] == s;
    assert TrimRight(u) == TrimRight(s) == s;
  }

  /** A header line says exactly what it was written for. */
  lemma {:induction false} HeaderRoundTrip(c: Setup, size: nat, sig: string)
    requires size < INT64_LIMIT
    requires if c.signed then |sig| == 64 && HexDigits(sig) else sig == ""
    ensures ParseHeader(c.signed, HeaderLine(c, size, sig)) == Header(size, sig)
  {
    hide CutAt, ParseSize, ToHex;
    var hex := ToHex(size);
    HexIsPlain(hex);
    SizeRoundTrip(size);
    var line := HeaderLine(c, size, sig);
    if c.signed {
      var ext := EXTENSION + ['='] + sig;
      assert line == hex + [';'] + ext;
      CutAtOf(hex, ext, ';');
      CutAtOf(EXTENSION, sig, '=');
    } else {
      assert line == hex;
    }
  }

  lemma {:induction false} HeaderIsLine(c: Setup, size: nat, sig: string)
    requires size < INT64_LIMIT
    requires if c.signed then |sig| == 64 && HexDigits(sig) else sig == ""
    ensures var head := HeaderLine(c, size, sig) + CRLF;
            Terminated(head) && TrimRight(head) == HeaderLine(c, size, sig)
  {
    hide TrimRight, ToHex;
    var line := HeaderLine(c, size, sig);
    SizeFits(size);
    HexIsPlain(ToHex(size));
    HexIsPlain(sig);
    assert '\n' !in line && '\r' !in line;
    TrimRightEnds(line);
    var head := line + CRLF;
    assert head[..|head| - 1] == line + ['\r'];
  }

  // ----- frames and the whole body

  function FrameOf(c: Setup, prev: string, data: string): (f: Frame) {
    var sig := Signed(c, prev, data);
    Frame(HeaderLine(c, |data|, sig) + CRLF, |data|, sig, data)
  }

  /** One frame per chunk, each chaining from the last, and the terminal frame. */
  function FramesOf(c: Setup, prev: string, chunks: seq<string>): (fs: seq<Frame>)
    ensures |fs| == |chunks| + 1
    decreases |chunks|
  {
    if chunks == [] then [FrameOf(c, prev, "")]
    else [FrameOf(c, prev, chunks[0])] + FramesOf(c, Signed(c, prev, chunks[0]), chunks[1..])
  }

  function Joined(chunks: seq<string>): (s: string) {
    if chunks == [] then "" else chunks[0] + Joined(chunks[1..])
  }

  function TrailerText(c: Setup, payload: string): (t: string) {
    match c.checksum
    case None => ""
    case Some(k) => CHECKSUM_PREFIX + k.alg + ":" + k.digest(payload) + CRLF
  }

  function Encode(c: Setup, seed: string, chunks: seq<string>): (body: string) {
    Framed(FramesOf(c, seed, chunks)) + TrailerText(c, Joined(chunks)) + CRLF
  }

  /** Every chunk is non-empty and every size fits the header. */
  predicate Splittable(chunks: seq<string>) {
    forall i :: 0 <= i < |chunks| ==> 0 < |chunks[i]| < INT64_LIMIT
  }

  lemma {:induction false} FrameIsOk(c: Setup, prev: string, data: string)
    requires |data| < INT64_LIMIT
    ensures var f := FrameOf(c, prev, data);
            Terminated(f.head) && f.Whole() && ParseHeader(c.signed, TrimRight(f.head)) == Header(f.size, f.sig)
  {
    hide ParseHeader, TrimRight;
    var sig := Signed(c, prev, data);
    HeaderRoundTrip(c, |data|, sig);
    HeaderIsLine(c, |data|, sig);
  }

  lemma {:induction false} FramesOkFront(c: Setup, f: Frame, gs: seq<Frame>)
    requires Terminated(f.head) && f.Whole() && ParseHeader(c.signed, TrimRight(f.head)) == Header(f.size, f.sig)
    requires gs != [] ==> FramesOk(c, gs) && f.size > 0
    ensures FramesOk(c, [f] + gs)
  {
    hide ParseHeader, TrimRight, Terminated;
    var fs := [f] + gs;
    assert forall i :: 0 < i < |fs| ==> fs[i] == gs[i - 1];
  }

  lemma {:induction false} FramesAreOk(c: Setup, prev: string, chunks: seq<string>)
    requires Splittable(chunks)
    ensures var fs := FramesOf(c, prev, chunks);
            && FramesOk(c, fs)
            && fs[|fs| - 1].size == 0 && Terminated(fs[|fs| - 1].head)
            && Payload(fs) == Joined(chunks)
            && (c.signed ==> Chain(c, prev, fs))
    decreases |chunks|
  {
    hide ParseHeader, TrimRight, HeaderLine, Terminated, ChunkSignature, Framed, FramesOk;
    var fs := FramesOf(c, prev, chunks);
    if chunks == [] {
      FrameIsOk(c, prev, "");
      FramesOkFront(c, fs[0], []);
      assert fs == [fs[0]] + [] && fs[..0] == [];
    } else {
      var f, gs := FrameOf(c, prev, chunks[0]), FramesOf(c, Signed(c, prev, chunks[0]), chunks[1..]);
      FrameIsOk(c, prev, chunks[0]);
      FramesAreOk(c, Signed(c, prev, chunks[0]), chunks[1..]);
      FramesOkFront(c, f, gs);
      assert fs == [f] + gs && fs[1..] == gs;
      PayloadFront(fs);
      if c.signed {
        ChainBuild(c, prev, fs);
      }
    }
  }

  // ----- the trailer

  /** Algorithm names and digests as the protocol writes them: short ASCII without spaces, colons or line breaks. */
  predicate PlainText(s: string) {
    |s| <= 128 && forall i :: 0 <= i < |s| ==> s[i] as int < 0x80 && !IsSpace(s[i]) && s[i] != ':'
  }

  predicate PlainChecksum(c: Setup, payload: string) {
    c.checksum.Some? ==> PlainText(c.checksum.value.alg) && PlainText(c.checksum.value.digest(payload))
  }

  lemma {:induction false} TrimSpaceOfPlain(s: string)
    requires forall i :: 0 <= i < |s| ==> s[i] as int < 0x80 && !IsSpace(s[i])
    ensures TrimSpace(s) == s
  {
    NothingToTrim(s);
  }

  lemma {:induction false} TrailerLine(alg: string, digest: string)
    requires PlainText(alg) && PlainText(digest)
    ensures TrailerValue(alg, CHECKSUM_PREFIX + alg + ":" + digest) == Some(digest)
  {
    var name := CHECKSUM_PREFIX + alg;
    assert forall i :: 0 <= i < |name| ==> name[i] as int < 0x80 && !IsSpace(name[i]) && name[i] != ':';
    CutAtOf(name, digest, ':');
    TrimSpaceOfPlain(name);
    TrimSpaceOfPlain(digest);
  }

  lemma {:induction false} BlankLineEnds(end: End, want: Option<Expected>, seen: bool)
    requires want.None? || seen
    ensures DrainTrailers(end, want, CRLF, seen).error.None?
  {
    assert Terminated(CRLF) && CRLF + "" == CRLF;
    ReadLineOf(end, CRLF, "");
    assert TrimRight(CRLF) == "" by {
      assert CRLF[..1] == "\r";
    }
  }

  lemma {:induction false} TrailerTextPasses(c: Setup, payload: string)
    requires PlainChecksum(c, payload)
    ensures TrailersPass(c, TrailerText(c, payload) + CRLF, payload)
  {
    hide ReadLine, TrailerValue, TrimRight;
    if c.checksum.None? {
      BlankLineEnds(c.end, None, false);
      assert TrailerText(c, payload) + CRLF == CRLF;
    } else {
      var alg, digest := c.checksum.value.alg, c.checksum.value.digest(payload);
      var line := CHECKSUM_PREFIX + alg + ":" + digest;
      var head := line + CRLF;
      assert forall i :: 0 <= i < |line| ==> !IsSpace(line[i]);
      assert head[..|head| - 1] == line + ['\r'];
      assert Terminated(head);
      TrimRightEnds(line);
      ReadLineOf(c.end, head, CRLF);
      TrailerLine(alg, digest);
      BlankLineEnds(c.end, Some(Expected(alg, digest)), true);
    }
  }

  lemma {:induction false} HeadText(c: Setup, size: nat, sig: string)
    requires c.signed
    ensures HeaderLine(c, size, sig) + CRLF == ToHex(size) + ";chunk-signature=" + sig + "\r\n"
  {
    hide ToHex;
    assert ";" + EXTENSION + "=" + sig == ";chunk-signature=" + sig;
  }

  /** The encoding of one chunk, written out. */
  lemma {:induction false} EncodedText(c: Setup, seed: string, data: string)
    requires c.signed && c.checksum.None?
    ensures var first := ChunkSignature(c, seed, data);
            var last := ChunkSignature(c, first, "");
            Encode(c, seed, [data]) ==
              (ToHex(|data|) + ";chunk-signature=" + first + "\r\n") + data + "\r\n" +
              ("0" + ";chunk-signature=" + last + "\r\n") + "\r\n"
  {
    hide ChunkSignature, ToHex, HeaderLine;
    var first := ChunkSignature(c, seed, data);
    var f, g := FrameOf(c, seed, data), FrameOf(c, first, "");
    ZeroIsZero();
    HeadText(c, |data|, first);
    HeadText(c, 0, g.sig);
    assert FramesOf(c, first, []) == [g];
    assert FramesOf(c, seed, [data]) == [f, g] && [f, g][1..] == [g];
    assert g.head + g.data == g.head;
    assert Framed([f, g]) == f.head + data + CRLF + g.head;
    assert Framed([f, g]) + "" == Framed([f, g]);
  }

  lemma {:induction false} ZeroIsZero()
    ensures ToHex(0) == "0"
  {
  }

  // ----- the round trip

  lemma {:induction false} EncodeIsStream(c: Setup, seed: string, chunks: seq<string>)
    requires Splittable(chunks) && PlainChecksum(c, Joined(chunks))
    ensures Stream(c, seed, |Joined(chunks)|, Encode(c, seed, chunks), FramesOf(c, seed, chunks))
    ensures Payload(FramesOf(c, seed, chunks)) == Joined(chunks)
  {
    hide ParseHeader, TrimRight, Terminated, HeaderLine, ChunkSignature, Framed, TrailersPass, TrailerText;
    var fs, body, tail := FramesOf(c, seed, chunks), Encode(c, seed, chunks), TrailerText(c, Joined(chunks)) + CRLF;
    FramesAreOk(c, seed, chunks);
    TrailerTextPasses(c, Joined(chunks));
    assert body == Framed(fs) + tail && body[|Framed(fs)|..] == tail;
    TerminatedIsLine(c.end, fs[|fs| - 1].head, tail);
  }

  /**
   For every payload, every split into non-empty chunks, every seed signature and signing
   function, and every read pattern with non-empty buffers, decoding the encoding yields
   exactly the payload and then end of file, without any error on the way.
   */
  lemma {:induction false} RoundTrip(c: Setup, seed: string, chunks: seq<string>, calls: seq<Call>)
    requires c.Valid() && Splittable(chunks) && PlainChecksum(c, Joined(chunks))
    requires forall i :: 0 <= i < |calls| ==> calls[i].size > 0 && calls[i].ready > 0
    ensures var t := Run(c, Init(Encode(c, seed, chunks), seed, |Joined(chunks)|), calls);
            && t.st.err.None?
            && t.delivered <= Joined(chunks)
            && (|calls| > |Joined(chunks)| ==>
                  t.st.eof && t.delivered == Joined(chunks) &&
                  forall k :: ReadStep(c, t.st, k) == Result(t.st, "", Some(Eof)))
  {
    hide *;
    EncodeIsStream(c, seed, chunks);
    StreamIsDecoded(c, seed, Encode(c, seed, chunks), FramesOf(c, seed, chunks), calls);
  }
}

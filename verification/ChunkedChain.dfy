/**
 What the signature chain is for (sigv4/chunked.go): as long as only the sender's own
 chunk texts are ever signed, the sender's chunks can be neither altered, reordered,
 dropped from the middle nor replaced, and a body the reader accepts to its end carries
 exactly the sender's payload.
 */
module ChunkedChain {
  import opened Text
  import opened ChunkedFraming
  import opened ChunkedReader
  import opened ChunkedSafety

  /** The signature in front of chunk i. */
  function Before(seed: string, fs: seq<Frame>, i: nat): (sig: string)
    requires i <= |fs|
  {
    if i == 0 then seed else fs[i - 1].sig
  }

  function TextAt(c: Setup, seed: string, fs: seq<Frame>, i: nat): (t: string)
    requires i < |fs|
  {
    SignedText(c, Before(seed, fs, i), fs[i].data)
  }

  /** The sender signed this text for one of these chunks. */
  predicate Issued(c: Setup, seed: string, sent: seq<Frame>, text: string) {
    exists j :: 0 <= j < |sent| && TextAt(c, seed, sent, j) == text
  }

  /** No signature of the chain, its seed included, occurs twice. */
  predicate Unrepeated(seed: string, sent: seq<Frame>) {
    forall i, j :: 0 <= i < j <= |sent| ==> Before(seed, sent, i) != Before(seed, sent, j)
  }

  /**
   The cryptographic assumption, about these two sequences of chunks only: every text whose
   signature verified was signed by the sender, and no two of the data have the same hash.
   */
  predicate OnlySigned(c: Setup, seed: string, sent: seq<Frame>, fs: seq<Frame>) {
    && (forall i :: 0 <= i < |fs| ==> Issued(c, seed, sent, TextAt(c, seed, fs, i)))
    && (forall i, j :: 0 <= i < |fs| && 0 <= j < |sent| && c.sha(fs[i].data) == c.sha(sent[j].data) ==>
          fs[i].data == sent[j].data)
  }

  /** A signed text determines the signature it continues and the hash of the data. */
  lemma {:induction false} SignedTextIsUnambiguous(c: Setup, prev: string, data: string, prev': string, data': string)
    requires '\n' !in prev && '\n' !in prev'
    requires SignedText(c, prev, data) == SignedText(c, prev', data')
    ensures prev == prev' && c.sha(data) == c.sha(data')
  {
    var head, tail := "AWS4-HMAC-SHA256-PAYLOAD\n" + c.timestamp + "\n" + c.scope + "\n", c.sha("") + "\n";
    assert SignedText(c, prev, data) == head + (prev + ['\n'] + (tail + c.sha(data)));
    assert SignedText(c, prev', data') == head + (prev' + ['\n'] + (tail + c.sha(data')));
    SamePrefix(head, prev + ['\n'] + (tail + c.sha(data)), prev' + ['\n'] + (tail + c.sha(data')));
    CutIsUnique(prev, tail + c.sha(data), prev', tail + c.sha(data'), '\n');
    SamePrefix(tail, c.sha(data), c.sha(data'));
  }

  /**
   What is signed, part by part: the scheme, the time and the scope of the request, the signature before, the hash
   of nothing, and the hash of the data. Texts of different requests are therefore different.
   */
  lemma {:induction false} SignedTextParts(c: Setup, prev: string, data: string)
    requires '\n' !in c.timestamp && '\n' !in c.scope && '\n' !in prev && '\n' !in c.sha("") && '\n' !in c.sha(data)
    ensures Split(SignedText(c, prev, data), '\n') ==
            ["AWS4-HMAC-SHA256-PAYLOAD", c.timestamp, c.scope, prev, c.sha(""), c.sha(data)]
  {
    hide Split;
    var nl := ['\n'];
    var e := c.sha("") + nl + c.sha(data);
    var d := prev + nl + e;
    var b := c.scope + nl + d;
    var a := c.timestamp + nl + b;
    assert SignedText(c, prev, data) == "AWS4-HMAC-SHA256-PAYLOAD" + nl + a;
    SplitFirst("AWS4-HMAC-SHA256-PAYLOAD", a, '\n');
    SplitFirst(c.timestamp, b, '\n');
    SplitFirst(c.scope, d, '\n');
    SplitFirst(prev, e, '\n');
    SplitFirst(c.sha(""), c.sha(data), '\n');
    SplitPlain(c.sha(data), '\n');
  }

  lemma {:induction false} SamePrefix(head: string, x: string, y: string)
    requires head + x == head + y
    ensures x == y
  {
    assert x == (head + x)[|head|..] && y == (head + y)[|head|..];
  }

  lemma {:induction false} ChainAt(c: Setup, seed: string, fs: seq<Frame>, i: nat)
    requires Chain(c, seed, fs) && i < |fs|
    ensures fs[i].sig == c.hmac(TextAt(c, seed, fs, i)) && '\n' !in fs[i].sig
    decreases |fs|
  {
    hide SignedText;
    var front := fs[..|fs| - 1];
    if i < |front| {
      ChainAt(c, seed, front, i);
    } else {
      assert Before(seed, fs, i) == LastSig(seed, front);
    }
  }

  lemma {:induction false} BeforeIsPlain(c: Setup, seed: string, fs: seq<Frame>, i: nat)
    requires Chain(c, seed, fs) && '\n' !in seed && i <= |fs|
    ensures '\n' !in Before(seed, fs, i)
  {
    if i > 0 {
      ChainAt(c, seed, fs, i - 1);
    }
  }

  /** A verified chunk behind i genuine ones is the genuine chunk i. */
  lemma {:induction false} NextIsGenuine(c: Setup, seed: string, sent: seq<Frame>, fs: seq<Frame>, i: nat)
    requires Chain(c, seed, sent) && Chain(c, seed, fs) && '\n' !in seed
    requires Unrepeated(seed, sent) && OnlySigned(c, seed, sent, fs)
    requires i < |fs| && i <= |sent| && Before(seed, fs, i) == Before(seed, sent, i)
    ensures i < |sent| && fs[i].data == sent[i].data && fs[i].sig == sent[i].sig
  {
    hide SignedText, Chain;
    assert Issued(c, seed, sent, TextAt(c, seed, fs, i));
    var j :| 0 <= j < |sent| && TextAt(c, seed, sent, j) == TextAt(c, seed, fs, i);
    BeforeIsPlain(c, seed, fs, i);
    BeforeIsPlain(c, seed, sent, j);
    SignedTextIsUnambiguous(c, Before(seed, sent, j), sent[j].data, Before(seed, fs, i), fs[i].data);
    assert i == j;
    ChainAt(c, seed, fs, i);
    ChainAt(c, seed, sent, i);
  }

  /** Verified chunks are a prefix of the sender's, in the sender's order. */
  lemma {:induction false} OrderIsFixed(c: Setup, seed: string, sent: seq<Frame>, fs: seq<Frame>, n: nat)
    requires Chain(c, seed, sent) && Chain(c, seed, fs) && '\n' !in seed
    requires Unrepeated(seed, sent) && OnlySigned(c, seed, sent, fs)
    requires n <= |fs|
    ensures n <= |sent|
    ensures forall i :: 0 <= i < n ==> fs[i].data == sent[i].data && fs[i].sig == sent[i].sig
  {
    hide Chain, Unrepeated, OnlySigned;
    if n > 0 {
      OrderIsFixed(c, seed, sent, fs, n - 1);
      NextIsGenuine(c, seed, sent, fs, n - 1);
    }
  }

  lemma {:induction false} SameDataSamePayload(fs: seq<Frame>, gs: seq<Frame>)
    requires |fs| == |gs| && forall i :: 0 <= i < |fs| ==> fs[i].data == gs[i].data
    ensures Payload(fs) == Payload(gs)
  {
    if fs != [] {
      SameDataSamePayload(fs[..|fs| - 1], gs[..|gs| - 1]);
    }
  }

  /** In a complete stream the terminal chunk, and no other, is empty. */
  lemma {:induction false} EmptyIsLast(c: Setup, fs: seq<Frame>, i: nat)
    requires FramesOk(c, fs) && i < |fs| && fs[|fs| - 1].size == 0
    ensures fs[i].data == "" <==> i == |fs| - 1
  {
    hide ParseHeader, TrimRight, Terminated;
  }

  /** A complete verified stream that uses only the sender's signatures is the sender's stream. */
  lemma {:induction false} AcceptedIsSent(
    c: Setup, seed: string, length: int, body: string, fs: seq<Frame>, sentLength: int, sentBody: string,
    sent: seq<Frame>)
    requires c.signed && '\n' !in seed
    requires Stream(c, seed, length, body, fs) && Stream(c, seed, sentLength, sentBody, sent)
    requires Unrepeated(seed, sent) && OnlySigned(c, seed, sent, fs)
    ensures |fs| == |sent| && Payload(fs) == Payload(sent)
  {
    hide Chain, Unrepeated, OnlySigned, Framed, Payload, TrailersPass, LineBefore;
    OrderIsFixed(c, seed, sent, fs, |fs|);
    EmptyIsLast(c, fs, |fs| - 1);
    EmptyIsLast(c, sent, |fs| - 1);
    SameDataSamePayload(fs, sent);
  }

  /**
   For every body, declared length and run of calls under the sender's seed signature: if only the
   sender's chunks were ever signed, a run that reaches the end has delivered the sender's payload.
   */
  lemma {:induction false} DeliveredIsSent(
    c: Setup, seed: string, length: nat, body: string, calls: seq<Call>, sentLength: int, sentBody: string,
    sent: seq<Frame>)
    requires c.Valid() && c.signed && '\n' !in seed
    requires Stream(c, seed, sentLength, sentBody, sent) && Unrepeated(seed, sent)
    requires forall fs :: Stream(c, seed, length, body, fs) ==> OnlySigned(c, seed, sent, fs)
    ensures var t := Run(c, Init(body, seed, length), calls);
            (t.st.err.None? && t.st.eof) || |t.delivered| == length > 0 ==> t.delivered == Payload(sent)
  {
    hide Stream, Unrepeated, OnlySigned, Run;
    DecoderIsSafe(c, seed, length, body, calls);
    var t := Run(c, Init(body, seed, length), calls);
    if (t.st.err.None? && t.st.eof) || |t.delivered| == length > 0 {
      var fs :| Stream(c, seed, length, body, fs) && t.delivered == Payload(fs);
      AcceptedIsSent(c, seed, length, body, fs, sentLength, sentBody, sent);
    }
  }

  /** The first chunks of the sender's are a prefix of the sender's payload. */
  lemma {:induction false} PayloadOfPrefix(fs: seq<Frame>, sent: seq<Frame>)
    requires |fs| <= |sent| && forall i :: 0 <= i < |fs| ==> fs[i].data == sent[i].data
    ensures Payload(fs) <= Payload(sent)
    decreases |sent|
  {
    if |fs| == |sent| {
      SameDataSamePayload(fs, sent);
    } else {
      PayloadOfPrefix(fs, sent[..|sent| - 1]);
    }
  }

  /** What has been delivered so far: chunks of the sender's, in order, and then part of one chunk. */
  ghost predicate SoFar(c: Setup, seed: string, body: string, delivered: string, sent: seq<Frame>, fs: seq<Frame>) {
    && Vouched(c, seed, body, delivered, fs)
    && |Complete(fs)| <= |sent|
    && (forall i :: 0 <= i < |Complete(fs)| ==> Complete(fs)[i].data == sent[i].data)
    && Payload(Complete(fs)) <= Payload(sent)
    && Payload(Complete(fs)) <= delivered
  }

  /**
   At every point of every run over any body: if only the sender's chunks were ever signed, the completed chunks
   delivered so far are the first chunks of the sender's, and only the chunk under way follows them.
   */
  lemma {:induction false} DeliveredChunksAreSent(
    c: Setup, seed: string, length: nat, body: string, calls: seq<Call>, sent: seq<Frame>)
    requires c.Valid() && c.signed && '\n' !in seed
    requires Chain(c, seed, sent) && Unrepeated(seed, sent)
    requires forall d, fs :: Vouched(c, seed, body, d, fs) ==> OnlySigned(c, seed, sent, Complete(fs))
    ensures exists fs :: SoFar(c, seed, body, Run(c, Init(body, seed, length), calls).delivered, sent, fs)
  {
    hide Unrepeated, OnlySigned, Run, Stream, Chain, FramesOk, Framed, BehindHeader;
    DecoderIsSafe(c, seed, length, body, calls);
    var t := Run(c, Init(body, seed, length), calls);
    var fs :| Vouched(c, seed, body, t.delivered, fs);
    var done := Complete(fs);
    OrderIsFixed(c, seed, sent, done, |done|);
    PayloadOfPrefix(done, sent);
    PayloadOfPrefix(done, fs);
    assert SoFar(c, seed, body, t.delivered, sent, fs);
  }
}

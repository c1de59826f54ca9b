/**
 The SigV4 canonical request (sigv4/canonical.go): the accepted signed-header lists,
 the text that is hashed, and why two requests with the same text agree on everything
 the signature is meant to cover.
 */
module Canonical {
  import opened Text
  import opened Ordering
  import Query
  import Whitespace

  // ----- the signed-header list

  predicate GoodList(names: seq<string>) {
    && (forall i :: 0 <= i < |names| ==> names[i] != "" && names[i] == ToLower(names[i]))
    && Ascending(names)
    && "host" in names
    && "authorization" !in names
  }

  method CheckSignedHeaderList(names: seq<string>) returns (ok: bool)
    ensures ok <==>
            && (forall i :: 0 <= i < |names| ==> names[i] != "" && names[i] == ToLower(names[i]))
            && Ascending(names)
            && "host" in names
            && "authorization" !in names
    ensures ok <==> GoodList(names)
  {
    var hasHost := false;
    for i := 0 to |names|
      invariant hasHost <==> "host" in names[..i]
      invariant "authorization" !in names[..i]
      invariant forall j :: 0 <= j < i ==> names[j] != "" && names[j] == ToLower(names[j])
      invariant Ascending(names[..i])
    {
      var n := names[i];
      assert names[..i + 1] == names[..i] + [n];
      if n == "" || n != ToLower(n) {
        return false;
      }
      if i > 0 && !Less(names[i - 1], n) {
        return false;
      }
      if n == "host" {
        hasHost := true;
      } else if n == "authorization" {
        return false;
      }
    }
    assert names[..|names|] == names;
    return hasHost;
  }

  /** A set of headers can be listed in only one accepted way. */
  lemma {:induction false} AcceptedListIsUnique(a: seq<string>, b: seq<string>)
    requires GoodList(a) && GoodList(b)
    requires forall x :: x in a <==> x in b
    ensures a == b
  {
    AscendingUnique(a, b);
  }

  /** The list every request signs at least in part. */
  lemma {:induction false} TypicalListIsGood()
    ensures GoodList(["host", "x-amz-date"])
  {
    hide Less, ToLower;
    FirstDifferenceDecides("", 'h', "ost", 'x', "-amz-date");
    assert "host" == "" + ['h'] + "ost" && "x-amz-date" == "" + ['x'] + "-amz-date";
    AlreadyLower("host");
    AlreadyLower("x-amz-date");
    assert |"authorization"| == 13;
    assert ["host", "x-amz-date"][0] == "host";
  }

  lemma {:induction false} AlreadyLower(s: string)
    requires forall i :: 0 <= i < |s| ==> !('A' <= s[i] <= 'Z')
    ensures ToLower(s) == s
  {
  }

  // ----- header names

  /** A token character of section 5.6.2 of RFC 9110. */
  predicate TokenChar(c: char) {
    || 'a' <= c <= 'z' || 'A' <= c <= 'Z' || '0' <= c <= '9'
    || c == '!' || c == '#' || c == '$' || c == '%' || c == '&' || c == '\'' || c == '*' || c == '+'
    || c == '-' || c == '.' || c == '^' || c == '_' || c == '`' || c == '|' || c == '~'
  }

  predicate Token(s: string) {
    s != "" && forall i :: 0 <= i < |s| ==> TokenChar(s[i])
  }

  function UpperChar(c: char): (r: char) {
    if 'a' <= c <= 'z' then (c as int - 32) as char else c
  }

  /** http.CanonicalHeaderKey: words start upper-case; a name that is no token is left alone. */
  function CanonicalKey(name: string): (r: string) {
    if !Token(name) then name
    else
      seq(|name|, i requires 0 <= i < |name| =>
        if i == 0 || name[i - 1] == '-' then UpperChar(name[i]) else LowerChar(name[i]))
  }

  lemma {:induction false} CaseKeepsToken(c: char)
    requires TokenChar(c)
    ensures TokenChar(UpperChar(c)) && TokenChar(LowerChar(c))
  {
  }

  lemma {:induction false} CanonicalKeyOfToken(name: string)
    ensures Token(CanonicalKey(name)) <==> Token(name)
  {
    hide TokenChar, UpperChar, LowerChar;
    if Token(name) {
      forall i | 0 <= i < |name| ensures TokenChar(CanonicalKey(name)[i]) {
        CaseKeepsToken(name[i]);
      }
    }
  }

  /** The canonical key keeps the name up to case. */
  lemma {:induction false} CanonicalKeyFolds(name: string)
    ensures ToLower(CanonicalKey(name)) == ToLower(name)
  {
  }

  predicate IsSmall(c: char) { 'a' <= c <= 'z' }

  predicate IsCapital(c: char) { 'A' <= c <= 'Z' }

  /** The canonical key of a token: no small letter starts a word, no capital stands inside one. */
  lemma {:induction false} CanonicalKeyShape(name: string)
    ensures !Token(name) ==> CanonicalKey(name) == name
    ensures Token(name) ==>
              && |CanonicalKey(name)| == |name|
              && forall i :: 0 <= i < |name| ==>
                   if i == 0 || name[i - 1] == '-' then !IsSmall(CanonicalKey(name)[i])
                   else !IsCapital(CanonicalKey(name)[i])
  {
    hide TokenChar;
  }

  // ----- the request

  datatype Request = Request(
    verb: string,
    uri: string,
    query: seq<Query.Pair>,
    host: string,
    urlHost: string,
    contentLength: int,
    header: map<string, seq<string>>)
  {
    /** What an HTTP server hands over: header names are tokens and nothing contains a line break. */
    predicate Parsed() {
      && '\n' !in verb && '\n' !in uri && '\n' !in host && '\n' !in urlHost
      && (forall k :: k in header ==> Token(k) && forall i :: 0 <= i < |header[k]| ==> '\n' !in header[k][i])
    }
  }

  function Decimal(n: nat): (s: string)
    ensures '\n' !in s
  {
    var d := ('0' as int + n % 10) as char;
    if n < 10 then [d] else Decimal(n / 10) + [d]
  }

  function HeaderValues(r: Request, name: string): (vs: seq<string>) {
    if name == "host" then [if r.host == "" then r.urlHost else r.host]
    else if name == "content-length" then
      var vs := if "Content-Length" in r.header then r.header["Content-Length"] else [];
      if vs == [] && r.contentLength > 0 then [Decimal(r.contentLength)] else vs
    else if CanonicalKey(name) in r.header then r.header[CanonicalKey(name)]
    else []
  }

  function Commas(vs: seq<string>): (s: string) {
    if vs == [] then ""
    else if |vs| == 1 then Whitespace.Collapse(vs[0])
    else Commas(vs[..|vs| - 1]) + "," + Whitespace.Collapse(vs[|vs| - 1])
  }

  /** A signed header's canonical value; None when the request does not carry the header. */
  function HeaderValue(r: Request, name: string): (v: Option<string>) {
    var vs := HeaderValues(r, name);
    if vs == [] then None else Some(Commas(vs))
  }

  method CanonicalHeaderValue(r: Request, name: string) returns (v: Option<string>)
    ensures v == HeaderValue(r, name)
  {
    var values := HeaderValues(r, name);
    if |values| == 0 {
      return None;
    }
    var b := "";
    for i := 0 to |values|
      invariant b == Commas(values[..i])
    {
      assert values[..i + 1][..i] == values[..i];
      if i > 0 {
        b := b + ",";
      }
      var c := Whitespace.CollapseWhitespace(values[i]);
      b := b + c;
    }
    assert values[..|values|] == values;
    return Some(b);
  }

  datatype Field = Field(name: string, value: string)

  function Lines(fs: seq<Field>): (t: string) {
    if fs == [] then "" else fs[0].name + ":" + fs[0].value + "\n" + Lines(fs[1..])
  }

  function Semicolons(names: seq<string>): (t: string) {
    if names == [] then "" else if |names| == 1 then names[0] else names[0] + ";" + Semicolons(names[1..])
  }

  function Names(fs: seq<Field>): (r: seq<string>) {
    seq(|fs|, i requires 0 <= i < |fs| => fs[i].name)
  }

  /** The canonical request of its parts. */
  function Assemble(verb: string, uri: string, query: string, fs: seq<Field>, hash: string): (t: string) {
    verb + "\n" + uri + "\n" + query + "\n" + Lines(fs) + "\n" + Semicolons(Names(fs)) + "\n" + hash
  }

  /** The signed fields of a request, None when one of them is missing. */
  function Fields(r: Request, names: seq<string>): (fs: Option<seq<Field>>)
    ensures fs.Some? ==> Names(fs.value) == names
    ensures fs.Some? ==> forall i :: 0 <= i < |names| ==> HeaderValue(r, names[i]) == Some(fs.value[i].value)
    ensures fs.None? ==> exists i :: 0 <= i < |names| && HeaderValue(r, names[i]).None?
  {
    if names == [] then Some([])
    else
      var front, n := Fields(r, names[..|names| - 1]), names[|names| - 1];
      var v := HeaderValue(r, n);
      if front.None? || v.None? then None
      else
        assert names == names[..|names| - 1] + [n];
        Some(front.value + [Field(n, v.value)])
  }

  ghost function CanonicalRequest(r: Request, names: seq<string>, drop: string, hash: string): (t: Option<string>) {
    var fs := Fields(r, names);
    if fs.None? then None else Some(Assemble(r.verb, r.uri, Query.CanonicalQuery(r.query, drop), fs.value, hash))
  }

  lemma {:induction false} LinesCons(f: Field, fs: seq<Field>)
    ensures Lines([f] + fs) == f.name + ":" + f.value + "\n" + Lines(fs)
  {
    assert ([f] + fs)[1..] == fs;
  }

  lemma {:induction false} LinesAppend(fs: seq<Field>, f: Field)
    ensures Lines(fs + [f]) == Lines(fs) + f.name + ":" + f.value + "\n"
  {
    hide Lines;
    LinesNone();
    if fs == [] {
      LinesCons(f, []);
      assert fs + [f] == [f] + [];
    } else {
      var rest := fs[1..];
      LinesAppend(rest, f);
      LinesCons(fs[0], rest);
      LinesCons(fs[0], rest + [f]);
      assert fs == [fs[0]] + rest && fs + [f] == [fs[0]] + (rest + [f]);
    }
  }

  method BuildCanonicalRequest(r: Request, names: seq<string>, drop: string, hash: string) returns (t: Option<string>)
    ensures t == CanonicalRequest(r, names, drop, hash)
  {
    hide Lines, Query.CanonicalQuery, HeaderValue, Semicolons;
    var q := Query.EncodeQuery(r.query, drop);
    var b := r.verb + "\n" + r.uri + "\n" + q + "\n";
    ghost var start, fs: seq<Field> := b, [];
    LinesNone();
    for i := 0 to |names|
      invariant Fields(r, names[..i]) == Some(fs) && b == start + Lines(fs)
    {
      var v := CanonicalHeaderValue(r, names[i]);
      FieldsStep(r, names, i);
      if v.None? {
        return None;
      }
      LinesAppend(fs, Field(names[i], v.value));
      b := b + names[i] + ":" + v.value + "\n";
      fs := fs + [Field(names[i], v.value)];
    }
    assert names[..|names|] == names;
    b := b + "\n" + Semicolons(names) + "\n" + hash;
    return Some(b);
  }

  lemma {:induction false} LinesNone()
    ensures Lines([]) == ""
  {
  }

  lemma {:induction false} FieldsStep(r: Request, names: seq<string>, i: nat)
    requires i < |names|
    ensures var front, v := Fields(r, names[..i]), HeaderValue(r, names[i]);
            Fields(r, names[..i + 1]) ==
              if front.None? || v.None? then None else Some(front.value + [Field(names[i], v.value)])
    ensures Fields(r, names[..i]).None? || HeaderValue(r, names[i]).None? ==> Fields(r, names).None?
  {
    var short := names[..i + 1];
    assert short[..|short| - 1] == names[..i];
    if Fields(r, names).Some? {
      assert forall j :: 0 <= j <= i ==> HeaderValue(r, names[j]).Some?;
      assert forall j :: 0 <= j < i ==> names[..i][j] == names[j];
    }
  }

  // ----- unambiguity

  predicate FieldOk(f: Field) {
    Token(f.name) && '\n' !in f.value
  }

  predicate FieldsOk(fs: seq<Field>) {
    forall i :: 0 <= i < |fs| ==> FieldOk(fs[i])
  }

  lemma {:induction false} TokenIsPlain(s: string)
    requires Token(s)
    ensures '\n' !in s && ':' !in s && ';' !in s
  {
  }

  lemma {:induction false} LinesSplit(fs: seq<Field>, x: string)
    requires fs != []
    ensures Lines(fs) + "\n" + x == fs[0].name + ":" + (fs[0].value + "\n" + (Lines(fs[1..]) + "\n" + x))
  {
  }

  /** The header block ends at the first empty line, so it can be read back in one way only. */
  lemma {:induction false} LinesUnique(fs: seq<Field>, x: string, gs: seq<Field>, y: string)
    requires FieldsOk(fs) && FieldsOk(gs)
    requires Lines(fs) + "\n" + x == Lines(gs) + "\n" + y
    ensures fs == gs && x == y
  {
    hide Token, Lines;
    LinesStart(fs, x);
    LinesStart(gs, y);
    if fs == [] {
      assert x == ("\n" + x)[1..] && y == ("\n" + y)[1..];
    } else {
      var f, g := fs[0], gs[0];
      LinesSplit(fs, x);
      LinesSplit(gs, y);
      TokenIsPlain(f.name);
      TokenIsPlain(g.name);
      var u, v := Lines(fs[1..]) + "\n" + x, Lines(gs[1..]) + "\n" + y;
      CutIsUnique(f.name, f.value + "\n" + u, g.name, g.value + "\n" + v, ':');
      CutIsUnique(f.value, u, g.value, v, '\n');
      LinesUnique(fs[1..], x, gs[1..], y);
      assert fs == [f] + fs[1..] && gs == [g] + gs[1..];
    }
  }

  lemma {:induction false} LinesStart(fs: seq<Field>, x: string)
    requires FieldsOk(fs)
    ensures (Lines(fs) + "\n" + x)[0] == '\n' <==> fs == []
    ensures fs == [] ==> Lines(fs) + "\n" + x == "\n" + x
  {
    if fs != [] {
      assert FieldOk(fs[0]) && TokenChar(fs[0].name[0]);
      assert (Lines(fs) + "\n" + x)[0] == fs[0].name[0];
    }
  }

  /** Equal texts have equal parts. */
  lemma {:induction false} PartsAreUnambiguous(
    m: string, u: string, q: string, fs: seq<Field>, h: string,
    m': string, u': string, q': string, fs': seq<Field>, h': string)
    requires '\n' !in m && '\n' !in u && '\n' !in q && FieldsOk(fs)
    requires '\n' !in m' && '\n' !in u' && '\n' !in q' && FieldsOk(fs')
    requires Assemble(m, u, q, fs, h) == Assemble(m', u', q', fs', h')
    ensures m == m' && u == u' && q == q' && fs == fs' && h == h'
  {
    hide Lines, Semicolons;
    var x, x' := Semicolons(Names(fs)) + "\n" + h, Semicolons(Names(fs')) + "\n" + h';
    var d, d' := Lines(fs) + "\n" + x, Lines(fs') + "\n" + x';
    var c, c' := q + "\n" + d, q' + "\n" + d';
    var b, b' := u + "\n" + c, u' + "\n" + c';
    assert Assemble(m, u, q, fs, h) == m + "\n" + b;
    assert Assemble(m', u', q', fs', h') == m' + "\n" + b';
    CutIsUnique(m, b, m', b', '\n');
    CutIsUnique(u, c, u', c', '\n');
    CutIsUnique(q, d, q', d', '\n');
    LinesUnique(fs, x, fs', x');
    var k := |Semicolons(Names(fs))| + 1;
    assert h == x[k..] && h' == x'[k..];
  }

  lemma {:induction false} CommasOneLine(vs: seq<string>)
    requires forall i :: 0 <= i < |vs| ==> '\n' !in vs[i]
    ensures '\n' !in Commas(vs)
  {
    if vs != [] {
      Whitespace.CollapseBytes(vs[0], '\n');
      Whitespace.CollapseBytes(vs[|vs| - 1], '\n');
      CommasOneLine(vs[..|vs| - 1]);
    }
  }

  /** A header that a parsed request carries has a token for a name and a one-line value. */
  lemma {:induction false} ParsedField(r: Request, name: string)
    requires r.Parsed() && HeaderValue(r, name).Some?
    ensures FieldOk(Field(name, HeaderValue(r, name).value))
  {
    CommasOneLine(HeaderValues(r, name));
    if name != "host" && name != "content-length" {
      CanonicalKeyOfToken(name);
    }
  }

  lemma {:induction false} ParsedFields(r: Request, names: seq<string>)
    requires r.Parsed() && Fields(r, names).Some?
    ensures FieldsOk(Fields(r, names).value)
  {
    var fs := Fields(r, names).value;
    forall i | 0 <= i < |fs| ensures FieldOk(fs[i]) {
      assert Names(fs)[i] == names[i];
      ParsedField(r, names[i]);
    }
  }

  /**
   For any two requests as a server parses them: if their canonical requests are equal, so
   are the method, the path, the canonical query, the signed-header list, the canonical
   value of every signed header, and the payload hash.
   */
  lemma {:induction false} CanonicalRequestIsUnambiguous(
    r: Request, names: seq<string>, drop: string, hash: string,
    r': Request, names': seq<string>, drop': string, hash': string)
    requires r.Parsed() && r'.Parsed()
    requires CanonicalRequest(r, names, drop, hash).Some?
    requires CanonicalRequest(r, names, drop, hash) == CanonicalRequest(r', names', drop', hash')
    ensures r.verb == r'.verb && r.uri == r'.uri && hash == hash' && names == names'
    ensures Query.CanonicalQuery(r.query, drop) == Query.CanonicalQuery(r'.query, drop')
    ensures forall i :: 0 <= i < |names| ==> HeaderValue(r, names[i]) == HeaderValue(r', names[i])
  {
    hide Query.CanonicalQuery, HeaderValue, Assemble;
    ParsedFields(r, names);
    ParsedFields(r', names');
    Query.CanonicalQueryText(r.query, drop);
    Query.CanonicalQueryText(r'.query, drop');
    PartsAreUnambiguous(
      r.verb, r.uri, Query.CanonicalQuery(r.query, drop), Fields(r, names).value, hash,
      r'.verb, r'.uri, Query.CanonicalQuery(r'.query, drop'), Fields(r', names').value, hash');
  }

  /** The same, down to the decoded query parameters. */
  lemma {:induction false} SameTextSameParameters(
    r: Request, names: seq<string>, drop: string, hash: string, r': Request, names': seq<string>, hash': string)
    requires r.Parsed() && r'.Parsed() && Query.BytePairs(r.query) && Query.BytePairs(r'.query)
    requires CanonicalRequest(r, names, drop, hash).Some?
    requires CanonicalRequest(r, names, drop, hash) == CanonicalRequest(r', names', drop, hash')
    ensures multiset(Query.Kept(r.query, drop)) == multiset(Query.Kept(r'.query, drop))
  {
    hide Query.CanonicalQuery, Query.Kept, HeaderValue, Assemble;
    CanonicalRequestIsUnambiguous(r, names, drop, hash, r', names', drop, hash');
    Query.CanonicalQueryEqualIff(r.query, r'.query, drop);
  }

  // ----- what the canonical request is

  /** The host a request names: its Host header, or the host of its URL. */
  function EffectiveHost(r: Request): (h: string) {
    if r.host != "" then r.host else r.urlHost
  }

  /** The values stored under a header, whatever the case of its name. */
  function Stored(r: Request, name: string): (vs: seq<string>) {
    if CanonicalKey(name) in r.header then r.header[CanonicalKey(name)] else []
  }

  function Digit(c: char): (d: int) {
    c as int - '0' as int
  }

  /** The number a text of digits denotes. */
  function ReadDecimal(s: string): (n: int) {
    if s == "" then 0 else 10 * ReadDecimal(s[..|s| - 1]) + Digit(s[|s| - 1])
  }

  lemma {:induction false} DecimalReads(n: nat)
    ensures ReadDecimal(Decimal(n)) == n
    ensures Decimal(n) != "" && (Decimal(n)[0] == '0' ==> n == 0)
    ensures forall i :: 0 <= i < |Decimal(n)| ==> '0' <= Decimal(n)[i] <= '9'
  {
    if n >= 10 {
      DecimalReads(n / 10);
      var s := Decimal(n);
      assert s[..|s| - 1] == Decimal(n / 10);
    } else {
      assert Decimal(n)[..0] == "";
    }
  }

  lemma {:induction false} ContentLengthKey()
    ensures CanonicalKey("content-length") == "Content-Length"
  {
    var name := "content-length";
    assert Token(name);
    var k := CanonicalKey(name);
    assert |k| == 14;
    assert k[0] == 'C' && k[1] == 'o' && k[2] == 'n' && k[3] == 't' && k[4] == 'e' && k[5] == 'n' && k[6] == 't';
    assert k[7] == '-' && k[8] == 'L' && k[9] == 'e' && k[10] == 'n' && k[11] == 'g' && k[12] == 't' && k[13] == 'h';
  }

  /**
   The canonical value of a header: the collapsed host for host; the number in the request for a content length that is
   in no header; otherwise the collapsed stored values with commas between them, and nothing when none is stored.
   */
  lemma {:induction false} HeaderValueMeans(r: Request, name: string, vs: seq<string>, v: string)
    ensures HeaderValue(r, "host") == Some(Whitespace.Collapse(EffectiveHost(r)))
    ensures name != "host" && Stored(r, name) == [] ==>
              HeaderValue(r, name) ==
              (if name == "content-length" && r.contentLength > 0
               then Some(Whitespace.Collapse(Decimal(r.contentLength))) else None)
    ensures name != "host" && Stored(r, name) == [v] ==> HeaderValue(r, name) == Some(Whitespace.Collapse(v))
    ensures name != "host" && vs != [] && Stored(r, name) == vs + [v] ==>
              HeaderValue(r, name) == Some(Commas(vs) + "," + Whitespace.Collapse(v))
  {
    hide CanonicalKey, Whitespace.Collapse;
    ContentLengthKey();
    assert vs != [] ==> (vs + [v])[..|vs|] == vs;
  }

  /** Equal canonical requests that sign the host name the same host, up to white space. */
  lemma {:induction false} SameHost(
    r: Request, names: seq<string>, drop: string, hash: string,
    r': Request, names': seq<string>, drop': string, hash': string)
    requires r.Parsed() && r'.Parsed() && "host" in names
    requires CanonicalRequest(r, names, drop, hash).Some?
    requires CanonicalRequest(r, names, drop, hash) == CanonicalRequest(r', names', drop', hash')
    ensures Whitespace.Words(TrimSpace(EffectiveHost(r))) == Whitespace.Words(TrimSpace(EffectiveHost(r')))
  {
    hide CanonicalRequest, HeaderValue, EffectiveHost;
    CanonicalRequestIsUnambiguous(r, names, drop, hash, r', names', drop', hash');
    HeaderValueMeans(r, "host", [], "");
    HeaderValueMeans(r', "host", [], "");
    Whitespace.CollapseEqualIff(EffectiveHost(r), EffectiveHost(r'));
  }

  /** Equal canonical requests have the same words in every signed header that is stored once. */
  lemma {:induction false} SameWords(
    r: Request, names: seq<string>, drop: string, hash: string,
    r': Request, names': seq<string>, drop': string, hash': string, name: string, v: string, v': string)
    requires r.Parsed() && r'.Parsed() && name in names && name != "host"
    requires Stored(r, name) == [v] && Stored(r', name) == [v']
    requires CanonicalRequest(r, names, drop, hash).Some?
    requires CanonicalRequest(r, names, drop, hash) == CanonicalRequest(r', names', drop', hash')
    ensures Whitespace.Words(TrimSpace(v)) == Whitespace.Words(TrimSpace(v'))
  {
    hide CanonicalRequest, HeaderValue, CanonicalKey;
    CanonicalRequestIsUnambiguous(r, names, drop, hash, r', names', drop', hash');
    HeaderValueMeans(r, name, [], v);
    HeaderValueMeans(r', name, [], v');
    Whitespace.CollapseEqualIff(v, v');
  }

  function HeaderLines(fs: seq<Field>): (ls: seq<string>) {
    seq(|fs|, i requires 0 <= i < |fs| => fs[i].name + ":" + fs[i].value)
  }

  lemma {:induction false} LinesParts(fs: seq<Field>, rest: string)
    requires FieldsOk(fs)
    ensures Split(Lines(fs) + rest, '\n') == HeaderLines(fs) + Split(rest, '\n')
  {
    hide Split, Token, Lines;
    LinesNone();
    if fs == [] {
      assert Lines(fs) + rest == rest && HeaderLines(fs) == [];
    } else {
      var f, gs := fs[0], fs[1..];
      assert fs == [f] + gs;
      LinesCons(f, gs);
      TokenIsPlain(f.name);
      LinesParts(gs, rest);
      var line := f.name + ":" + f.value;
      assert Lines(fs) + rest == line + ['\n'] + (Lines(gs) + rest);
      SplitFirst(line, Lines(gs) + rest, '\n');
      assert HeaderLines(fs) == [line] + HeaderLines(gs);
    }
  }

  lemma {:induction false} SemicolonsParts(names: seq<string>)
    requires names != [] && forall i :: 0 <= i < |names| ==> ';' !in names[i]
    ensures Split(Semicolons(names), ';') == names
  {
    hide Split;
    if |names| == 1 {
      SplitPlain(names[0], ';');
    } else {
      SemicolonsParts(names[1..]);
      assert Semicolons(names) == names[0] + [';'] + Semicolons(names[1..]);
      SplitFirst(names[0], Semicolons(names[1..]), ';');
      assert names == [names[0]] + names[1..];
    }
  }

  lemma {:induction false} SemicolonsOneLine(names: seq<string>)
    requires forall i :: 0 <= i < |names| ==> '\n' !in names[i]
    ensures '\n' !in Semicolons(names)
  {
    if |names| > 1 {
      SemicolonsOneLine(names[1..]);
    }
  }

  /**
   The canonical request line by line: method, path, query, one line per signed header in the order of the list, an
   empty line, the list with semicolons between its names, and the payload hash.
   */
  lemma {:induction false} CanonicalRequestLines(
    r: Request, names: seq<string>, drop: string, hash: string)
    requires r.Parsed() && '\n' !in hash && CanonicalRequest(r, names, drop, hash).Some?
    ensures Fields(r, names).Some?
    ensures var fs := Fields(r, names).value;
            && Split(CanonicalRequest(r, names, drop, hash).value, '\n') ==
               [r.verb, r.uri, Query.CanonicalQuery(r.query, drop)] + HeaderLines(fs) + ["", Semicolons(names), hash]
            && (names != [] ==> Split(Semicolons(names), ';') == names)
  {
    hide Query.CanonicalQuery, HeaderValue, Lines, Semicolons, Split, Token, Assemble, HeaderLines;
    var fs := Fields(r, names).value;
    ParsedFields(r, names);
    Query.CanonicalQueryText(r.query, drop);
    NamesArePlain(fs);
    AssembleLines(r.verb, r.uri, Query.CanonicalQuery(r.query, drop), fs, hash);
    if names != [] {
      SemicolonsParts(names);
    }
  }

  lemma {:induction false} AssembleLines(m: string, u: string, q: string, fs: seq<Field>, h: string)
    requires '\n' !in m && '\n' !in u && '\n' !in q && '\n' !in h && FieldsOk(fs)
    ensures Split(Assemble(m, u, q, fs, h), '\n') ==
            [m, u, q] + HeaderLines(fs) + ["", Semicolons(Names(fs)), h]
  {
    hide Lines, Semicolons, Split, Token, HeaderLines;
    NamesArePlain(fs);
    SemicolonsOneLine(Names(fs));
    var names := Semicolons(Names(fs));
    var d := names + ['\n'] + h;
    var e := "" + ['\n'] + d;
    var c := Lines(fs) + e;
    var b := q + ['\n'] + c;
    var a := u + ['\n'] + b;
    AssembleGroups(m, u, q, Lines(fs), names, h);
    SplitFirst(m, a, '\n');
    SplitFirst(u, b, '\n');
    SplitFirst(q, c, '\n');
    LinesParts(fs, e);
    SplitFirst("", d, '\n');
    SplitFirst(names, h, '\n');
    SplitPlain(h, '\n');
    assert [""] + ([names] + [h]) == ["", names, h];
    assert [m] + ([u] + ([q] + (HeaderLines(fs) + ["", names, h]))) == [m, u, q] + HeaderLines(fs) + ["", names, h];
  }

  lemma {:induction false} AssembleGroups(m: string, u: string, q: string, lines: string, names: string, h: string)
    ensures m + "\n" + u + "\n" + q + "\n" + lines + "\n" + names + "\n" + h ==
            m + ['\n'] + (u + ['\n'] + (q + ['\n'] + (lines + ("" + ['\n'] + (names + ['\n'] + h)))))
  {
    var d := names + ['\n'] + h;
    var c := lines + ("" + ['\n'] + d);
    assert lines + "\n" + names + "\n" + h == c;
    var b := q + ['\n'] + c;
    assert q + "\n" + lines + "\n" + names + "\n" + h == b;
    var a := u + ['\n'] + b;
    assert u + "\n" + q + "\n" + lines + "\n" + names + "\n" + h == a;
  }

  lemma {:induction false} NamesArePlain(fs: seq<Field>)
    requires FieldsOk(fs)
    ensures forall i :: 0 <= i < |Names(fs)| ==> '\n' !in Names(fs)[i] && ';' !in Names(fs)[i]
  {
    hide Token;
    forall i | 0 <= i < |fs| ensures '\n' !in fs[i].name && ';' !in fs[i].name {
      TokenIsPlain(fs[i].name);
    }
  }
}

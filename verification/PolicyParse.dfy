/**
 Parsing and validating policy documents (policy/dialect.go, policy/policy.go), from the decoded JSON on:
 the structural rules and caps, the restriction of every resource to the bucket, and the check of the actions
 against those the gateway ever authorizes, which runs last and can be left out.
 */
module PolicyParse {
  import opened Text
  import opened Ordering
  import Glob
  import Policy

  const MAX_POLICY_BYTES := 20 * 1024
  const MAX_PRINCIPAL_USERS := 100
  const MAX_STATEMENTS := 20
  const MAX_ACTIONS := 30
  const MAX_RESOURCES := 10
  const MAX_PATTERN_LEN := 128
  const MAX_CONDITION_VALUES := 50

  /** A document as JSON decoding leaves it, in the default dialect. */
  datatype RawDocument = RawDocument(version: string, statements: Policy.Document)

  /** An action pattern that matches no action, and the statement it stands in. */
  datatype Unknown = Unknown(statement: int, action: string)

  datatype Result = Ok(document: Policy.Document) | Malformed | UnknownActions(errors: seq<Unknown>)

  // ----- the structural rules

  /** The length in bytes of a text in UTF-8. */
  function ByteLength(s: string): (n: nat) {
    if s == "" then 0
    else
      var c := s[|s| - 1] as int;
      ByteLength(s[..|s| - 1]) + (if c < 0x80 then 1 else if c < 0x800 then 2 else if c < 0x10000 then 3 else 4)
  }

  lemma {:induction false} ByteLengthIsUtf8(s: string)
    ensures ByteLength(s) == |Utf8Text(s)|
  {
    if s != "" {
      ByteLengthIsUtf8(s[..|s| - 1]);
    }
  }

  predicate LowerOrDigit(c: char) {
    'a' <= c <= 'z' || '0' <= c <= '9'
  }

  /** ^[a-z0-9][a-z0-9_-]+$ */
  predicate PrincipalPart(s: string) {
    |s| >= 2 && LowerOrDigit(s[0]) && forall i :: 1 <= i < |s| ==> LowerOrDigit(s[i]) || s[i] == '_' || s[i] == '-'
  }

  /** One user, or all users of one tenant. */
  predicate PrincipalEntry(s: string) {
    exists i :: 0 <= i < |s| && s[i] == '/' && PrincipalPart(s[..i]) && (s[i + 1..] == "*" || PrincipalPart(s[i + 1..]))
  }

  predicate PrincipalOk(p: Option<Policy.Principal>) {
    p.Some? ==>
      && |p.value.users| <= MAX_PRINCIPAL_USERS
      && forall i :: 0 <= i < |p.value.users| ==> PrincipalEntry(p.value.users[i])
  }

  predicate ActionOk(a: string) {
    "s3:" <= ToLower(a) && ByteLength(a) <= MAX_PATTERN_LEN
  }

  predicate ActionsOk(actions: seq<string>) {
    0 < |actions| <= MAX_ACTIONS && forall i :: 0 <= i < |actions| ==> ActionOk(actions[i])
  }

  predicate ResourcesOk(resources: seq<string>) {
    0 < |resources| <= MAX_RESOURCES && forall i :: 0 <= i < |resources| ==> ByteLength(resources[i]) <= MAX_PATTERN_LEN
  }

  predicate ConditionOk(c: Option<Policy.Condition>) {
    c.Some? ==>
      && (c.value.ip != [] || c.value.notIp != [])
      && |c.value.ip| <= MAX_CONDITION_VALUES && |c.value.notIp| <= MAX_CONDITION_VALUES
      && !c.value.invalid
  }

  predicate StatementOk(st: Policy.Statement) {
    && Policy.ValidStatement(st)
    && PrincipalOk(st.principal) && PrincipalOk(st.notPrincipal)
    && ActionsOk(st.action)
    && ResourcesOk(st.resource)
    && ConditionOk(st.condition)
  }

  predicate VersionOk(version: string) {
    version == "" || version == "2012-10-17" || version == "2008-10-17"
  }

  /** No two statements share a name. */
  predicate SidsDistinct(p: Policy.Document) {
    forall i, j :: 0 <= i < j < |p| && p[i].sid != "" ==> p[i].sid != p[j].sid
  }

  predicate WellFormed(d: RawDocument) {
    && VersionOk(d.version)
    && 0 < |d.statements| <= MAX_STATEMENTS
    && SidsDistinct(d.statements)
    && forall i :: 0 <= i < |d.statements| ==> StatementOk(d.statements[i])
  }

  /** The rules for one statement, with the caps in numbers. */
  ghost predicate MeetsRules(st: Policy.Statement) {
    && st.effect in {"Allow", "Deny"}
    && (st.principal.None? <==> st.notPrincipal.Some?)
    && (st.notPrincipal.Some? ==> st.effect == "Deny" && !st.notPrincipal.value.all)
    && (st.principal.Some? ==> NamesAtMost(st.principal.value, 100))
    && (st.notPrincipal.Some? ==> NamesAtMost(st.notPrincipal.value, 100))
    && 1 <= |st.action| <= 30 && (forall a :: a in st.action ==> "s3:" <= ToLower(a) && |Utf8Text(a)| <= 128)
    && 1 <= |st.resource| <= 10 && (forall r :: r in st.resource ==> |Utf8Text(r)| <= 128)
    && (st.condition.Some? ==>
          && !st.condition.value.invalid && |st.condition.value.ip| <= 50 && |st.condition.value.notIp| <= 50
          && |st.condition.value.ip| + |st.condition.value.notIp| > 0)
  }

  predicate NamesAtMost(p: Policy.Principal, n: nat) {
    |p.users| <= n && forall u :: u in p.users ==> PrincipalEntry(u)
  }

  lemma {:induction false} PrincipalOkIff(p: Policy.Principal)
    ensures PrincipalOk(Some(p)) <==> NamesAtMost(p, 100)
  {
    hide PrincipalEntry;
    assert forall i :: 0 <= i < |p.users| ==> p.users[i] in p.users;
  }

  lemma {:induction false} ActionsOkIff(actions: seq<string>)
    ensures ActionsOk(actions) <==>
            1 <= |actions| <= 30 && forall a :: a in actions ==> "s3:" <= ToLower(a) && |Utf8Text(a)| <= 128
  {
    hide ByteLength, Utf8Text, ToLower;
    forall a ensures ActionOk(a) <==> "s3:" <= ToLower(a) && |Utf8Text(a)| <= 128 {
      ByteLengthIsUtf8(a);
    }
    assert forall i :: 0 <= i < |actions| ==> actions[i] in actions;
  }

  lemma {:induction false} ResourcesOkIff(resources: seq<string>)
    ensures ResourcesOk(resources) <==>
            1 <= |resources| <= 10 && forall r :: r in resources ==> |Utf8Text(r)| <= 128
  {
    hide ByteLength, Utf8Text;
    forall r ensures ByteLength(r) == |Utf8Text(r)| {
      ByteLengthIsUtf8(r);
    }
    assert forall i :: 0 <= i < |resources| ==> resources[i] in resources;
  }

  lemma {:induction false} StatementOkIff(st: Policy.Statement)
    ensures StatementOk(st) <==> MeetsRules(st)
  {
    hide ActionsOk, ResourcesOk, PrincipalOk, NamesAtMost, Utf8Text, ToLower;
    ActionsOkIff(st.action);
    ResourcesOkIff(st.resource);
    NoPrincipalIsOk();
    if st.principal.Some? {
      PrincipalOkIff(st.principal.value);
    }
    if st.notPrincipal.Some? {
      PrincipalOkIff(st.notPrincipal.value);
    }
  }

  lemma {:induction false} NoPrincipalIsOk()
    ensures PrincipalOk(None)
  {
  }

  /** What a valid document is, rule by rule; the caps bound the cost of evaluating it. */
  lemma {:induction false} WellFormedIff(d: RawDocument)
    ensures WellFormed(d) <==>
            && d.version in {"", "2008-10-17", "2012-10-17"}
            && 1 <= |d.statements| <= 20
            && (forall i, j :: 0 <= i < j < |d.statements| && d.statements[i].sid == d.statements[j].sid ==>
                  d.statements[i].sid == "")
            && forall st :: st in d.statements ==> MeetsRules(st)
  {
    hide StatementOk, MeetsRules;
    forall st ensures StatementOk(st) <==> MeetsRules(st) {
      StatementOkIff(st);
    }
    assert forall i :: 0 <= i < |d.statements| ==> d.statements[i] in d.statements;
  }

  method ValidatePrincipal(p: Option<Policy.Principal>) returns (ok: bool)
    ensures ok == PrincipalOk(p)
  {
    if p.None? {
      return true;
    }
    if |p.value.users| > MAX_PRINCIPAL_USERS {
      return false;
    }
    for i := 0 to |p.value.users|
      invariant forall j :: 0 <= j < i ==> PrincipalEntry(p.value.users[j])
    {
      if !PrincipalEntry(p.value.users[i]) {
        return false;
      }
    }
    return true;
  }

  method ValidateActions(actions: seq<string>) returns (ok: bool)
    ensures ok == ActionsOk(actions)
  {
    hide ActionOk;
    if |actions| == 0 || |actions| > MAX_ACTIONS {
      return false;
    }
    for i := 0 to |actions|
      invariant forall j :: 0 <= j < i ==> ActionOk(actions[j])
    {
      if !ActionOk(actions[i]) {
        return false;
      }
    }
    return true;
  }

  /** The checks on one statement, in the order of the source. */
  method ValidateStatement(st: Policy.Statement) returns (ok: bool)
    ensures ok == StatementOk(st)
  {
    hide PrincipalOk, ActionsOk, ByteLength;
    if st.effect != "Allow" && st.effect != "Deny" {
      return false;
    }
    if st.principal.None? == st.notPrincipal.None? {
      return false;
    }
    if st.notPrincipal.Some? && st.notPrincipal.value.all {
      return false;
    }
    if st.notPrincipal.Some? && st.effect != "Deny" {
      return false;
    }
    ok := ValidatePrincipal(st.principal);
    if !ok {
      return;
    }
    ok := ValidatePrincipal(st.notPrincipal);
    if !ok {
      return;
    }
    ok := ValidateActions(st.action);
    if !ok {
      return;
    }
    if |st.resource| == 0 || |st.resource| > MAX_RESOURCES {
      return false;
    }
    for i := 0 to |st.resource|
      invariant forall j :: 0 <= j < i ==> ByteLength(st.resource[j]) <= MAX_PATTERN_LEN
    {
      if ByteLength(st.resource[i]) > MAX_PATTERN_LEN {
        return false;
      }
    }
    return ConditionOk(st.condition);
  }

  method Validate(d: RawDocument) returns (ok: bool)
    ensures ok == WellFormed(d)
  {
    hide StatementOk;
    if !VersionOk(d.version) {
      return false;
    }
    var p := d.statements;
    if |p| == 0 || |p| > MAX_STATEMENTS {
      return false;
    }
    var sids: map<string, int> := map[];
    for i := 0 to |p|
      invariant forall s :: s in sids <==> s != "" && exists j :: 0 <= j < i && p[j].sid == s
      invariant SidsDistinct(p[..i])
      invariant forall j :: 0 <= j < i ==> StatementOk(p[j])
    {
      var st := p[i];
      if st.sid != "" {
        if st.sid in sids {
          return false;
        }
        sids := sids[st.sid := i];
      }
      ok := ValidateStatement(st);
      if !ok {
        return;
      }
    }
    assert p[..|p|] == p;
    return true;
  }

  // ----- the check of the actions

  /** Some action the gateway authorizes matches the pattern, whatever the case. */
  predicate Known(actions: seq<string>, pattern: string) {
    exists i :: 0 <= i < |actions| && Glob.Match(ToLower(pattern), ToLower(actions[i]))
  }

  method CheckActionPattern(actions: seq<string>, pattern: string) returns (known: bool)
    ensures known == Known(actions, pattern)
  {
    hide ToLower;
    for i := 0 to |actions|
      invariant forall j :: 0 <= j < i ==> !Glob.Match(ToLower(pattern), ToLower(actions[j]))
    {
      var hit, _ := Glob.MatchRunes(ToLower(pattern), ToLower(actions[i]));
      if hit {
        return true;
      }
    }
    return false;
  }

  /** The unknown patterns among the actions of one statement. */
  function UnknownAmong(actions: seq<string>, patterns: seq<string>, i: int): (errs: seq<Unknown>)
    ensures forall u :: u in errs <==> u.statement == i && u.action in patterns && !Known(actions, u.action)
  {
    if patterns == [] then []
    else
      var front, a := UnknownAmong(actions, patterns[..|patterns| - 1], i), patterns[|patterns| - 1];
      assert patterns == patterns[..|patterns| - 1] + [a];
      if Known(actions, a) then front else front + [Unknown(i, a)]
  }

  /** All unknown patterns, statement by statement; nothing without a checker. */
  function UnknownIn(check: Option<seq<string>>, lists: seq<seq<string>>): (errs: seq<Unknown>)
    ensures forall u :: u in errs <==>
              && check.Some? && 0 <= u.statement < |lists|
              && u.action in lists[u.statement] && !Known(check.value, u.action)
  {
    if check.None? || lists == [] then []
    else
      var n := |lists| - 1;
      UnknownIn(check, lists[..n]) + UnknownAmong(check.value, lists[n], n)
  }

  /** The inner loop: the actions of one statement. */
  method CheckStatement(actions: seq<string>, patterns: seq<string>, i: int) returns (errs: seq<Unknown>)
    ensures errs == UnknownAmong(actions, patterns, i)
  {
    hide Known;
    errs := [];
    for j := 0 to |patterns|
      invariant errs == UnknownAmong(actions, patterns[..j], i)
    {
      assert patterns[..j + 1][..j] == patterns[..j];
      var known := CheckActionPattern(actions, patterns[j]);
      if !known {
        errs := errs + [Unknown(i, patterns[j])];
      }
    }
    assert patterns[..|patterns|] == patterns;
  }

  method CheckActions(check: Option<seq<string>>, lists: seq<seq<string>>) returns (errs: seq<Unknown>)
    ensures errs == UnknownIn(check, lists)
  {
    hide Known, UnknownAmong;
    if check.None? {
      return [];
    }
    errs := [];
    for i := 0 to |lists|
      invariant errs == UnknownIn(check, lists[..i])
    {
      assert lists[..i + 1][..i] == lists[..i];
      var more := CheckStatement(check.value, lists[i], i);
      errs := errs + more;
    }
    assert lists[..|lists|] == lists;
  }

  // ----- parsing

  function Actions(p: Policy.Document): (lists: seq<seq<string>>) {
    seq(|p|, i requires 0 <= i < |p| => p[i].action)
  }

  function ParseOf(
    decode: string -> Option<RawDocument>, bucket: string, text: string, check: Option<seq<string>>): (r: Result)
  {
    var d := decode(text);
    if ByteLength(text) > MAX_POLICY_BYTES || d.None? then Malformed
    else if !WellFormed(d.value) || !Policy.RefersOnlyTo(d.value.statements, bucket) then Malformed
    else
      var errs := UnknownIn(check, Actions(d.value.statements));
      if errs == [] then Ok(d.value.statements) else UnknownActions(errs)
  }

  method Parse(decode: string -> Option<RawDocument>, bucket: string, text: string, check: Option<seq<string>>)
    returns (r: Result)
    ensures r == ParseOf(decode, bucket, text, check)
  {
    hide WellFormed, UnknownIn, Policy.RefersOnlyTo, ByteLength;
    if ByteLength(text) > MAX_POLICY_BYTES {
      return Malformed;
    }
    var d := decode(text);
    if d.None? {
      return Malformed;
    }
    var ok := Validate(d.value);
    if !ok {
      return Malformed;
    }
    ok := Policy.ValidateResourcesFor(d.value.statements, bucket);
    if !ok {
      return Malformed;
    }
    var errs := CheckActions(check, Actions(d.value.statements));
    if errs != [] {
      return UnknownActions(errs);
    }
    return Ok(d.value.statements);
  }

  /** A parsed document is fit for evaluation and speaks of its bucket only. */
  lemma {:induction false} ParsedIsValid(
    decode: string -> Option<RawDocument>, bucket: string, text: string, check: Option<seq<string>>)
    requires ParseOf(decode, bucket, text, check).Ok?
    ensures Policy.Validated(ParseOf(decode, bucket, text, check).document)
    ensures Policy.RefersOnlyTo(ParseOf(decode, bucket, text, check).document, bucket)
  {
    hide UnknownIn;
  }

  /** What parses: at most 20 kilobytes that decode to a well-formed document of resources within the bucket. */
  lemma {:induction false} ParsesIff(
    decode: string -> Option<RawDocument>, bucket: string, text: string, doc: Policy.Document)
    ensures ParseOf(decode, bucket, text, None) == Ok(doc) <==>
            && |Utf8Text(text)| <= 20480
            && decode(text).Some? && WellFormed(decode(text).value) && decode(text).value.statements == doc
            && forall st, r :: st in doc && r in st.resource ==> Policy.Within(r, bucket)
  {
    hide WellFormed, Policy.Within, ByteLength, Actions;
    ByteLengthIsUtf8(text);
    if forall st, r :: st in doc && r in st.resource ==> Policy.Within(r, bucket) {
      assert Policy.RefersOnlyTo(doc, bucket);
    }
  }

  /**
   The checker changes nothing but its own report: a text is malformed with it exactly when it is without it,
   and a text that fails only with unknown actions parses without it, to the document whose actions it named.
   */
  lemma {:induction false} CheckerOnlyReports(
    decode: string -> Option<RawDocument>, bucket: string, text: string, actions: seq<string>)
    ensures ParseOf(decode, bucket, text, Some(actions)).Malformed? <==> !ParseOf(decode, bucket, text, None).Ok?
    ensures ParseOf(decode, bucket, text, Some(actions)).Ok? ==>
              ParseOf(decode, bucket, text, None) == ParseOf(decode, bucket, text, Some(actions))
    ensures ParseOf(decode, bucket, text, Some(actions)).UnknownActions? ==>
              && ParseOf(decode, bucket, text, None).Ok?
              && ParseOf(decode, bucket, text, Some(actions)).errors ==
                 UnknownIn(Some(actions), Actions(ParseOf(decode, bucket, text, None).document))
  {
    hide WellFormed, Policy.RefersOnlyTo, ByteLength;
    var d := decode(text);
    if d.Some? {
      assert UnknownIn(None, Actions(d.value.statements)) == [];
    }
  }

  /**
   Why unknown actions may be a warning only: a statement with no other actions never applies to anything
   authorized.
   */
  lemma {:induction false} UnknownNeverApplies(
    p: Policy.Document, i: nat, actions: seq<string>, c: Policy.Caller, resource: string)
    requires i < |p| && Policy.Named(p[i]) && c.action in actions
    requires forall a :: a in p[i].action ==> Unknown(i, a) in UnknownIn(Some(actions), Actions(p))
    ensures !Policy.Applies(p[i], c, resource)
  {
    hide ToLower, UnknownIn, Glob.Match;
    var j :| 0 <= j < |actions| && actions[j] == c.action;
    forall k | 0 <= k < |p[i].action|
      ensures !Glob.Match(Policy.LowerAll(p[i].action)[k], ToLower(c.action))
    {
      assert p[i].action[k] in p[i].action;
      assert !Known(actions, p[i].action[k]);
      assert !Glob.Match(ToLower(p[i].action[k]), ToLower(actions[j]));
    }
  }

  lemma {:induction false} PartIsPlain(s: string)
    requires PrincipalPart(s)
    ensures s != "" && '/' !in s && s[|s| - 1] != '*' && s != "*"
  {
  }

  /** A valid entry names exactly one user, or exactly the users of one tenant. */
  lemma {:induction false} EntryIsExact(entry: string, tenant: string, user: string)
    requires PrincipalEntry(entry) && PrincipalPart(tenant) && PrincipalPart(user)
    ensures Policy.EntryNames(entry, tenant + "/" + user) <==> entry == tenant + "/" + user || entry == tenant + "/*"
  {
    hide PrincipalPart;
    var i :| 0 <= i < |entry| && entry[i] == '/' && PrincipalPart(entry[..i]) &&
             (entry[i + 1..] == "*" || PrincipalPart(entry[i + 1..]));
    var head, rest := entry[..i], entry[i + 1..];
    assert entry == head + ['/'] + rest;
    PartIsPlain(head);
    PartIsPlain(tenant);
    PartIsPlain(user);
    if rest == "*" {
      assert entry == head + "/*";
      Policy.TenantWildcardIsExact(head, tenant, user);
      if entry == tenant + ['/'] + user {
        CutIsUnique(head, rest, tenant, user, '/');
      }
      if entry == tenant + ['/'] + "*" {
        CutIsUnique(head, rest, tenant, "*", '/');
      }
    } else {
      PartIsPlain(rest);
      assert entry[|entry| - 1] == rest[|rest| - 1];
      assert !HasSuffix(entry, "/*") by {
        assert "/*"[1] == '*';
      }
      assert (tenant + "/*")[|tenant| + 1] == '*';
    }
  }

  /** The user is listed by name, or with all users of the tenant. */
  predicate Listed(entries: seq<string>, tenant: string, user: string) {
    tenant + "/" + user in entries || tenant + "/*" in entries
  }

  /** Whom a valid statement concerns: everyone or the listed, or everyone but the listed. */
  lemma {:induction false} StatementConcerns(st: Policy.Statement, tenant: string, user: string)
    requires StatementOk(st) && PrincipalPart(tenant) && PrincipalPart(user)
    ensures Policy.MatchPrincipal(st, tenant + "/" + user) <==>
            if st.principal.Some? then st.principal.value.all || Listed(st.principal.value.users, tenant, user)
            else !Listed(st.notPrincipal.value.users, tenant, user)
  {
    hide PrincipalPart, ActionsOk, ResourcesOk, Policy.EntryNames;
    var users := if st.principal.Some? then st.principal.value.users else st.notPrincipal.value.users;
    ListedIff(users, tenant, user);
  }

  lemma {:induction false} ListedIff(users: seq<string>, tenant: string, user: string)
    requires forall i :: 0 <= i < |users| ==> PrincipalEntry(users[i])
    requires PrincipalPart(tenant) && PrincipalPart(user)
    ensures Policy.MatchAnyPrincipal(users, tenant + "/" + user) <==> Listed(users, tenant, user)
  {
    hide PrincipalPart, PrincipalEntry, Policy.EntryNames;
    forall i | 0 <= i < |users|
      ensures Policy.EntryNames(users[i], tenant + "/" + user) <==>
              users[i] == tenant + "/" + user || users[i] == tenant + "/*"
    {
      EntryIsExact(users[i], tenant, user);
    }
  }

  // ----- user policies

  function UserActions(up: Policy.UserDocument): (lists: seq<seq<string>>) {
    seq(|up|, i requires 0 <= i < |up| => up[i].action)
  }

  predicate UserWellFormed(up: Policy.UserDocument) {
    && |up| <= MAX_STATEMENTS
    && forall i :: 0 <= i < |up| ==> (up[i].effect == "Allow" || up[i].effect == "Deny") && ActionsOk(up[i].action)
  }

  method ValidateUserPolicy(up: Policy.UserDocument, check: Option<seq<string>>) returns (ok: bool, errs: seq<Unknown>)
    ensures ok == UserWellFormed(up)
    ensures ok ==> errs == UnknownIn(check, UserActions(up))
  {
    hide ActionsOk;
    errs := [];
    if |up| > MAX_STATEMENTS {
      return false, [];
    }
    for i := 0 to |up|
      invariant forall j :: 0 <= j < i ==> up[j].effect == "Allow" || up[j].effect == "Deny"
      invariant forall j :: 0 <= j < i ==> ActionsOk(up[j].action)
    {
      if up[i].effect != "Allow" && up[i].effect != "Deny" {
        return false, [];
      }
      ok := ValidateActions(up[i].action);
      if !ok {
        return;
      }
    }
    errs := CheckActions(check, UserActions(up));
    return true, errs;
  }
}

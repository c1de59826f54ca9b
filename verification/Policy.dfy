/**
 The bucket-policy and user-policy evaluators (policy/policy.go): the plain
 deny-overrides evaluator, the pre-resolved evaluators used per object, the
 visibility gate, and the confinement of a policy to its own bucket.
 */
module Policy {
  import opened Text
  import Glob

  // ----- documents, in the normalized form that parsing produces

  datatype Principal = Principal(all: bool, users: seq<string>)

  /** Source addresses are opaque; a prefix is the set of addresses it contains. */
  type Addr = nat
  type Prefix = set<Addr>

  datatype Condition = Condition(ip: seq<Prefix>, notIp: seq<Prefix>, invalid: bool)

  datatype Context = Context(source: Option<Addr>)

  datatype Statement = Statement(
    sid: string,
    effect: string,
    principal: Option<Principal>,
    notPrincipal: Option<Principal>,
    action: seq<string>,
    resource: seq<string>,
    condition: Option<Condition>)

  type Document = seq<Statement>

  /** The request-constant part of a question: who asks to do what, from where. */
  datatype Caller = Caller(principal: string, action: string, context: Context)

  datatype Effect = NoEffect | Allow | Deny

  datatype Decision = Decision(effect: Effect, statement: int)

  // ----- statement validation

  /** A statement names somebody; evaluating one that does not dereferences nil. */
  predicate Named(st: Statement) {
    st.principal.Some? || st.notPrincipal.Some?
  }

  predicate AllNamed(p: Document) {
    forall i :: 0 <= i < |p| ==> Named(p[i])
  }

  predicate ValidStatement(st: Statement) {
    && (st.effect == "Allow" || st.effect == "Deny")
    && st.principal.Some? != st.notPrincipal.Some?
    && (st.notPrincipal.Some? ==> !st.notPrincipal.value.all && st.effect == "Deny")
  }

  predicate Validated(p: Document) {
    forall i :: 0 <= i < |p| ==> ValidStatement(p[i])
  }

  // ----- matching one statement

  predicate EntryNames(entry: string, principal: string) {
    entry == principal || (HasSuffix(entry, "/*") && entry[..|entry| - 1] <= principal)
  }

  predicate MatchAnyPrincipal(entries: seq<string>, principal: string) {
    exists i :: 0 <= i < |entries| && EntryNames(entries[i], principal)
  }

  predicate MatchPrincipal(st: Statement, principal: string)
    requires Named(st)
  {
    if st.principal.Some? then st.principal.value.all || MatchAnyPrincipal(st.principal.value.users, principal)
    else !MatchAnyPrincipal(st.notPrincipal.value.users, principal)
  }

  predicate AnyContains(prefixes: seq<Prefix>, a: Addr) {
    exists i :: 0 <= i < |prefixes| && a in prefixes[i]
  }

  predicate MatchCondition(st: Statement, rc: Context) {
    match st.condition
    case None => true
    case Some(c) =>
      if c.invalid then st.effect == "Deny"
      else
        && (c.ip == [] || (rc.source.Some? && AnyContains(c.ip, rc.source.value)))
        && !(c.notIp != [] && rc.source.Some? && AnyContains(c.notIp, rc.source.value))
  }

  /** The first pattern matching the value, -1 when none does. */
  function MatchIndex(patterns: seq<string>, value: string): (k: int)
    ensures -1 <= k < |patterns|
    ensures k >= 0 ==> Glob.Match(patterns[k], value)
    ensures forall j :: 0 <= j < (if k >= 0 then k else |patterns|) ==> !Glob.Match(patterns[j], value)
  {
    if patterns == [] then -1
    else if Glob.Match(patterns[0], value) then 0
    else
      var k := MatchIndex(patterns[1..], value);
      if k >= 0 then k + 1 else -1
  }

  method MatchIndexRunes(patterns: seq<string>, value: string) returns (k: int)
    ensures k == MatchIndex(patterns, value)
  {
    for i := 0 to |patterns|
      invariant forall j :: 0 <= j < i ==> !Glob.Match(patterns[j], value)
    {
      var hit, _ := Glob.MatchRunes(patterns[i], value);
      if hit {
        return i;
      }
    }
    return -1;
  }

  predicate MatchAny(patterns: seq<string>, value: string) {
    MatchIndex(patterns, value) >= 0
  }

  function LowerAll(patterns: seq<string>): (r: seq<string>) {
    seq(|patterns|, i requires 0 <= i < |patterns| => ToLower(patterns[i]))
  }

  /** The statement applies to the caller, whatever the resource. */
  predicate Selects(st: Statement, c: Caller)
    requires Named(st)
  {
    && MatchPrincipal(st, c.principal)
    && MatchCondition(st, c.context)
    && MatchAny(LowerAll(st.action), ToLower(c.action))
  }

  predicate Covers(st: Statement, resource: string) {
    MatchAny(st.resource, resource)
  }

  predicate Applies(st: Statement, c: Caller, resource: string)
    requires Named(st)
  {
    Selects(st, c) && Covers(st, resource)
  }

  /**
   When a condition holds. From a known address: it lies in some listed prefix, if any are listed, and in no excluded
   one. From an unknown address: no prefix is listed. A condition that could not be read holds for a Deny only.
   */
  lemma {:induction false} ConditionHoldsIff(st: Statement, ip: seq<Prefix>, notIp: seq<Prefix>, a: Addr)
    ensures var s := st.(condition := None);
            MatchCondition(s, Context(Some(a))) && MatchCondition(s, Context(None))
    ensures var s := st.(condition := Some(Condition(ip, notIp, false)));
            && (MatchCondition(s, Context(Some(a))) <==>
                (ip == [] || exists p :: p in ip && a in p) && forall p :: p in notIp ==> a !in p)
            && (MatchCondition(s, Context(None)) <==> ip == [])
    ensures var s := st.(condition := Some(Condition(ip, notIp, true)));
            forall rc :: MatchCondition(s, rc) <==> st.effect == "Deny"
  {
    assert AnyContains(ip, a) <==> exists p :: p in ip && a in p;
    assert AnyContains(notIp, a) <==> exists p :: p in notIp && a in p;
  }

  predicate SomeMatch(patterns: seq<string>, value: string) {
    exists i :: 0 <= i < |patterns| && Glob.Match(patterns[i], value)
  }

  lemma {:induction false} MatchAnyIff(patterns: seq<string>, value: string)
    ensures MatchAny(patterns, value) <==> SomeMatch(patterns, value)
  {
  }

  predicate SomeActionMatches(patterns: seq<string>, action: string) {
    exists i :: 0 <= i < |patterns| && Glob.Match(ToLower(patterns[i]), ToLower(action))
  }

  lemma {:induction false} ActionMatchesIff(patterns: seq<string>, action: string)
    ensures MatchAny(LowerAll(patterns), ToLower(action)) <==> SomeActionMatches(patterns, action)
  {
    hide MatchIndex, ToLower, Glob.Match;
    MatchAnyIff(LowerAll(patterns), ToLower(action));
    assert forall i :: 0 <= i < |patterns| ==> LowerAll(patterns)[i] == ToLower(patterns[i]);
  }

  /**
   When a statement applies: it names the principal, its condition holds, some action pattern matches the action in any
   case, and some resource pattern matches the resource as it stands.
   */
  lemma {:induction false} AppliesIff(st: Statement, c: Caller, resource: string)
    requires Named(st)
    ensures Applies(st, c, resource) <==>
            && (if st.principal.Some?
                then st.principal.value.all || exists e :: e in st.principal.value.users && EntryNames(e, c.principal)
                else forall e :: e in st.notPrincipal.value.users ==> !EntryNames(e, c.principal))
            && MatchCondition(st, c.context)
            && SomeActionMatches(st.action, c.action)
            && SomeMatch(st.resource, resource)
  {
    hide MatchIndex, ToLower, Glob.Match, EntryNames, MatchCondition;
    ActionMatchesIff(st.action, c.action);
    MatchAnyIff(st.resource, resource);
  }

  // ----- the plain evaluator

  /** The least statement among the first n that applies and is (or is not) a Deny; -1 when none. */
  function Least(p: Document, c: Caller, resource: string, deny: bool, n: nat): (i: int)
    requires n <= |p| && AllNamed(p)
    ensures -1 <= i < n
    ensures i >= 0 ==> (p[i].effect == "Deny") == deny && Applies(p[i], c, resource)
    ensures forall j :: 0 <= j < (if i >= 0 then i else n) ==>
              !((p[j].effect == "Deny") == deny && Applies(p[j], c, resource))
  {
    if n == 0 then -1
    else
      var i := Least(p, c, resource, deny, n - 1);
      if i >= 0 then i
      else if (p[n - 1].effect == "Deny") == deny && Applies(p[n - 1], c, resource) then n - 1
      else -1
  }

  /** Deny overrides: the first applicable Deny, else the first applicable other statement, else nothing. */
  function Decide(p: Document, c: Caller, resource: string): (d: Decision)
    requires AllNamed(p)
  {
    var deny := Least(p, c, resource, true, |p|);
    var allow := Least(p, c, resource, false, |p|);
    if deny >= 0 then Decision(Deny, deny)
    else if allow >= 0 then Decision(Allow, allow)
    else Decision(NoEffect, -1)
  }

  ghost predicate SomeApplies(p: Document, c: Caller, resource: string, effect: string)
    requires AllNamed(p)
  {
    exists i :: 0 <= i < |p| && p[i].effect == effect && Applies(p[i], c, resource)
  }

  /** What a decision means: a Deny applies; or none does and some other statement applies; or nothing applies. */
  lemma {:induction false} DecideMeans(p: Document, c: Caller, resource: string)
    requires AllNamed(p)
    ensures Decide(p, c, resource).effect == Deny <==> SomeApplies(p, c, resource, "Deny")
    ensures Decide(p, c, resource).effect == NoEffect <==> forall i :: 0 <= i < |p| ==> !Applies(p[i], c, resource)
    ensures var d := Decide(p, c, resource);
            if d.effect == NoEffect then d.statement == -1
            else
              && 0 <= d.statement < |p| && Applies(p[d.statement], c, resource)
              && (d.effect == Deny <==> p[d.statement].effect == "Deny")
              && forall i :: 0 <= i < d.statement && Applies(p[i], c, resource) ==>
                   d.effect == Deny && p[i].effect != "Deny"
  {
    hide Applies;
    var deny, other := Least(p, c, resource, true, |p|), Least(p, c, resource, false, |p|);
    assert deny >= 0 ==> Applies(p[deny], c, resource);
    assert other >= 0 ==> Applies(p[other], c, resource);
  }

  method DecideLoop(p: Document, c: Caller, resource: string) returns (d: Decision)
    requires AllNamed(p)
    ensures d == Decide(p, c, resource)
  {
    hide MatchIndex, ToLower, LowerAll;
    d := Decision(NoEffect, -1);
    for i := 0 to |p|
      invariant Least(p, c, resource, true, i) == -1
      invariant d == var a := Least(p, c, resource, false, i);
                     if a >= 0 then Decision(Allow, a) else Decision(NoEffect, -1)
    {
      var st := p[i];
      if !MatchPrincipal(st, c.principal) || !MatchCondition(st, c.context) {
        continue;
      }
      var hit := MatchIndexRunes(LowerAll(st.action), ToLower(c.action));
      if hit < 0 {
        continue;
      }
      hit := MatchIndexRunes(st.resource, resource);
      if hit < 0 {
        continue;
      }
      if st.effect == "Deny" {
        return Decision(Deny, i);
      }
      if d.effect.NoEffect? {
        d := Decision(Allow, i);
      }
    }
  }

  // ----- the pre-resolved evaluators

  datatype DenyEvaluator = DenyEvaluator(resources: seq<string>, statements: seq<int>)
  {
    predicate Parallel() { |resources| == |statements| }

    predicate AlwaysAllows() { resources == [] }

    predicate Denies(resource: string) { resources != [] && MatchAny(resources, resource) }

    function DenyingStatement(resource: string): (i: int)
      requires Parallel()
    {
      var k := MatchIndex(resources, resource);
      if k >= 0 then statements[k] else -1
    }
  }

  datatype AllowEvaluator = AllowEvaluator(resources: seq<string>)
  {
    predicate AlwaysDenies() { resources == [] }

    predicate Allows(resource: string) { resources != [] && MatchAny(resources, resource) }
  }

  predicate Gathers(st: Statement, c: Caller, effect: string)
    requires Named(st)
  {
    st.effect == effect && Selects(st, c)
  }

  /** The resource patterns of the first n statements with this effect that select the caller. */
  function Patterns(p: Document, c: Caller, effect: string, n: nat): (r: seq<string>)
    requires n <= |p| && AllNamed(p)
  {
    if n == 0 then []
    else Patterns(p, c, effect, n - 1) + (if Gathers(p[n - 1], c, effect) then p[n - 1].resource else [])
  }

  /** For each of those patterns, the statement it came from. */
  function Origins(p: Document, c: Caller, effect: string, n: nat): (r: seq<int>)
    requires n <= |p| && AllNamed(p)
    ensures |r| == |Patterns(p, c, effect, n)|
    ensures forall k :: 0 <= k < |r| ==> 0 <= r[k] < n
  {
    if n == 0 then []
    else
      Origins(p, c, effect, n - 1) +
      (if Gathers(p[n - 1], c, effect) then seq(|p[n - 1].resource|, _ => n - 1) else [])
  }

  function DenyEvaluatorOf(p: Document, c: Caller): (e: DenyEvaluator)
    requires AllNamed(p)
    ensures e.Parallel()
  {
    DenyEvaluator(Patterns(p, c, "Deny", |p|), Origins(p, c, "Deny", |p|))
  }

  function AllowEvaluatorOf(p: Document, c: Caller): (e: AllowEvaluator)
    requires AllNamed(p)
  {
    AllowEvaluator(Patterns(p, c, "Allow", |p|))
  }

  method GathersNow(st: Statement, c: Caller, effect: string) returns (b: bool)
    requires Named(st)
    ensures b == Gathers(st, c, effect)
  {
    if st.effect != effect || !MatchPrincipal(st, c.principal) || !MatchCondition(st, c.context) {
      return false;
    }
    var k := MatchIndexRunes(LowerAll(st.action), ToLower(c.action));
    return k >= 0;
  }

  /** Two passes as in the source: one to size the slices and leave early, one to fill them. */
  method DenyEvaluatorFor(p: Document, c: Caller) returns (e: DenyEvaluator)
    requires AllNamed(p)
    ensures e == DenyEvaluatorOf(p, c)
  {
    var n := 0;
    for i := 0 to |p|
      invariant n == |Patterns(p, c, "Deny", i)|
    {
      var matched := GathersNow(p[i], c, "Deny");
      if matched {
        n := n + |p[i].resource|;
      }
    }
    if n == 0 {
      return DenyEvaluator([], []);
    }
    var resources: seq<string>, statements: seq<int> := [], [];
    for i := 0 to |p|
      invariant resources == Patterns(p, c, "Deny", i)
      invariant statements == Origins(p, c, "Deny", i)
    {
      var matched := GathersNow(p[i], c, "Deny");
      if !matched {
        continue;
      }
      resources := resources + p[i].resource;
      var before := statements;
      for j := 0 to |p[i].resource|
        invariant statements == before + seq(j, _ => i)
      {
        statements := statements + [i];
      }
    }
    return DenyEvaluator(resources, statements);
  }

  method AllowEvaluatorFor(p: Document, c: Caller) returns (e: AllowEvaluator)
    requires AllNamed(p)
    ensures e == AllowEvaluatorOf(p, c)
  {
    var resources: seq<string> := [];
    for i := 0 to |p|
      invariant resources == Patterns(p, c, "Allow", i)
    {
      var matched := GathersNow(p[i], c, "Allow");
      if matched {
        resources := resources + p[i].resource;
      }
    }
    return AllowEvaluator(resources);
  }

  lemma {:induction false} MatchIndexOfConcat(a: seq<string>, b: seq<string>, value: string)
    ensures MatchIndex(a + b, value) ==
            if MatchIndex(a, value) >= 0 then MatchIndex(a, value)
            else if MatchIndex(b, value) >= 0 then |a| + MatchIndex(b, value)
            else -1
  {
    var k := MatchIndex(a + b, value);
    if k >= 0 {
      assert Glob.Match((a + b)[k], value);
    }
    if MatchIndex(a, value) >= 0 {
      assert (a + b)[MatchIndex(a, value)] == a[MatchIndex(a, value)];
    } else if MatchIndex(b, value) >= 0 {
      assert (a + b)[|a| + MatchIndex(b, value)] == b[MatchIndex(b, value)];
    }
  }

  /** What statement n - 1 adds to the gathered patterns. */
  lemma {:induction false} GatherOne(p: Document, c: Caller, resource: string, effect: string, n: nat)
    requires 0 < n <= |p| && AllNamed(p)
    ensures var k0 := MatchIndex(Patterns(p, c, effect, n - 1), resource);
            var k := MatchIndex(Patterns(p, c, effect, n), resource);
            var adds := Gathers(p[n - 1], c, effect) && Covers(p[n - 1], resource);
            && (k0 >= 0 ==> k == k0 && Origins(p, c, effect, n)[k] == Origins(p, c, effect, n - 1)[k])
            && (k0 < 0 && adds ==> k >= 0 && Origins(p, c, effect, n)[k] == n - 1)
            && (k0 < 0 && !adds ==> k == -1)
  {
    var before, st := Patterns(p, c, effect, n - 1), p[n - 1];
    if Gathers(st, c, effect) {
      assert Patterns(p, c, effect, n) == before + st.resource;
      MatchIndexOfConcat(before, st.resource, resource);
    } else {
      assert Patterns(p, c, effect, n) == before;
    }
  }

  /** The first matching gathered pattern belongs to the least applicable statement. */
  lemma {:induction false} GatheredIsLeast(p: Document, c: Caller, resource: string, n: nat)
    requires n <= |p| && AllNamed(p)
    ensures var k := MatchIndex(Patterns(p, c, "Deny", n), resource);
            Least(p, c, resource, true, n) == if k >= 0 then Origins(p, c, "Deny", n)[k] else -1
  {
    if n > 0 {
      GatheredIsLeast(p, c, resource, n - 1);
      GatherOne(p, c, resource, "Deny", n);
      assert Applies(p[n - 1], c, resource) <==> Selects(p[n - 1], c) && Covers(p[n - 1], resource);
    }
  }

  /** Some gathered Allow pattern matches exactly when some Allow statement applies. */
  lemma {:induction false} GatheredAllows(p: Document, c: Caller, resource: string, n: nat)
    requires n <= |p| && AllNamed(p)
    ensures MatchIndex(Patterns(p, c, "Allow", n), resource) >= 0 <==>
            exists i :: 0 <= i < n && p[i].effect == "Allow" && Applies(p[i], c, resource)
  {
    hide MatchIndex, Selects;
    if n > 0 {
      GatheredAllows(p, c, resource, n - 1);
      GatherOne(p, c, resource, "Allow", n);
      assert Gathers(p[n - 1], c, "Allow") && Covers(p[n - 1], resource) <==>
             p[n - 1].effect == "Allow" && Applies(p[n - 1], c, resource);
    }
  }

  /** The Deny side refines Decide: same verdict, same statement, on any document that can be evaluated. */
  lemma {:induction false} DenyEvaluatorAgrees(p: Document, c: Caller, resource: string)
    requires AllNamed(p)
    ensures DenyEvaluatorOf(p, c).Denies(resource) <==> Decide(p, c, resource).effect == Deny
    ensures DenyEvaluatorOf(p, c).DenyingStatement(resource) ==
            if Decide(p, c, resource).effect == Deny then Decide(p, c, resource).statement else -1
  {
    GatheredIsLeast(p, c, resource, |p|);
  }

  /** The only statement that decides is one whose effect is neither Allow nor Deny. */
  ghost predicate OnlyStrayApplies(p: Document, c: Caller, resource: string)
    requires AllNamed(p)
  {
    && (exists i :: 0 <= i < |p| && Applies(p[i], c, resource))
    && !SomeApplies(p, c, resource, "Allow")
    && !SomeApplies(p, c, resource, "Deny")
  }

  /** Both sides together give Decide's Allow except exactly where only statements of an unknown effect apply. */
  lemma {:induction false} EvaluatorsAgreeIff(p: Document, c: Caller, resource: string)
    requires AllNamed(p)
    ensures (AllowEvaluatorOf(p, c).Allows(resource) && !DenyEvaluatorOf(p, c).Denies(resource) <==>
             Decide(p, c, resource).effect == Allow) <==>
            !OnlyStrayApplies(p, c, resource)
    ensures OnlyStrayApplies(p, c, resource) ==>
              Decide(p, c, resource).effect == Allow && !AllowEvaluatorOf(p, c).Allows(resource)
  {
    hide Applies, MatchIndex, Patterns, Least, Decide;
    DenyEvaluatorAgrees(p, c, resource);
    GatheredAllows(p, c, resource, |p|);
    DecideMeans(p, c, resource);
  }

  predicate EffectsKnown(p: Document) {
    forall i :: 0 <= i < |p| ==> p[i].effect == "Allow" || p[i].effect == "Deny"
  }

  /** With known effects both sides together give Decide's Allow and its lack of an effect, whatever the resource. */
  lemma {:induction false} AllowEvaluatorAgrees(p: Document, c: Caller, resource: string)
    requires AllNamed(p) && EffectsKnown(p)
    ensures AllowEvaluatorOf(p, c).Allows(resource) && !DenyEvaluatorOf(p, c).Denies(resource) <==>
            Decide(p, c, resource).effect == Allow
    ensures !AllowEvaluatorOf(p, c).Allows(resource) && !DenyEvaluatorOf(p, c).Denies(resource) <==>
            Decide(p, c, resource).effect == NoEffect
  {
    hide Applies, MatchIndex, Patterns, Least, Decide;
    EvaluatorsAgreeIff(p, c, resource);
    DenyEvaluatorAgrees(p, c, resource);
    DecideMeans(p, c, resource);
  }

  /** Every unknown effect has such a document: it grants under Decide and not under the evaluator. */
  lemma {:induction false} UnknownEffectDiverges(effect: string, c: Caller, resource: string)
    requires effect != "Allow" && effect != "Deny"
    ensures var p := [Statement("", effect, Some(Principal(true, [])), None, [c.action], [resource], None)];
            OnlyStrayApplies(p, c, resource) &&
            Decide(p, c, resource) == Decision(Allow, 0) && !AllowEvaluatorOf(p, c).Allows(resource)
  {
    var st := Statement("", effect, Some(Principal(true, [])), None, [c.action], [resource], None);
    var p := [st];
    Glob.MatchesItself(resource);
    Glob.MatchesItself(ToLower(c.action));
    assert MatchIndex([resource], resource) == 0;
    assert LowerAll(st.action)[0] == ToLower(c.action);
    assert Applies(st, c, resource);
    assert Least(p, c, resource, true, 0) == -1 && Least(p, c, resource, false, 0) == -1;
    assert Patterns(p, c, "Allow", 0) == [];
    assert Patterns(p, c, "Allow", 1) == [];
  }

  /** Skipping the per-object Deny check is right exactly when no resource at all is denied. */
  lemma {:induction false} AlwaysAllowsIff(p: Document, c: Caller)
    requires AllNamed(p)
    ensures DenyEvaluatorOf(p, c).AlwaysAllows() <==> forall r :: Decide(p, c, r).effect != Deny
  {
    var e := DenyEvaluatorOf(p, c);
    if e.AlwaysAllows() {
      forall r ensures Decide(p, c, r).effect != Deny {
        DenyEvaluatorAgrees(p, c, r);
      }
    } else {
      SomePatternMatches(e.resources);
      DenyEvaluatorAgrees(p, c, e.resources[0]);
    }
  }

  /** Refusing everything is right exactly when no resource at all is covered by an Allow. */
  lemma {:induction false} AlwaysDeniesIff(p: Document, c: Caller)
    requires AllNamed(p)
    ensures AllowEvaluatorOf(p, c).AlwaysDenies() <==> forall r :: !SomeApplies(p, c, r, "Allow")
    ensures EffectsKnown(p) && AllowEvaluatorOf(p, c).AlwaysDenies() ==> forall r :: Decide(p, c, r).effect != Allow
  {
    hide Applies, Least;
    var e := AllowEvaluatorOf(p, c);
    if e.AlwaysDenies() {
      forall r ensures !SomeApplies(p, c, r, "Allow") && (EffectsKnown(p) ==> Decide(p, c, r).effect != Allow) {
        GatheredAllows(p, c, r, |p|);
        DecideMeans(p, c, r);
      }
    } else {
      SomePatternMatches(e.resources);
      GatheredAllows(p, c, e.resources[0], |p|);
      assert SomeApplies(p, c, e.resources[0], "Allow");
    }
  }

  /** The converse of the last clause fails: an Allow that a Deny shadows everywhere still counts as an Allow. */
  lemma {:induction false} ShadowedAllowCounts(c: Caller, pattern: string)
    ensures var all := Some(Principal(true, []));
            var p := [Statement("", "Allow", all, None, [c.action], [pattern], None),
                      Statement("", "Deny", all, None, [c.action], [pattern], None)];
            && Validated(p)
            && !AllowEvaluatorOf(p, c).AlwaysDenies()
            && forall r :: Decide(p, c, r).effect != Allow
  {
    hide MatchIndex, ToLower;
    var all := Some(Principal(true, []));
    var p := [Statement("", "Allow", all, None, [c.action], [pattern], None),
              Statement("", "Deny", all, None, [c.action], [pattern], None)];
    forall r ensures Decide(p, c, r).effect != Allow {
      assert Applies(p[0], c, r) == Applies(p[1], c, r);
      assert Applies(p[1], c, r) ==> Least(p, c, r, true, |p|) >= 0;
    }
    SomePatternMatches([ToLower(c.action)]);
    assert LowerAll(p[0].action) == [ToLower(c.action)];
    SomePatternMatches(p[0].resource);
    AlwaysDeniesIff(p, c);
    assert Applies(p[0], c, pattern);
    assert SomeApplies(p, c, pattern, "Allow");
  }

  lemma {:induction false} SomePatternMatches(patterns: seq<string>)
    requires patterns != []
    ensures MatchIndex(patterns, patterns[0]) == 0
  {
    Glob.MatchesItself(patterns[0]);
  }

  // ----- the visibility gate

  predicate MentionsPrincipal(p: Document, principal: string) {
    exists i ::
      && 0 <= i < |p|
      && p[i].effect == "Allow"
      && p[i].principal.Some?
      && (p[i].principal.value.all || MatchAnyPrincipal(p[i].principal.value.users, principal))
  }

  /** Mentioned exactly by an Allow statement that names the principal, whatever its condition. */
  lemma {:induction false} MentionedIff(p: Document, principal: string)
    requires Validated(p)
    ensures MentionsPrincipal(p, principal) <==>
            exists i :: 0 <= i < |p| && p[i].effect == "Allow" && MatchPrincipal(p[i], principal)
  {
    hide MatchAnyPrincipal;
    assert |"Allow"| != |"Deny"|;
  }

  /** Whoever is granted anything is mentioned: the gate hides nothing that could be granted. */
  lemma {:induction false} AllowedIsMentioned(p: Document, c: Caller, resource: string)
    requires Validated(p) && Decide(p, c, resource).effect == Allow
    ensures MentionsPrincipal(p, c.principal)
  {
    var i := Decide(p, c, resource).statement;
    assert Applies(p[i], c, resource) && p[i].effect == "Allow";
  }

  // The entry naming every user of a tenant covers no other tenant.
  lemma {:induction false} TenantWildcardIsExact(entry: string, tenant: string, user: string)
    requires '/' !in entry && '/' !in tenant
    ensures EntryNames(entry + "/*", tenant + "/" + user) <==> entry == tenant
  {
    var e, q := entry + "/*", tenant + "/" + user;
    assert HasSuffix(e, "/*") && e[..|e| - 1] == entry + "/";
    if EntryNames(e, q) {
      var rest := if e == q then "*" else q[|entry| + 1..];
      assert entry + "/" + rest == q;
      CutIsUnique(entry, rest, tenant, user, '/');
    }
  }

  // ----- confinement of a policy to its own bucket

  /** A resource is the bucket itself or one of its objects. */
  predicate Within(resource: string, bucket: string) {
    resource == bucket || bucket + "/" <= resource
  }

  predicate RefersOnlyTo(p: Document, bucket: string) {
    forall i, j :: 0 <= i < |p| && 0 <= j < |p[i].resource| ==> Within(p[i].resource[j], bucket)
  }

  method ValidateResourcesFor(p: Document, bucket: string) returns (ok: bool)
    ensures ok <==> RefersOnlyTo(p, bucket)
  {
    for i := 0 to |p|
      invariant RefersOnlyTo(p[..i], bucket)
    {
      for j := 0 to |p[i].resource|
        invariant forall k :: 0 <= k < j ==> Within(p[i].resource[k], bucket)
      {
        if p[i].resource[j] != bucket && !(bucket + "/" <= p[i].resource[j]) {
          return false;
        }
      }
    }
    assert p[..|p|] == p;
    return true;
  }

  /** Every document checked against the bucket decides nothing outside it. */
  ghost predicate Confined(bucket: string) {
    forall p: Document, c: Caller, r: string ::
      AllNamed(p) && RefersOnlyTo(p, bucket) && !Within(r, bucket) ==> Decide(p, c, r) == Decision(NoEffect, -1)
  }

  /** Within a bucket are the bucket itself and its objects. */
  lemma {:induction false} WithinIff(resource: string, bucket: string)
    ensures Within(resource, bucket) <==> resource == bucket || exists key :: resource == bucket + "/" + key
  {
    if bucket + "/" <= resource {
      assert resource == bucket + "/" + resource[|bucket| + 1..];
    }
  }

  lemma {:induction false} PatternStaysWithin(pat: string, resource: string, bucket: string)
    requires Glob.WildcardFree(bucket) && Within(pat, bucket) && Glob.Match(pat, resource)
    ensures Within(resource, bucket)
  {
    Glob.MatchSound(pat, resource);
    var lit := if pat == bucket then bucket else bucket + "/";
    assert pat == lit + pat[|lit|..];
    Glob.LiteralFrontForced(lit, pat[|lit|..], resource);
  }

  lemma {:induction false} ConfinedWhenLiteral(p: Document, c: Caller, resource: string, bucket: string)
    requires AllNamed(p) && RefersOnlyTo(p, bucket) && Glob.WildcardFree(bucket)
    requires !Within(resource, bucket)
    ensures Decide(p, c, resource) == Decision(NoEffect, -1)
  {
    var d := Decide(p, c, resource);
    if d.statement >= 0 {
      var st := p[d.statement];
      assert Applies(st, c, resource);
      PatternStaysWithin(st.resource[MatchIndex(st.resource, resource)], resource, bucket);
    }
  }

  /** The same characters with every wildcard replaced: matched by the name, and another resource. */
  function Plain(s: string): (r: string) {
    seq(|s|, i requires 0 <= i < |s| => if s[i] == '*' || s[i] == '?' then 'x' else s[i])
  }

  lemma {:induction false} PlainMatches(s: string)
    ensures Glob.Matches(s, Plain(s))
  {
    if s != [] {
      PlainMatches(s[1..]);
      assert Plain(s)[1..] == Plain(s[1..]);
    }
  }

  lemma {:induction false} WildcardNameEscapes(bucket: string)
    requires !Glob.WildcardFree(bucket)
    ensures !Confined(bucket)
  {
    var r := Plain(bucket);
    var c := Caller("t/u", "s3:GetObject", Context(None));
    var st := Statement("", "Allow", Some(Principal(true, [])), None, [c.action], [bucket], None);
    PlainMatches(bucket);
    Glob.MatchExactOnStarFreeValue(bucket, r);
    assert MatchIndex([bucket], r) == 0;
    Glob.MatchesItself(ToLower(c.action));
    assert LowerAll(st.action)[0] == ToLower(c.action);
    assert Applies(st, c, r);
    assert Least([st], c, r, false, 0) == -1;
    var i :| 0 <= i < |bucket| && (bucket[i] == '*' || bucket[i] == '?');
    assert r[i] == 'x' && r != bucket && !Within(r, bucket);
    assert RefersOnlyTo([st], bucket) && Decide([st], c, r) != Decision(NoEffect, -1);
  }

  /** A bucket's policies are confined to it exactly when its name contains no wildcard. */
  lemma {:induction false} ConfinedIff(bucket: string)
    ensures Confined(bucket) <==> Glob.WildcardFree(bucket)
  {
    if Glob.WildcardFree(bucket) {
      forall p: Document, c: Caller, r: string | AllNamed(p) && RefersOnlyTo(p, bucket) && !Within(r, bucket)
        ensures Decide(p, c, r) == Decision(NoEffect, -1)
      {
        ConfinedWhenLiteral(p, c, r, bucket);
      }
    } else {
      WildcardNameEscapes(bucket);
    }
  }

  // ----- user policies: resource-agnostic, implicit deny

  datatype ActionStatement = ActionStatement(effect: string, action: seq<string>)

  type UserDocument = seq<ActionStatement>

  predicate Concerns(st: ActionStatement, action: string) {
    MatchAny(LowerAll(st.action), ToLower(action))
  }

  /** The least statement among the first n with this effect that concerns the action; -1 when none. */
  function LeastUser(up: UserDocument, action: string, effect: string, n: nat): (i: int)
    requires n <= |up|
    ensures -1 <= i < n
    ensures i >= 0 ==> up[i].effect == effect && Concerns(up[i], action)
    ensures forall j :: 0 <= j < (if i >= 0 then i else n) ==> !(up[j].effect == effect && Concerns(up[j], action))
  {
    if n == 0 then -1
    else
      var i := LeastUser(up, action, effect, n - 1);
      if i >= 0 then i
      else if up[n - 1].effect == effect && Concerns(up[n - 1], action) then n - 1
      else -1
  }

  /** No policy allows everything; otherwise Deny first, then Allow, and an unmatched action is denied. */
  function UserDecide(up: Option<UserDocument>, action: string): (d: Decision)
  {
    if up.None? || up.value == [] then Decision(Allow, -1)
    else
      var deny := LeastUser(up.value, action, "Deny", |up.value|);
      var allow := LeastUser(up.value, action, "Allow", |up.value|);
      if deny >= 0 then Decision(Deny, deny)
      else if allow >= 0 then Decision(Allow, allow)
      else Decision(Deny, -1)
  }

  lemma {:induction false} ConcernsIff(st: ActionStatement, action: string)
    ensures Concerns(st, action) <==> SomeActionMatches(st.action, action)
  {
    ActionMatchesIff(st.action, action);
  }

  /** An action passes the user policy when there is none, or when some Allow and no Deny concerns it. */
  lemma {:induction false} UserDecideMeans(up: Option<UserDocument>, action: string)
    ensures UserDecide(up, action).effect == Allow <==>
            || up.None? || up.value == []
            || (&& (exists i :: 0 <= i < |up.value| && up.value[i].effect == "Allow" && Concerns(up.value[i], action))
                && (forall i :: 0 <= i < |up.value| && up.value[i].effect == "Deny" ==> !Concerns(up.value[i], action)))
    ensures UserDecide(up, action).effect != NoEffect
    ensures up.Some? && UserDecide(up, action).statement >= 0 ==>
              var d := UserDecide(up, action);
              && d.statement < |up.value| && Concerns(up.value[d.statement], action)
              && up.value[d.statement].effect == (if d.effect == Allow then "Allow" else "Deny")
              && forall i :: 0 <= i < d.statement && Concerns(up.value[i], action) ==>
                   up.value[i].effect != up.value[d.statement].effect
    ensures up.Some? && up.value != [] && UserDecide(up, action).statement < 0 ==>
              forall i :: 0 <= i < |up.value| && Concerns(up.value[i], action) ==>
                up.value[i].effect != "Allow" && up.value[i].effect != "Deny"
  {
    hide Concerns;
    if up.Some? {
      var deny := LeastUser(up.value, action, "Deny", |up.value|);
      var allow := LeastUser(up.value, action, "Allow", |up.value|);
      assert deny >= 0 ==> Concerns(up.value[deny], action);
      assert allow >= 0 ==> Concerns(up.value[allow], action);
    }
  }

  method UserDecideLoop(up: Option<UserDocument>, action: string) returns (d: Decision)
    ensures d == UserDecide(up, action)
  {
    hide MatchIndex, ToLower, LowerAll;
    if up.None? || |up.value| == 0 {
      return Decision(Allow, -1);
    }
    d := Decision(Deny, -1);
    for i := 0 to |up.value|
      invariant LeastUser(up.value, action, "Deny", i) == -1
      invariant d == var a := LeastUser(up.value, action, "Allow", i);
                     if a >= 0 then Decision(Allow, a) else Decision(Deny, -1)
    {
      var st := up.value[i];
      var hit := MatchIndexRunes(LowerAll(st.action), ToLower(action));
      if hit < 0 {
        continue;
      }
      if st.effect == "Deny" {
        return Decision(Deny, i);
      } else if st.effect == "Allow" && d.effect != Allow {
        d := Decision(Allow, i);
      }
    }
  }
}

/**
 Authorization of one request (s3gw/bucketpolicy.go authorize), its per-object
 form used by DeleteObjects (perObjectAuthorizer), the reasons recorded for a
 refusal (s3gw/denyreason.go) and the cross-tenant visibility gate
 (s3gw/handler.go resolveBucket).
 */
module Authorization {
  import opened Text
  import Policy

  datatype Request = Request(
    tenant: string, user: string, userPolicy: Option<Policy.UserDocument>, source: Option<Policy.Addr>)
  {
    function Principal(): (p: string) { tenant + "/" + user }

    function Caller(action: string): (c: Policy.Caller) {
      Policy.Caller(Principal(), action, Policy.Context(source))
    }
  }

  datatype Bucket = Bucket(tenant: string, name: string, policy: Option<Policy.Document>)
  {
    /** Every bucket a store hands out carries a policy that passed validation, or none. */
    predicate Sound() { policy.Some? ==> Policy.Validated(policy.value) }
  }

  datatype Layer = UserPolicyLayer | BucketPolicyLayer | CrossTenantLayer | VisibilityLayer

  datatype DenyReason = DenyReason(
    layer: Layer, statement: int, sid: string, principal: string, action: string, resource: string)

  function UserPolicyReason(c: Policy.Caller, d: Policy.Decision): (r: DenyReason) {
    DenyReason(UserPolicyLayer, d.statement, "", c.principal, c.action, "")
  }

  function CrossTenantReason(c: Policy.Caller, resource: string): (r: DenyReason) {
    DenyReason(CrossTenantLayer, -1, "", c.principal, c.action, resource)
  }

  function DenyStatementReason(
    p: Option<Policy.Document>, c: Policy.Caller, resource: string, i: int): (r: DenyReason)
  {
    var sid := if p.Some? && 0 <= i < |p.value| then p.value[i].sid else "";
    DenyReason(BucketPolicyLayer, i, sid, c.principal, c.action, resource)
  }

  function BucketPolicyReason(
    p: Option<Policy.Document>, c: Policy.Caller, resource: string, d: Policy.Decision): (r: DenyReason)
  {
    if d.effect != Policy.Deny then CrossTenantReason(c, resource)
    else DenyStatementReason(p, c, resource, d.statement)
  }

  // ----- one request

  /** None admits; a reason refuses. Own tenant: all but an explicit Deny. Other tenant: only an Allow. */
  function Authorize(vr: Request, b: Bucket, action: string, resource: string): (refusal: Option<DenyReason>)
    requires b.Sound()
  {
    var c := vr.Caller(action);
    var user := Policy.UserDecide(vr.userPolicy, action);
    if user.effect != Policy.Allow then Some(UserPolicyReason(c, user))
    else if b.tenant != vr.tenant then
      if b.policy.None? then Some(BucketPolicyReason(None, c, resource, Policy.Decision(Policy.NoEffect, -1)))
      else
        var d := Policy.Decide(b.policy.value, c, resource);
        if d.effect != Policy.Allow then Some(BucketPolicyReason(b.policy, c, resource, d)) else None
    else if b.policy.Some? then
      var d := Policy.Decide(b.policy.value, c, resource);
      if d.effect == Policy.Deny then Some(BucketPolicyReason(b.policy, c, resource, d)) else None
    else None
  }

  ghost predicate Matched(p: Option<Policy.Document>, c: Policy.Caller, resource: string, effect: string)
    requires p.Some? ==> Policy.Validated(p.value)
  {
    p.Some? && Policy.SomeApplies(p.value, c, resource, effect)
  }

  /**
   Who is granted what: the user policy passes the action, no Deny applies, and another tenant's caller needs an
   Allow.
   */
  lemma {:induction false} GrantedIff(vr: Request, b: Bucket, action: string, resource: string)
    requires b.Sound()
    ensures Authorize(vr, b, action, resource).None? <==>
            && Policy.UserDecide(vr.userPolicy, action).effect == Policy.Allow
            && !Matched(b.policy, vr.Caller(action), resource, "Deny")
            && (vr.tenant == b.tenant || Matched(b.policy, vr.Caller(action), resource, "Allow"))
  {
    hide Policy.Applies, Policy.Decide, Policy.UserDecide;
    if b.policy.Some? {
      Policy.DecideMeans(b.policy.value, vr.Caller(action), resource);
    }
  }

  /**
   Why a request is refused: by the user policy, naming the statement of its verdict; else by the first Deny of the
   bucket policy that applies, with its name; else because a caller of another tenant has no Allow.
   */
  lemma {:induction false} RefusalExplained(vr: Request, b: Bucket, action: string, resource: string)
    requires b.Sound() && Authorize(vr, b, action, resource).Some?
    ensures var r := Authorize(vr, b, action, resource).value;
            var c, user := vr.Caller(action), Policy.UserDecide(vr.userPolicy, action);
            && r.principal == vr.tenant + "/" + vr.user && r.action == action
            && r.resource == (if user.effect == Policy.Allow then resource else "")
            && (if user.effect != Policy.Allow then
                  r.layer == UserPolicyLayer && r.statement == user.statement && r.sid == ""
                else if Matched(b.policy, c, resource, "Deny") then
                  && r.layer == BucketPolicyLayer && FirstDeny(b.policy.value, c, resource, r.statement)
                  && r.sid == b.policy.value[r.statement].sid
                else r.layer == CrossTenantLayer && r.statement == -1 && r.sid == "" && vr.tenant != b.tenant)
  {
    hide Policy.Applies, Policy.Decide, Policy.UserDecide;
    if b.policy.Some? {
      Policy.DecideMeans(b.policy.value, vr.Caller(action), resource);
    }
  }

  ghost predicate FirstDeny(p: Policy.Document, c: Policy.Caller, resource: string, i: int)
    requires Policy.Validated(p)
  {
    && 0 <= i < |p| && p[i].effect == "Deny" && Policy.Applies(p[i], c, resource)
    && forall j :: 0 <= j < i && Policy.Applies(p[j], c, resource) ==> p[j].effect != "Deny"
  }

  // ----- one action, many resources

  datatype PerObject = PerObject(
    denyAll: bool,
    eval: Policy.DenyEvaluator,
    requireAllow: bool,
    allow: Policy.AllowEvaluator,
    caller: Policy.Caller,
    policy: Option<Policy.Document>,
    userDecision: Policy.Decision)
  {
    predicate Denies(resource: string) {
      denyAll ||
      (if requireAllow then !allow.Allows(resource) || eval.Denies(resource) else eval.Denies(resource))
    }

    function Reason(resource: string): (r: DenyReason)
      requires eval.Parallel()
    {
      if userDecision.effect != Policy.Allow then UserPolicyReason(caller, userDecision)
      else
        var i := eval.DenyingStatement(resource);
        if i >= 0 then DenyStatementReason(policy, caller, resource, i)
        else CrossTenantReason(caller, resource)
    }

    predicate AllowsEverything() { !denyAll && !requireAllow && eval.AlwaysAllows() }
  }

  const NoDenies := Policy.DenyEvaluator([], [])
  const NoAllows := Policy.AllowEvaluator([])

  function PerObjectOf(vr: Request, b: Bucket, action: string): (a: PerObject)
    requires b.Sound()
    ensures a.eval.Parallel()
  {
    var c := vr.Caller(action);
    var user := Policy.UserDecide(vr.userPolicy, action);
    if user.effect != Policy.Allow then PerObject(true, NoDenies, false, NoAllows, c, b.policy, user)
    else if b.policy.None? then
      PerObject(b.tenant != vr.tenant, NoDenies, b.tenant != vr.tenant, NoAllows, c, None, user)
    else if b.tenant != vr.tenant then
      var allow := Policy.AllowEvaluatorOf(b.policy.value, c);
      if allow.AlwaysDenies() then PerObject(true, NoDenies, true, allow, c, b.policy, user)
      else PerObject(false, Policy.DenyEvaluatorOf(b.policy.value, c), true, allow, c, b.policy, user)
    else PerObject(false, Policy.DenyEvaluatorOf(b.policy.value, c), false, NoAllows, c, b.policy, user)
  }

  method BuildPerObject(vr: Request, b: Bucket, action: string) returns (a: PerObject)
    requires b.Sound()
    ensures a == PerObjectOf(vr, b, action)
  {
    var c := vr.Caller(action);
    var user := Policy.UserDecideLoop(vr.userPolicy, action);
    a := PerObject(false, NoDenies, false, NoAllows, c, b.policy, user);
    if a.userDecision.effect != Policy.Allow {
      a := a.(denyAll := true);
      return;
    }
    if b.tenant != vr.tenant {
      a := a.(requireAllow := true);
      if b.policy.None? {
        a := a.(denyAll := true);
        return;
      }
      var allow := Policy.AllowEvaluatorFor(b.policy.value, c);
      a := a.(allow := allow);
      if allow.AlwaysDenies() {
        a := a.(denyAll := true);
        return;
      }
      var eval := Policy.DenyEvaluatorFor(b.policy.value, c);
      a := a.(eval := eval);
      return;
    }
    if b.policy.Some? {
      var eval := Policy.DenyEvaluatorFor(b.policy.value, c);
      a := a.(eval := eval);
    }
  }

  lemma {:induction false} EvaluatorFacts(b: Bucket, c: Policy.Caller, resource: string)
    requires b.Sound() && b.policy.Some?
    ensures var p, d := b.policy.value, Policy.Decide(b.policy.value, c, resource);
            && Policy.DenyEvaluatorOf(p, c).Denies(resource) == (d.effect == Policy.Deny)
            && Policy.DenyEvaluatorOf(p, c).DenyingStatement(resource) ==
               (if d.effect == Policy.Deny then d.statement else -1)
            && (d.effect == Policy.Deny ==> d.statement >= 0)
            && (Policy.AllowEvaluatorOf(p, c).Allows(resource) && d.effect != Policy.Deny <==> d.effect == Policy.Allow)
  {
    Policy.DenyEvaluatorAgrees(b.policy.value, c, resource);
    Policy.AllowEvaluatorAgrees(b.policy.value, c, resource);
  }

  /** The per-object path refuses exactly what the single-request path refuses. */
  lemma {:induction false} PerObjectRefines(vr: Request, b: Bucket, action: string, resource: string)
    requires b.Sound()
    ensures PerObjectOf(vr, b, action).Denies(resource) <==> Authorize(vr, b, action, resource).Some?
  {
    if b.policy.Some? {
      EvaluatorFacts(b, vr.Caller(action), resource);
    }
  }

  /** The one case in which the two paths explain a refusal differently. */
  predicate Attributed(vr: Request, b: Bucket, action: string, resource: string)
    requires b.Sound()
  {
    var c := vr.Caller(action);
    && Policy.UserDecide(vr.userPolicy, action).effect == Policy.Allow
    && b.tenant != vr.tenant
    && b.policy.Some?
    && Policy.AllowEvaluatorOf(b.policy.value, c).AlwaysDenies()
    && Policy.Decide(b.policy.value, c, resource).effect == Policy.Deny
  }

  /**
   A refused resource gets the same reason from both paths, except exactly when a
   cross-tenant caller matches no Allow at all while a Deny matches: there the
   per-object path reports the cross-tenant baseline instead of the Deny statement.
   */
  lemma {:induction false} ReasonsAgreeIff(vr: Request, b: Bucket, action: string, resource: string)
    requires b.Sound()
    requires Authorize(vr, b, action, resource).Some?
    ensures var a, r := PerObjectOf(vr, b, action), Authorize(vr, b, action, resource).value;
            && (a.Reason(resource) == r <==> !Attributed(vr, b, action, resource))
            && (Attributed(vr, b, action, resource) ==>
                  a.Reason(resource) == CrossTenantReason(vr.Caller(action), resource) && r.layer == BucketPolicyLayer)
  {
    if b.policy.Some? {
      EvaluatorFacts(b, vr.Caller(action), resource);
    }
  }

  /** The shortcut that skips the per-object check is taken exactly when it cannot matter. */
  lemma {:induction false} AllowsEverythingIff(vr: Request, b: Bucket, action: string)
    requires b.Sound()
    ensures PerObjectOf(vr, b, action).AllowsEverything() <==>
            vr.tenant == b.tenant && forall r :: Authorize(vr, b, action, r).None?
  {
    if vr.tenant == b.tenant {
      var user := Policy.UserDecide(vr.userPolicy, action);
      if user.effect == Policy.Allow && b.policy.Some? {
        var p, c := b.policy.value, vr.Caller(action);
        Policy.AlwaysAllowsIff(p, c);
        assert forall r :: Authorize(vr, b, action, r).None? <==> Policy.Decide(p, c, r).effect != Policy.Deny;
      } else {
        assert user.effect != Policy.Allow ==> Authorize(vr, b, action, "").Some?;
      }
    }
  }

  // ----- the visibility gate

  datatype Lookup = Found(bucket: Bucket) | NotFound | Failed

  /** What the gateway sees of a store: the tenant's own bucket, and the bucket of that name anywhere. */
  datatype View = View(own: Lookup, byName: Lookup)
  {
    predicate Sound() {
      && (own.Found? ==> own.bucket.Sound())
      && (byName.Found? ==> byName.bucket.Sound())
    }

    /** Bucket names are globally unique, and the two lookups see the same definitions. */
    predicate Coherent(tenant: string) {
      && own != Failed && byName != Failed
      && (own.Found? ==> byName == own)
      && (byName.Found? && byName.bucket.tenant == tenant ==> own == byName)
    }
  }

  datatype Resolution = Resolved(bucket: Bucket) | Refused(cause: Option<DenyReason>) | InternalError

  function ResolveBucket(view: View, vr: Request, name: string): (r: Resolution) {
    match view.own
    case Found(b) => Resolved(b)
    case Failed => InternalError
    case NotFound =>
      match view.byName
      case NotFound => Refused(None)
      case Failed => InternalError
      case Found(b) =>
        if b.policy.None? || !Policy.MentionsPrincipal(b.policy.value, vr.Principal())
        then Refused(Some(DenyReason(VisibilityLayer, -1, "", vr.Principal(), "", name)))
        else Resolved(b)
  }

  /** What the client is told: causes are for the observer only. */
  datatype Reply = Reaches(bucket: Bucket) | Denied | ServerError

  function ReplyOf(r: Resolution): (a: Reply) {
    match r
    case Resolved(b) => Reaches(b)
    case Refused(_) => Denied
    case InternalError => ServerError
  }

  /** A bucket is visible to its own tenant, and to those an Allow of its policy names. */
  ghost predicate Visible(view: View, vr: Request, b: Bucket)
    requires view.Sound()
  {
    || view.own == Found(b)
    || (&& view.own == NotFound && view.byName == Found(b) && b.policy.Some?
        && exists i ::
             && 0 <= i < |b.policy.value| && b.policy.value[i].effect == "Allow"
             && Policy.MatchPrincipal(b.policy.value[i], vr.tenant + "/" + vr.user))
  }

  /**
   What the gate answers: the bucket exactly when it is visible, an error exactly when a lookup the answer depends on
   failed, and one and the same refusal when the bucket is hidden and when there is none.
   */
  lemma {:induction false} GateAnswers(view: View, vr: Request, name: string)
    requires view.Sound()
    ensures forall b :: ReplyOf(ResolveBucket(view, vr, name)) == Reaches(b) <==> Visible(view, vr, b)
    ensures ReplyOf(ResolveBucket(view, vr, name)) == ServerError <==>
            view.own == Failed || (view.own == NotFound && view.byName == Failed)
    ensures view.own == NotFound && view.byName.Found? && !Visible(view, vr, view.byName.bucket) ==>
              && ReplyOf(ResolveBucket(view, vr, name)) == ReplyOf(ResolveBucket(View(NotFound, NotFound), vr, name))
              && ResolveBucket(view, vr, name).cause ==
                 Some(DenyReason(VisibilityLayer, -1, "", vr.tenant + "/" + vr.user, "", name))
  {
    hide Policy.MatchPrincipal, Policy.MentionsPrincipal;
    if view.byName.Found? && view.byName.bucket.policy.Some? {
      Policy.MentionedIff(view.byName.bucket.policy.value, vr.Principal());
    }
  }

  predicate GrantedThroughGate(view: View, vr: Request, name: string, action: string, resource: string)
    requires view.Sound()
  {
    var r := ResolveBucket(view, vr, name);
    r.Resolved? && Authorize(vr, r.bucket, action, resource).None?
  }

  /** Resolving through the gate and then authorizing grants exactly what authorizing alone grants. */
  lemma {:induction false} GateChangesNoOutcome(view: View, vr: Request, name: string, action: string, resource: string)
    requires view.Sound() && view.Coherent(vr.tenant)
    ensures GrantedThroughGate(view, vr, name, action, resource) <==>
            view.byName.Found? && Authorize(vr, view.byName.bucket, action, resource).None?
  {
    if view.byName.Found? && view.byName.bucket.policy.Some? {
      var p, c := view.byName.bucket.policy.value, vr.Caller(action);
      if Policy.Decide(p, c, resource).effect == Policy.Allow {
        Policy.AllowedIsMentioned(p, c, resource);
      }
    }
  }
}

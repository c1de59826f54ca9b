/**
 Validation of the static configuration (config.go): which configurations are accepted,
 and that no two tenants can reach the same physical backend bucket.
 */
module Config {
  import opened Text
  import opened Ordering
  import Glob
  import Policy
  import opened PolicyParse

  datatype Key = Key(id: string, secret: string)

  datatype User = User(name: string, keys: seq<Key>, policy: Policy.UserDocument)

  datatype Backend = Backend(endpoint: string, bucket: string, accessKeyId: string, secretAccessKey: string)

  datatype Bucket = Bucket(name: string, backend: Option<Backend>, policyText: string, cors: seq<string>)

  datatype Tenant = Tenant(name: string, users: seq<User>, buckets: seq<Bucket>)

  datatype CircuitBreaker = CircuitBreaker(failures: int, cooldown: int)

  datatype Config = Config(tenants: seq<Tenant>, breaker: Option<CircuitBreaker>)

  /**
   What validation depends on besides the configuration: JSON decoding, the actions the gateway authorizes, the
   serialized size of a user policy, and the checks of other packages on endpoints and CORS rules.
   */
  datatype Env = Env(
    decode: string -> Option<RawDocument>,
    actions: seq<string>,
    serializedSize: Policy.UserDocument -> nat,
    endpointOk: string -> bool,
    corsOk: string -> bool)
  {
    /** A bucket policy parsed with the check of its actions. */
    function Checked(bucket: string, text: string): (r: Result) {
      ParseOf(decode, bucket, text, Some(actions))
    }
  }

  /** One action pattern, reported once everything else is valid. */
  datatype Report =
    | InUserPolicy(tenant: string, user: string, unknown: Unknown)
    | InBucketPolicy(tenant: string, bucket: string, unknown: Unknown)

  // ----- names

  /** ^[a-z0-9][a-z0-9-]{1,61}[a-z0-9]$ */
  predicate BucketName(s: string) {
    && 3 <= |s| <= 63 && LowerOrDigit(s[0]) && LowerOrDigit(s[|s| - 1])
    && forall i :: 1 <= i < |s| - 1 ==> LowerOrDigit(s[i]) || s[i] == '-'
  }

  /** A bucket name can be matched literally only. */
  lemma {:induction false} BucketNameIsLiteral(s: string)
    requires BucketName(s)
    ensures Glob.WildcardFree(s)
  {
    assert forall i :: 0 <= i < |s| ==> LowerOrDigit(s[i]) || s[i] == '-';
  }

  // ----- what a valid configuration is

  function Ids(keys: seq<Key>): (r: seq<string>) {
    seq(|keys|, i requires 0 <= i < |keys| => keys[i].id)
  }

  function UserNames(users: seq<User>): (r: seq<string>) {
    seq(|users|, i requires 0 <= i < |users| => users[i].name)
  }

  function BucketNames(buckets: seq<Bucket>): (r: seq<string>) {
    seq(|buckets|, i requires 0 <= i < |buckets| => buckets[i].name)
  }

  function TenantNames(ts: seq<Tenant>): (r: seq<string>) {
    seq(|ts|, i requires 0 <= i < |ts| => ts[i].name)
  }

  function UsersIds(users: seq<User>): (r: seq<string>) {
    if users == [] then [] else UsersIds(users[..|users| - 1]) + Ids(users[|users| - 1].keys)
  }

  function AllIds(ts: seq<Tenant>): (r: seq<string>) {
    if ts == [] then [] else AllIds(ts[..|ts| - 1]) + UsersIds(ts[|ts| - 1].users)
  }

  function AllBucketNames(ts: seq<Tenant>): (r: seq<string>) {
    if ts == [] then [] else AllBucketNames(ts[..|ts| - 1]) + BucketNames(ts[|ts| - 1].buckets)
  }

  /** The physical bucket: the backend bucket defaults to the front name. */
  function EffectiveBucket(b: Bucket): (n: string)
    requires b.backend.Some?
  {
    if b.backend.value.bucket == "" then b.name else b.backend.value.bucket
  }

  /** The key under which a physical target is remembered. */
  function Target(b: Bucket): (t: string)
    requires b.backend.Some?
  {
    b.backend.value.endpoint + "\0" + EffectiveBucket(b)
  }

  /** An absent policy is fine; the byte cap applies to the serialized form. */
  predicate UserPolicyOk(env: Env, up: Policy.UserDocument) {
    up == [] || (UserWellFormed(up) && env.serializedSize(up) <= MAX_POLICY_BYTES)
  }

  predicate UserOk(env: Env, u: User) {
    && PrincipalPart(u.name)
    && u.keys != []
    && (forall i :: 0 <= i < |u.keys| ==> u.keys[i].id != "" && u.keys[i].secret != "")
    && UserPolicyOk(env, u.policy)
  }

  predicate BackendOk(env: Env, b: Backend) {
    (b.endpoint == "" || env.endpointOk(b.endpoint)) && (b.accessKeyId == "") == (b.secretAccessKey == "")
  }

  predicate BucketOk(env: Env, b: Bucket) {
    && BucketName(b.name)
    && b.backend.Some? && BackendOk(env, b.backend.value)
    && (b.policyText == "" || !env.Checked(b.name, b.policyText).Malformed?)
    && (forall i :: 0 <= i < |b.cors| ==> env.corsOk(b.cors[i]))
  }

  predicate TenantOk(env: Env, t: Tenant) {
    && PrincipalPart(t.name)
    && t.users != [] && t.buckets != []
    && (forall i :: 0 <= i < |t.users| ==> UserOk(env, t.users[i]))
    && (forall i :: 0 <= i < |t.buckets| ==> BucketOk(env, t.buckets[i]))
    && Distinct(UserNames(t.users))
  }

  /** No physical target is used by two tenants. */
  ghost predicate Unshared(ts: seq<Tenant>) {
    forall i, j, a, b | 0 <= i < |ts| && 0 <= j < |ts| && Owns(ts[i], a) && Owns(ts[j], b) ::
      Target(a) == Target(b) ==> ts[i].name == ts[j].name
  }

  predicate Owns(t: Tenant, b: Bucket) {
    b in t.buckets && b.backend.Some?
  }

  ghost predicate Sound(env: Env, ts: seq<Tenant>) {
    && (forall i :: 0 <= i < |ts| ==> TenantOk(env, ts[i]))
    && Distinct(TenantNames(ts))
    && Distinct(AllIds(ts))
    && Distinct(AllBucketNames(ts))
    && Unshared(ts)
  }

  predicate BreakerOk(b: Option<CircuitBreaker>) {
    b.Some? ==> b.value.failures >= 1 && b.value.cooldown > 0
  }

  // ----- actions the gateway never authorizes

  function UserReports(env: Env, tenant: string, u: User): (r: seq<Report>) {
    var errs := if u.policy == [] then [] else UnknownIn(Some(env.actions), UserActions(u.policy));
    seq(|errs|, i requires 0 <= i < |errs| => InUserPolicy(tenant, u.name, errs[i]))
  }

  function BucketReports(env: Env, tenant: string, b: Bucket): (r: seq<Report>) {
    var p := env.Checked(b.name, b.policyText);
    var errs := if b.policyText != "" && p.UnknownActions? then p.errors else [];
    seq(|errs|, i requires 0 <= i < |errs| => InBucketPolicy(tenant, b.name, errs[i]))
  }

  function UsersReports(env: Env, tenant: string, users: seq<User>): (r: seq<Report>) {
    if users == [] then []
    else UsersReports(env, tenant, users[..|users| - 1]) + UserReports(env, tenant, users[|users| - 1])
  }

  function BucketsReports(env: Env, tenant: string, buckets: seq<Bucket>): (r: seq<Report>) {
    if buckets == [] then []
    else BucketsReports(env, tenant, buckets[..|buckets| - 1]) + BucketReports(env, tenant, buckets[|buckets| - 1])
  }

  function TenantReports(env: Env, t: Tenant): (r: seq<Report>) {
    UsersReports(env, t.name, t.users) + BucketsReports(env, t.name, t.buckets)
  }

  function AllReports(env: Env, ts: seq<Tenant>): (r: seq<Report>) {
    if ts == [] then [] else AllReports(env, ts[..|ts| - 1]) + TenantReports(env, ts[|ts| - 1])
  }

  lemma {:induction false} UsersReported(env: Env, tenant: string, users: seq<User>, r: Report)
    ensures r in UsersReports(env, tenant, users) <==> exists u :: u in users && r in UserReports(env, tenant, u)
  {
    hide UserReports;
    if users != [] {
      var front, u := users[..|users| - 1], users[|users| - 1];
      UsersReported(env, tenant, front, r);
      assert users == front + [u];
    }
  }

  lemma {:induction false} BucketsReported(env: Env, tenant: string, buckets: seq<Bucket>, r: Report)
    ensures r in BucketsReports(env, tenant, buckets) <==>
            exists b :: b in buckets && r in BucketReports(env, tenant, b)
  {
    hide BucketReports;
    if buckets != [] {
      var front, b := buckets[..|buckets| - 1], buckets[|buckets| - 1];
      BucketsReported(env, tenant, front, r);
      assert buckets == front + [b];
    }
  }

  lemma {:induction false} TenantsReported(env: Env, ts: seq<Tenant>, r: Report)
    ensures r in AllReports(env, ts) <==> exists t :: t in ts && r in TenantReports(env, t)
  {
    hide TenantReports;
    if ts != [] {
      var front, t := ts[..|ts| - 1], ts[|ts| - 1];
      TenantsReported(env, front, r);
      assert ts == front + [t];
    }
  }

  /** The user's policy names this action in this statement, and the gateway never authorizes it. */
  predicate NamesUnknown(env: Env, u: User, x: Unknown) {
    && 0 <= x.statement < |u.policy| && x.action in u.policy[x.statement].action
    && !PolicyParse.Known(env.actions, x.action)
  }

  /** The same of a bucket's policy that is fine otherwise. */
  predicate PolicyNamesUnknown(env: Env, b: Bucket, x: Unknown) {
    && b.policyText != "" && !env.Checked(b.name, b.policyText).Malformed? && env.decode(b.policyText).Some?
    && var p := env.decode(b.policyText).value.statements;
       0 <= x.statement < |p| && x.action in p[x.statement].action && !PolicyParse.Known(env.actions, x.action)
  }

  lemma {:induction false} UserReportIff(env: Env, tenant: string, u: User, r: Report)
    ensures r in UserReports(env, tenant, u) <==>
            r.InUserPolicy? && r.tenant == tenant && r.user == u.name && NamesUnknown(env, u, r.unknown)
  {
    hide PolicyParse.Known;
    var errs := if u.policy == [] then [] else UnknownIn(Some(env.actions), UserActions(u.policy));
    if r.InUserPolicy? && r.tenant == tenant && r.user == u.name && r.unknown in errs {
      var i :| 0 <= i < |errs| && errs[i] == r.unknown;
      assert UserReports(env, tenant, u)[i] == r;
    }
  }

  lemma {:induction false} BucketReportIff(env: Env, tenant: string, b: Bucket, r: Report)
    ensures r in BucketReports(env, tenant, b) <==>
            r.InBucketPolicy? && r.tenant == tenant && r.bucket == b.name && PolicyNamesUnknown(env, b, r.unknown)
  {
    hide PolicyParse.Known, WellFormed, ByteLength, Policy.RefersOnlyTo;
    var p := env.Checked(b.name, b.policyText);
    var errs := if b.policyText != "" && p.UnknownActions? then p.errors else [];
    if r.InBucketPolicy? {
      assert r.unknown in errs <==> PolicyNamesUnknown(env, b, r.unknown);
    }
    if r.InBucketPolicy? && r.tenant == tenant && r.bucket == b.name && r.unknown in errs {
      var i :| 0 <= i < |errs| && errs[i] == r.unknown;
      assert BucketReports(env, tenant, b)[i] == r;
    }
  }

  /** What is reported: exactly the actions named in a user's or bucket's policy that the gateway never authorizes. */
  lemma {:induction false} ReportedIff(env: Env, ts: seq<Tenant>, r: Report)
    ensures r in AllReports(env, ts) <==>
            exists t :: t in ts && r.tenant == t.name &&
              (|| (r.InUserPolicy? && exists u :: u in t.users && u.name == r.user && NamesUnknown(env, u, r.unknown))
               || (r.InBucketPolicy? &&
                   exists b :: b in t.buckets && b.name == r.bucket && PolicyNamesUnknown(env, b, r.unknown)))
  {
    hide NamesUnknown, PolicyNamesUnknown, UserReports, BucketReports, UsersReports, BucketsReports;
    TenantsReported(env, ts, r);
    forall t | t in ts
      ensures r in TenantReports(env, t) <==>
              r.tenant == t.name &&
              (|| (r.InUserPolicy? && exists u :: u in t.users && u.name == r.user && NamesUnknown(env, u, r.unknown))
               || (r.InBucketPolicy? &&
                   exists b :: b in t.buckets && b.name == r.bucket && PolicyNamesUnknown(env, b, r.unknown)))
    {
      UsersReported(env, t.name, t.users, r);
      BucketsReported(env, t.name, t.buckets, r);
      forall u ensures r in UserReports(env, t.name, u) <==>
          r.InUserPolicy? && r.tenant == t.name && r.user == u.name && NamesUnknown(env, u, r.unknown)
      {
        UserReportIff(env, t.name, u, r);
      }
      forall b ensures r in BucketReports(env, t.name, b) <==>
          r.InBucketPolicy? && r.tenant == t.name && r.bucket == b.name && PolicyNamesUnknown(env, b, r.unknown)
      {
        BucketReportIff(env, t.name, b, r);
      }
    }
  }

  // ----- target strings

  /**
   For endpoints without a NUL byte, two buckets share a target string exactly when they are the same physical
   bucket.
   */
  lemma {:induction false} TargetEqualIff(a: Bucket, b: Bucket)
    requires a.backend.Some? && b.backend.Some?
    requires '\0' !in a.backend.value.endpoint && '\0' !in b.backend.value.endpoint
    ensures WithDefaults(a).backend.Some? && WithDefaults(b).backend.Some?
    ensures var x, y := WithDefaults(a).backend.value, WithDefaults(b).backend.value;
            Target(a) == Target(b) <==> x.endpoint == y.endpoint && x.bucket == y.bucket
  {
    if Target(a) == Target(b) {
      CutIsUnique(a.backend.value.endpoint, EffectiveBucket(a), b.backend.value.endpoint, EffectiveBucket(b), '\0');
    }
  }

  /** The defaults applied when a configuration is loaded: a backend bucket is named after the front one. */
  function WithDefaults(b: Bucket): (r: Bucket) {
    match b.backend
    case None => b
    case Some(backend) =>
      b.(backend := Some(if backend.bucket == "" then backend.(bucket := b.name) else backend))
  }

  /** In an accepted configuration no two tenants share a physical bucket, whatever the endpoints contain. */
  lemma {:induction false} TenantsAreIsolated(env: Env, ts: seq<Tenant>, i: nat, j: nat, a: Bucket, b: Bucket)
    requires Sound(env, ts) && i < |ts| && j < |ts| && i != j
    requires Owns(ts[i], a) && Owns(ts[j], b)
    ensures WithDefaults(a).backend.Some? && WithDefaults(b).backend.Some?
    ensures var x, y := WithDefaults(a).backend.value, WithDefaults(b).backend.value;
            x.endpoint != y.endpoint || x.bucket != y.bucket
  {
    assert TenantNames(ts)[i] != TenantNames(ts)[j];
    assert Target(a) != Target(b);
  }

  /** What every accepted tenant has, one by one. */
  lemma {:induction false} SoundMeans(env: Env, ts: seq<Tenant>, t: Tenant)
    requires Sound(env, ts) && t in ts
    ensures forall u, k :: u in t.users && k in u.keys ==> k.id != "" && k.secret != ""
    ensures t.users != [] && t.buckets != [] && forall u :: u in t.users ==> u.keys != []
    ensures forall i, j :: 0 <= i < j < |t.users| ==> t.users[i].name != t.users[j].name
    ensures forall u :: u in t.users ==> '/' !in u.name && '*' !in u.name && '/' !in t.name && '*' !in t.name
    ensures forall u :: u in t.users && u.policy != [] ==> env.serializedSize(u.policy) <= 20480
    ensures forall b :: b in t.buckets ==>
              && 3 <= |b.name| <= 63
              && b.backend.Some?
              && (b.backend.value.endpoint != "" ==> env.endpointOk(b.backend.value.endpoint))
              && (b.backend.value.accessKeyId == "" <==> b.backend.value.secretAccessKey == "")
              && (forall r :: r in b.cors ==> env.corsOk(r))
  {
    hide Unshared, ParseOf, UserWellFormed, AllIds, AllBucketNames;
    var i :| 0 <= i < |ts| && ts[i] == t;
    assert TenantOk(env, ts[i]);
    forall i, j | 0 <= i < j < |t.users| ensures t.users[i].name != t.users[j].name {
      assert UserNames(t.users)[i] != UserNames(t.users)[j];
    }
    forall u | u in t.users ensures UserOk(env, u) {
      var j :| 0 <= j < |t.users| && t.users[j] == u;
      assert UserOk(env, t.users[j]);
    }
    forall b | b in t.buckets ensures BucketOk(env, b) {
      var j :| 0 <= j < |t.buckets| && t.buckets[j] == b;
      assert BucketOk(env, t.buckets[j]);
    }
  }

  // ----- distinctness of concatenations

  lemma {:induction false} DistinctConcat(a: seq<string>, b: seq<string>)
    ensures Distinct(a + b) <==> Distinct(a) && Distinct(b) && forall x :: x in a ==> x !in b
  {
    var s := a + b;
    if Distinct(s) {
      forall i, j | 0 <= i < j < |a| ensures a[i] != a[j] {
        assert s[i] != s[j];
      }
      forall i, j | 0 <= i < j < |b| ensures b[i] != b[j] {
        assert s[|a| + i] != s[|a| + j];
      }
      forall x | x in a ensures x !in b {
        var i :| 0 <= i < |a| && a[i] == x;
        forall j | 0 <= j < |b| ensures b[j] != x {
          assert s[i] != s[|a| + j];
        }
      }
    }
    if Distinct(a) && Distinct(b) && (forall x :: x in a ==> x !in b) {
      forall i, j | 0 <= i < j < |s| ensures s[i] != s[j] {
        assert i < |a| <= j ==> s[i] in a && s[j] in b;
      }
    }
  }

  function SetOf(s: seq<string>): (r: set<string>) {
    set x | x in s
  }

  // ----- what a tenant adds to the names already seen

  /** One user next to the ids already seen; its name is checked by the caller. */
  ghost predicate KeysFit(env: Env, u: User, ids: set<string>) {
    && u.keys != []
    && (forall i :: 0 <= i < |u.keys| ==> u.keys[i].id != "" && u.keys[i].secret != "")
    && Distinct(Ids(u.keys)) && SetOf(Ids(u.keys)) !! ids
    && UserPolicyOk(env, u.policy)
  }

  ghost predicate UsersFit(env: Env, users: seq<User>, ids: set<string>) {
    && (forall i :: 0 <= i < |users| ==> UserOk(env, users[i]))
    && Distinct(UserNames(users))
    && Distinct(UsersIds(users)) && SetOf(UsersIds(users)) !! ids
  }

  /** One bucket next to the names and the owners already seen. */
  ghost predicate BucketFits(env: Env, tenant: string, b: Bucket, names: set<string>, owner: map<string, string>) {
    BucketOk(env, b) && b.name !in names && (Target(b) in owner ==> owner[Target(b)] == tenant)
  }

  ghost predicate BucketsFit(
    env: Env, tenant: string, buckets: seq<Bucket>, names: set<string>, owner: map<string, string>)
  {
    && (forall i :: 0 <= i < |buckets| ==> BucketOk(env, buckets[i]))
    && Distinct(BucketNames(buckets)) && SetOf(BucketNames(buckets)) !! names
    && Agree(tenant, buckets, owner)
  }

  /** Every target that already has an owner belongs to this tenant. */
  ghost predicate Agree(tenant: string, buckets: seq<Bucket>, owner: map<string, string>) {
    forall i :: 0 <= i < |buckets| && buckets[i].backend.Some? && Target(buckets[i]) in owner ==>
      owner[Target(buckets[i])] == tenant
  }

  ghost predicate Fits(env: Env, t: Tenant, ids: set<string>, names: set<string>, owner: map<string, string>) {
    && t.users != [] && UsersFit(env, t.users, ids)
    && t.buckets != [] && BucketsFit(env, t.name, t.buckets, names, owner)
  }

  /** The owner map after a tenant's buckets: their targets belong to it, all others stay as they were. */
  ghost predicate Claimed(
    before: map<string, string>, tenant: string, buckets: seq<Bucket>, after: map<string, string>)
  {
    && (forall i :: 0 <= i < |buckets| && buckets[i].backend.Some? ==>
          Target(buckets[i]) in after && after[Target(buckets[i])] == tenant)
    && (forall x :: x in after ==>
          || (x in before && after[x] == before[x])
          || exists i :: 0 <= i < |buckets| && buckets[i].backend.Some? && Target(buckets[i]) == x)
    && (forall x :: x in before ==> x in after)
  }

  lemma {:induction false} UsersFitStep(env: Env, tenant: string, users: seq<User>, u: User, ids: set<string>)
    ensures UsersFit(env, users + [u], ids) <==>
            && UsersFit(env, users, ids) && PrincipalPart(u.name) && u.name !in UserNames(users)
            && KeysFit(env, u, ids + SetOf(UsersIds(users)))
    ensures UsersIds(users + [u]) == UsersIds(users) + Ids(u.keys)
    ensures UserNames(users + [u]) == UserNames(users) + [u.name]
    ensures UsersReports(env, tenant, users + [u]) == UsersReports(env, tenant, users) + UserReports(env, tenant, u)
  {
    hide Distinct, Ids, PrincipalPart, UserReports, UserPolicyOk;
    var all := users + [u];
    assert all[..|users|] == users && all[|users|] == u;
    assert forall i :: 0 <= i < |users| ==> all[i] == users[i];
    assert UserNames(all) == UserNames(users) + [u.name];
    DistinctConcat(UserNames(users), [u.name]);
    DistinctOne(u.name);
    DistinctConcat(UsersIds(users), Ids(u.keys));
    DisjointSets(UsersIds(users), Ids(u.keys));
    assert SetOf(UsersIds(all)) == SetOf(UsersIds(users)) + SetOf(Ids(u.keys));
  }

  lemma {:induction false} UsersFitPrefix(env: Env, users: seq<User>, i: nat, ids: set<string>)
    requires i <= |users| && UsersFit(env, users, ids)
    ensures UsersFit(env, users[..i], ids)
    decreases |users|
  {
    hide UsersFit;
    if i == |users| {
      assert users[..i] == users;
    } else {
      var front := users[..|users| - 1];
      assert users == front + [users[|users| - 1]];
      UsersFitStep(env, "", front, users[|users| - 1], ids);
      UsersFitPrefix(env, front, i, ids);
      assert front[..i] == users[..i];
    }
  }

  lemma {:induction false} DisjointSets(a: seq<string>, b: seq<string>)
    ensures SetOf(a) !! SetOf(b) <==> forall x :: x in a ==> x !in b
  {
    if SetOf(a) !! SetOf(b) {
      forall x | x in a ensures x !in b {
        assert x in SetOf(a);
        assert x !in SetOf(b);
      }
    }
  }

  lemma {:induction false} DistinctOne(x: string)
    ensures Distinct([x])
  {
  }

  lemma {:induction false} BucketsFitStep(
    env: Env, tenant: string, buckets: seq<Bucket>, b: Bucket, names: set<string>, owner: map<string, string>,
    now: map<string, string>)
    requires Claimed(owner, tenant, buckets, now)
    ensures BucketsFit(env, tenant, buckets + [b], names, owner) <==>
            && BucketsFit(env, tenant, buckets, names, owner)
            && BucketFits(env, tenant, b, names + SetOf(BucketNames(buckets)), now)
    ensures BucketNames(buckets + [b]) == BucketNames(buckets) + [b.name]
    ensures b.backend.Some? ==> Claimed(owner, tenant, buckets + [b], now[Target(b) := tenant])
    ensures BucketsReports(env, tenant, buckets + [b]) ==
            BucketsReports(env, tenant, buckets) + BucketReports(env, tenant, b)
  {
    hide Distinct, BucketOk, BucketReports;
    var all := buckets + [b];
    assert all[..|buckets|] == buckets;
    assert all[|buckets|] == b;
    assert forall i :: 0 <= i < |buckets| ==> all[i] == buckets[i];
    assert BucketNames(all) == BucketNames(buckets) + [b.name];
    DistinctConcat(BucketNames(buckets), [b.name]);
    DistinctOne(b.name);
    assert SetOf(BucketNames(all)) == SetOf(BucketNames(buckets)) + {b.name};
    BucketOkHasBackend(env, b);
    if b.backend.Some? {
      ClaimStep(owner, tenant, buckets, b, now);
    }
  }

  lemma {:induction false} BucketOkHasBackend(env: Env, b: Bucket)
    ensures BucketOk(env, b) ==> b.backend.Some?
  {
  }

  lemma {:induction false} ClaimStep(
    owner: map<string, string>, tenant: string, buckets: seq<Bucket>, b: Bucket, now: map<string, string>)
    requires Claimed(owner, tenant, buckets, now) && b.backend.Some?
    ensures Claimed(owner, tenant, buckets + [b], now[Target(b) := tenant])
    ensures Agree(tenant, buckets, owner) ==>
              ((Target(b) in now ==> now[Target(b)] == tenant) <==> (Target(b) in owner ==> owner[Target(b)] == tenant))
  {
    hide Target;
    var all := buckets + [b];
    var next := now[Target(b) := tenant];
    assert all[|buckets|] == b;
    forall x | x in next
      ensures (x in owner && next[x] == owner[x]) ||
              exists i :: 0 <= i < |all| && all[i].backend.Some? && Target(all[i]) == x
    {
      if x == Target(b) {
        assert all[|buckets|].backend.Some? && Target(all[|buckets|]) == x;
      } else if !(x in owner && now[x] == owner[x]) {
        var i :| 0 <= i < |buckets| && buckets[i].backend.Some? && Target(buckets[i]) == x;
        assert all[i] == buckets[i];
      }
    }
  }

  lemma {:induction false} BucketsFitPrefix(
    env: Env, tenant: string, buckets: seq<Bucket>, i: nat, names: set<string>, owner: map<string, string>)
    requires i <= |buckets| && BucketsFit(env, tenant, buckets, names, owner)
    ensures BucketsFit(env, tenant, buckets[..i], names, owner)
  {
    hide BucketOk, Target, Distinct;
    var front := buckets[..i];
    assert BucketNames(buckets) == BucketNames(front) + BucketNames(buckets[i..]);
    DistinctConcat(BucketNames(front), BucketNames(buckets[i..]));
    assert SetOf(BucketNames(front)) <= SetOf(BucketNames(buckets));
  }

  lemma {:induction false} RepeatedId(keys: seq<Key>, i: nat, ids: set<string>)
    requires i < |keys| && keys[i].id in ids + SetOf(Ids(keys[..i]))
    ensures !(Distinct(Ids(keys)) && SetOf(Ids(keys)) !! ids)
  {
    var all := Ids(keys);
    assert all[i] == keys[i].id;
    if keys[i].id in SetOf(Ids(keys[..i])) {
      var j :| 0 <= j < i && Ids(keys[..i])[j] == keys[i].id;
      assert all[j] == all[i];
    } else {
      assert all[i] in SetOf(all);
    }
  }

  lemma {:induction false} NoUsers(env: Env, tenant: string, ids: set<string>)
    ensures UsersFit(env, [], ids) && UsersReports(env, tenant, []) == []
    ensures SetOf(UserNames([])) == {} && SetOf(UsersIds([])) == {}
  {
  }

  /** Reading one more user: what the checks made of it mean for the prefix and for the whole list. */
  lemma {:induction false} NextUser(env: Env, tenant: string, users: seq<User>, i: nat, ids: set<string>)
    requires i < |users| && UsersFit(env, users[..i], ids)
    ensures UsersFit(env, users[..i + 1], ids) <==>
            && PrincipalPart(users[i].name) && users[i].name !in SetOf(UserNames(users[..i]))
            && KeysFit(env, users[i], ids + SetOf(UsersIds(users[..i])))
    ensures !UsersFit(env, users[..i + 1], ids) ==> !UsersFit(env, users, ids)
    ensures SetOf(UserNames(users[..i + 1])) == SetOf(UserNames(users[..i])) + {users[i].name}
    ensures SetOf(UsersIds(users[..i + 1])) == SetOf(UsersIds(users[..i])) + SetOf(Ids(users[i].keys))
    ensures UsersReports(env, tenant, users[..i + 1]) ==
            UsersReports(env, tenant, users[..i]) + UserReports(env, tenant, users[i])
  {
    hide UsersFit, UsersIds, UserNames, Ids, KeysFit, PrincipalPart, UsersReports, UserReports;
    assert users[..i + 1] == users[..i] + [users[i]];
    UsersFitStep(env, tenant, users[..i], users[i], ids);
    if UsersFit(env, users, ids) {
      UsersFitPrefix(env, users, i + 1, ids);
    }
  }

  lemma {:induction false} NoBuckets(env: Env, tenant: string, names: set<string>, owner: map<string, string>)
    ensures BucketsFit(env, tenant, [], names, owner) && Claimed(owner, tenant, [], owner)
    ensures SetOf(BucketNames([])) == {} && BucketsReports(env, tenant, []) == []
  {
  }

  lemma {:induction false} NextBucket(
    env: Env, tenant: string, buckets: seq<Bucket>, i: nat, names: set<string>, owner: map<string, string>,
    now: map<string, string>)
    requires i < |buckets| && BucketsFit(env, tenant, buckets[..i], names, owner)
    requires Claimed(owner, tenant, buckets[..i], now)
    ensures BucketsFit(env, tenant, buckets[..i + 1], names, owner) <==>
            BucketFits(env, tenant, buckets[i], names + SetOf(BucketNames(buckets[..i])), now)
    ensures !BucketsFit(env, tenant, buckets[..i + 1], names, owner) ==> !BucketsFit(env, tenant, buckets, names, owner)
    ensures SetOf(BucketNames(buckets[..i + 1])) == SetOf(BucketNames(buckets[..i])) + {buckets[i].name}
    ensures buckets[i].backend.Some? ==> Claimed(owner, tenant, buckets[..i + 1], now[Target(buckets[i]) := tenant])
    ensures BucketsReports(env, tenant, buckets[..i + 1]) ==
            BucketsReports(env, tenant, buckets[..i]) + BucketReports(env, tenant, buckets[i])
  {
    hide BucketsFit, BucketNames, Claimed, BucketsReports, BucketReports, Target, BucketFits;
    assert buckets[..i + 1] == buckets[..i] + [buckets[i]];
    BucketsFitStep(env, tenant, buckets[..i], buckets[i], names, owner, now);
    if BucketsFit(env, tenant, buckets, names, owner) {
      BucketsFitPrefix(env, tenant, buckets, i + 1, names, owner);
    }
  }

  // ----- tenant by tenant

  /** The owner map records exactly the targets of the given tenants, each under its tenant's name. */
  ghost predicate Owned(ts: seq<Tenant>, owner: map<string, string>) {
    && (forall i, b | 0 <= i < |ts| && Owns(ts[i], b) :: Target(b) in owner && owner[Target(b)] == ts[i].name)
    && (forall x | x in owner :: exists i, b :: 0 <= i < |ts| && Owns(ts[i], b) && Target(b) == x)
  }

  lemma {:induction false} OwnedStep(ts: seq<Tenant>, t: Tenant, owner: map<string, string>, next: map<string, string>)
    requires Owned(ts, owner) && Agree(t.name, t.buckets, owner) && Claimed(owner, t.name, t.buckets, next)
    ensures Owned(ts + [t], next)
  {
    hide Target;
    var all := ts + [t];
    assert all[|ts|] == t;
    forall i, b | 0 <= i < |all| && Owns(all[i], b)
      ensures Target(b) in next && next[Target(b)] == all[i].name
    {
      if i < |ts| {
        assert Owns(ts[i], b) && owner[Target(b)] == ts[i].name;
      }
    }
    forall x | x in next
      ensures exists i, b :: 0 <= i < |all| && Owns(all[i], b) && Target(b) == x
    {
      if x in owner {
        var i, b :| 0 <= i < |ts| && Owns(ts[i], b) && Target(b) == x;
        assert Owns(all[i], b);
      } else {
        var i :| 0 <= i < |t.buckets| && t.buckets[i].backend.Some? && Target(t.buckets[i]) == x;
        assert Owns(all[|ts|], t.buckets[i]);
      }
    }
  }

  lemma {:induction false} UnsharedStep(ts: seq<Tenant>, t: Tenant, owner: map<string, string>)
    requires Owned(ts, owner)
    ensures Unshared(ts + [t]) <==> Unshared(ts) && Agree(t.name, t.buckets, owner)
  {
    hide Unshared, Agree, Owned;
    if Unshared(ts + [t]) {
      UnsharedFront(ts, t);
      UnsharedAgree(ts, t, owner);
    }
    if Agree(t.name, t.buckets, owner) {
      AgreeUnshared(ts, t, owner);
    }
  }

  lemma {:induction false} UnsharedAgree(ts: seq<Tenant>, t: Tenant, owner: map<string, string>)
    requires Owned(ts, owner) && Unshared(ts + [t])
    ensures Agree(t.name, t.buckets, owner)
  {
    hide Target;
    var all := ts + [t];
    assert all[|ts|] == t;
    forall k | 0 <= k < |t.buckets| && t.buckets[k].backend.Some? && Target(t.buckets[k]) in owner
      ensures owner[Target(t.buckets[k])] == t.name
    {
      var i, b :| 0 <= i < |ts| && Owns(ts[i], b) && Target(b) == Target(t.buckets[k]);
      assert Owns(all[i], b) && Owns(all[|ts|], t.buckets[k]);
    }
  }

  lemma {:induction false} AgreeUnshared(ts: seq<Tenant>, t: Tenant, owner: map<string, string>)
    requires Owned(ts, owner) && Agree(t.name, t.buckets, owner)
    ensures Unshared(ts + [t])
  {
    hide Target, Owned, Agree;
    var all := ts + [t];
    forall i, j, a, b | 0 <= i < |all| && 0 <= j < |all| && Owns(all[i], a) && Owns(all[j], b) && Target(a) == Target(b)
      ensures all[i].name == all[j].name
    {
      OwnerOf(ts, t, owner, i, a);
      OwnerOf(ts, t, owner, j, b);
    }
  }

  lemma {:induction false} OwnerOf(ts: seq<Tenant>, t: Tenant, owner: map<string, string>, i: nat, b: Bucket)
    requires Owned(ts, owner) && Agree(t.name, t.buckets, owner)
    requires i <= |ts| && Owns((ts + [t])[i], b)
    ensures i < |ts| ==> Target(b) in owner
    ensures Target(b) in owner ==> owner[Target(b)] == (ts + [t])[i].name
  {
    hide Target;
    if i < |ts| {
      assert Owns(ts[i], b);
    }
  }

  lemma {:induction false} UnsharedFront(ts: seq<Tenant>, t: Tenant)
    requires Unshared(ts + [t])
    ensures Unshared(ts)
  {
    hide Target;
    var all := ts + [t];
    forall i, j, a, b | 0 <= i < |ts| && 0 <= j < |ts| && Owns(ts[i], a) && Owns(ts[j], b) && Target(a) == Target(b)
      ensures ts[i].name == ts[j].name
    {
      assert Owns(all[i], a) && Owns(all[j], b);
    }
  }

  /** The names, ids and bucket names of one more tenant. */
  lemma {:induction false} NamesStep(ts: seq<Tenant>, t: Tenant)
    ensures TenantNames(ts + [t]) == TenantNames(ts) + [t.name]
    ensures AllIds(ts + [t]) == AllIds(ts) + UsersIds(t.users)
    ensures AllBucketNames(ts + [t]) == AllBucketNames(ts) + BucketNames(t.buckets)
    ensures Distinct(TenantNames(ts + [t])) <==> Distinct(TenantNames(ts)) && t.name !in TenantNames(ts)
    ensures Distinct(AllIds(ts + [t])) <==>
            Distinct(AllIds(ts)) && Distinct(UsersIds(t.users)) && SetOf(UsersIds(t.users)) !! SetOf(AllIds(ts))
    ensures Distinct(AllBucketNames(ts + [t])) <==>
            && Distinct(AllBucketNames(ts)) && Distinct(BucketNames(t.buckets))
            && SetOf(BucketNames(t.buckets)) !! SetOf(AllBucketNames(ts))
  {
    hide Distinct, UsersIds, BucketNames, SetOf;
    var all := ts + [t];
    assert all[..|ts|] == ts && all[|ts|] == t;
    assert TenantNames(all) == TenantNames(ts) + [t.name];
    DistinctConcat(TenantNames(ts), [t.name]);
    DistinctOne(t.name);
    DistinctConcat(AllIds(ts), UsersIds(t.users));
    DisjointSets(AllIds(ts), UsersIds(t.users));
    DistinctConcat(AllBucketNames(ts), BucketNames(t.buckets));
    DisjointSets(AllBucketNames(ts), BucketNames(t.buckets));
  }

  /** What accepting one more tenant means for the whole configuration read so far. */
  lemma {:induction false} SoundStep(env: Env, ts: seq<Tenant>, t: Tenant, owner: map<string, string>)
    requires Owned(ts, owner)
    ensures Sound(env, ts + [t]) <==>
            && Sound(env, ts) && PrincipalPart(t.name) && t.name !in TenantNames(ts)
            && Fits(env, t, SetOf(AllIds(ts)), SetOf(AllBucketNames(ts)), owner)
  {
    hide Distinct, SetOf, UsersIds, BucketNames, UserNames, TenantNames, AllIds, AllBucketNames, Unshared, Owned,
         Agree, PrincipalPart, UserOk, BucketOk;
    NamesStep(ts, t);
    UnsharedStep(ts, t, owner);
    EachOk(env, ts, t);
  }

  lemma {:induction false} EachOk(env: Env, ts: seq<Tenant>, t: Tenant)
    ensures (forall i :: 0 <= i < |ts + [t]| ==> TenantOk(env, (ts + [t])[i])) <==>
            (forall i :: 0 <= i < |ts| ==> TenantOk(env, ts[i])) && TenantOk(env, t)
  {
    hide TenantOk;
    var all := ts + [t];
    assert all[|ts|] == t;
    assert forall i :: 0 <= i < |ts| ==> all[i] == ts[i];
  }

  lemma {:induction false} SoundPrefix(env: Env, ts: seq<Tenant>, i: nat)
    requires i <= |ts| && Sound(env, ts)
    ensures Sound(env, ts[..i])
    decreases |ts|
  {
    hide Distinct, Unshared, TenantOk, TenantNames, AllIds, AllBucketNames;
    if i == |ts| {
      assert ts[..i] == ts;
    } else {
      var front, t := ts[..|ts| - 1], ts[|ts| - 1];
      assert ts == front + [t];
      NamesStep(front, t);
      UnsharedFront(front, t);
      EachOk(env, front, t);
      SoundPrefix(env, front, i);
      assert front[..i] == ts[..i];
    }
  }

  // ----- the validator

  /** What must be unique across all tenants while a configuration is validated. */
  class Names {
    var bucketNames: set<string>
    var keyIds: set<string>
    var backendOwner: map<string, string>
    var unknownActions: seq<Report>

    constructor ()
      ensures bucketNames == {} && keyIds == {} && backendOwner == map[] && unknownActions == []
    {
      bucketNames, keyIds, backendOwner, unknownActions := {}, {}, map[], [];
    }

    method ValidateUser(env: Env, tenant: string, u: User) returns (ok: bool)
      modifies this`keyIds, this`unknownActions
      ensures ok <==> KeysFit(env, u, old(keyIds))
      ensures ok ==> keyIds == old(keyIds) + SetOf(Ids(u.keys))
      ensures ok ==> unknownActions == old(unknownActions) + UserReports(env, tenant, u)
    {
      if |u.keys| == 0 {
        return false;
      }
      for i := 0 to |u.keys|
        invariant keyIds == old(keyIds) + SetOf(Ids(u.keys[..i]))
        invariant unknownActions == old(unknownActions)
        invariant Distinct(Ids(u.keys[..i])) && SetOf(Ids(u.keys[..i])) !! old(keyIds)
        invariant forall j :: 0 <= j < i ==> u.keys[j].id != "" && u.keys[j].secret != ""
      {
        var k := u.keys[i];
        assert Ids(u.keys[..i + 1]) == Ids(u.keys[..i]) + [k.id];
        DistinctConcat(Ids(u.keys[..i]), [k.id]);
        if k.id == "" || k.secret == "" {
          return false;
        }
        if k.id in keyIds {
          RepeatedId(u.keys, i, old(keyIds));
          return false;
        }
        keyIds := keyIds + {k.id};
      }
      assert u.keys[..|u.keys|] == u.keys;
      if |u.policy| == 0 {
        assert UserReports(env, tenant, u) == [];
        return true;
      }
      var valid, errs := ValidateUserPolicy(u.policy, Some(env.actions));
      if !valid {
        return false;
      }
      unknownActions := unknownActions +
        seq(|errs|, i requires 0 <= i < |errs| => InUserPolicy(tenant, u.name, errs[i]));
      return env.serializedSize(u.policy) <= MAX_POLICY_BYTES;
    }

    /** Unknown actions are set aside, every other failure stands. */
    method SplitUnknownActions(p: Result, tenant: string, bucket: string) returns (ok: bool)
      modifies this`unknownActions
      ensures ok == !p.Malformed?
      ensures unknownActions == old(unknownActions) +
        (if p.UnknownActions?
         then seq(|p.errors|, i requires 0 <= i < |p.errors| => InBucketPolicy(tenant, bucket, p.errors[i]))
         else [])
    {
      if p.UnknownActions? {
        unknownActions := unknownActions +
          seq(|p.errors|, i requires 0 <= i < |p.errors| => InBucketPolicy(tenant, bucket, p.errors[i]));
      }
      return !p.Malformed?;
    }

    method ValidateBucket(env: Env, tenant: string, b: Bucket) returns (ok: bool)
      modifies this`bucketNames, this`backendOwner, this`unknownActions
      ensures ok <==> BucketFits(env, tenant, b, old(bucketNames), old(backendOwner))
      ensures ok ==> bucketNames == old(bucketNames) + {b.name}
      ensures ok ==> backendOwner == old(backendOwner)[Target(b) := tenant]
      ensures ok ==> unknownActions == old(unknownActions) + BucketReports(env, tenant, b)
    {
      if !BucketName(b.name) || b.name in bucketNames {
        return false;
      }
      bucketNames := bucketNames + {b.name};
      if b.backend.None? || !BackendOk(env, b.backend.value) {
        return false;
      }
      var target := Target(b);
      if target in backendOwner && backendOwner[target] != tenant {
        return false;
      }
      backendOwner := backendOwner[target := tenant];
      if b.policyText != "" {
        var p := Parse(env.decode, b.name, b.policyText, Some(env.actions));
        ok := SplitUnknownActions(p, tenant, b.name);
        if !ok {
          return;
        }
      }
      assert unknownActions == old(unknownActions) + BucketReports(env, tenant, b);
      for i := 0 to |b.cors|
        invariant forall j :: 0 <= j < i ==> env.corsOk(b.cors[j])
      {
        if !env.corsOk(b.cors[i]) {
          return false;
        }
      }
      return true;
    }

    method ValidateUsers(env: Env, tenant: string, users: seq<User>) returns (ok: bool)
      modifies this`keyIds, this`unknownActions
      ensures ok <==> users != [] && UsersFit(env, users, old(keyIds))
      ensures ok ==> keyIds == old(keyIds) + SetOf(UsersIds(users))
      ensures ok ==> unknownActions == old(unknownActions) + UsersReports(env, tenant, users)
    {
      hide UsersFit, UsersIds, UserNames, Ids, KeysFit, PrincipalPart, UsersReports, UserReports, SetOf;
      if |users| == 0 {
        return false;
      }
      NoUsers(env, tenant, old(keyIds));
      var seen: set<string> := {};
      for i := 0 to |users|
        invariant seen == SetOf(UserNames(users[..i]))
        invariant UsersFit(env, users[..i], old(keyIds))
        invariant keyIds == old(keyIds) + SetOf(UsersIds(users[..i]))
        invariant unknownActions == old(unknownActions) + UsersReports(env, tenant, users[..i])
      {
        var u := users[i];
        NextUser(env, tenant, users, i, old(keyIds));
        if !PrincipalPart(u.name) {
          return false;
        }
        if u.name in seen {
          return false;
        }
        seen := seen + {u.name};
        ok := ValidateUser(env, tenant, u);
        if !ok {
          return;
        }
      }
      assert users[..|users|] == users;
      return true;
    }

    method ValidateBuckets(env: Env, tenant: string, buckets: seq<Bucket>) returns (ok: bool)
      modifies this`bucketNames, this`backendOwner, this`unknownActions
      ensures ok <==> buckets != [] && BucketsFit(env, tenant, buckets, old(bucketNames), old(backendOwner))
      ensures ok ==> bucketNames == old(bucketNames) + SetOf(BucketNames(buckets))
      ensures ok ==> Claimed(old(backendOwner), tenant, buckets, backendOwner)
      ensures ok ==> unknownActions == old(unknownActions) + BucketsReports(env, tenant, buckets)
    {
      hide BucketsFit, BucketNames, Claimed, BucketsReports, BucketReports, Target, SetOf, BucketName, BackendOk;
      if |buckets| == 0 {
        return false;
      }
      NoBuckets(env, tenant, bucketNames, backendOwner);
      for i := 0 to |buckets|
        invariant BucketsFit(env, tenant, buckets[..i], old(bucketNames), old(backendOwner))
        invariant bucketNames == old(bucketNames) + SetOf(BucketNames(buckets[..i]))
        invariant Claimed(old(backendOwner), tenant, buckets[..i], backendOwner)
        invariant unknownActions == old(unknownActions) + BucketsReports(env, tenant, buckets[..i])
      {
        NextBucket(env, tenant, buckets, i, old(bucketNames), old(backendOwner), backendOwner);
        ok := ValidateBucket(env, tenant, buckets[i]);
        if !ok {
          return;
        }
      }
      assert buckets[..|buckets|] == buckets;
      return true;
    }

    method ValidateTenant(env: Env, t: Tenant) returns (ok: bool)
      modifies this
      ensures ok <==> Fits(env, t, old(keyIds), old(bucketNames), old(backendOwner))
      ensures ok ==> keyIds == old(keyIds) + SetOf(UsersIds(t.users))
      ensures ok ==> bucketNames == old(bucketNames) + SetOf(BucketNames(t.buckets))
      ensures ok ==> Claimed(old(backendOwner), t.name, t.buckets, backendOwner)
      ensures ok ==> unknownActions == old(unknownActions) + TenantReports(env, t)
    {
      hide UsersFit, BucketsFit, Claimed, UsersIds, BucketNames, UsersReports, BucketsReports;
      ok := ValidateUsers(env, t.name, t.users);
      if ok {
        ok := ValidateBuckets(env, t.name, t.buckets);
      }
    }
  }

  datatype Verdict = Invalid | Warned(reports: seq<Report>) | Valid

  /**
   The verdict on a whole configuration. It is invalid exactly when the configuration is unsound; unknown
   actions are reported only when everything else is sound, so a caller may downgrade them to a warning.
   */
  method Validate(env: Env, c: Config) returns (v: Verdict)
    ensures v != Invalid <==> c.tenants != [] && BreakerOk(c.breaker) && Sound(env, c.tenants)
    ensures v != Invalid ==> v == var all := AllReports(env, c.tenants); if all == [] then Valid else Warned(all)
  {
    hide *;
    if |c.tenants| == 0 {
      return Invalid;
    }
    if !BreakerOk(c.breaker) {
      return Invalid;
    }
    NothingYet(env);
    var tenantNames: set<string> := {};
    var seen := new Names();
    for i := 0 to |c.tenants|
      invariant Reached(env, c.tenants[..i], tenantNames, seen.keyIds, seen.bucketNames, seen.backendOwner)
      invariant seen.unknownActions == AllReports(env, c.tenants[..i])
    {
      var t := c.tenants[i];
      Refused(env, c.tenants, i, tenantNames, seen.keyIds, seen.bucketNames, seen.backendOwner);
      if !PrincipalPart(t.name) {
        return Invalid;
      }
      if t.name in tenantNames {
        return Invalid;
      }
      ghost var names, ids, buckets, owner := tenantNames, seen.keyIds, seen.bucketNames, seen.backendOwner;
      tenantNames := tenantNames + {t.name};
      var ok := seen.ValidateTenant(env, t);
      if !ok {
        return Invalid;
      }
      Accepted(env, c.tenants, i, names, ids, buckets, owner, seen.backendOwner);
    }
    ReachedAll(env, c.tenants, tenantNames, seen.keyIds, seen.bucketNames, seen.backendOwner);
    return if seen.unknownActions == [] then Valid else Warned(seen.unknownActions);
  }

  /** What the validator knows after the given tenants: they are sound, and everything they use is recorded. */
  ghost predicate Reached(
    env: Env, ts: seq<Tenant>, names: set<string>, ids: set<string>, buckets: set<string>, owner: map<string, string>) {
    && names == SetOf(TenantNames(ts))
    && ids == SetOf(AllIds(ts))
    && buckets == SetOf(AllBucketNames(ts))
    && Owned(ts, owner)
    && Sound(env, ts)
  }

  lemma {:induction false} NothingYet(env: Env)
    ensures Reached(env, [], {}, {}, {}, map[]) && AllReports(env, []) == []
  {
  }

  lemma {:induction false} ReachedAll(
    env: Env, ts: seq<Tenant>, names: set<string>, ids: set<string>, buckets: set<string>, owner: map<string, string>)
    requires Reached(env, ts[..|ts|], names, ids, buckets, owner)
    ensures Sound(env, ts)
    ensures AllReports(env, ts[..|ts|]) == AllReports(env, ts)
  {
    hide Sound, TenantReports;
    assert ts[..|ts|] == ts;
  }

  /** A tenant the checks refuse makes the whole configuration unsound. */
  lemma {:induction false} Refused(
    env: Env, ts: seq<Tenant>, i: nat, names: set<string>, ids: set<string>, buckets: set<string>,
    owner: map<string, string>)
    requires i < |ts| && Reached(env, ts[..i], names, ids, buckets, owner)
    ensures !(PrincipalPart(ts[i].name) && ts[i].name !in names && Fits(env, ts[i], ids, buckets, owner)) ==>
              !Sound(env, ts)
  {
    hide Sound, Owned, TenantNames, AllIds, AllBucketNames, PrincipalPart, Fits;
    assert ts[..i + 1] == ts[..i] + [ts[i]];
    SoundStep(env, ts[..i], ts[i], owner);
    if Sound(env, ts) {
      SoundPrefix(env, ts, i + 1);
    }
  }

  lemma {:induction false} Accepted(
    env: Env, ts: seq<Tenant>, i: nat, names: set<string>, ids: set<string>, buckets: set<string>,
    owner: map<string, string>,
    next: map<string, string>)
    requires i < |ts| && Reached(env, ts[..i], names, ids, buckets, owner)
    requires PrincipalPart(ts[i].name) && ts[i].name !in names && Fits(env, ts[i], ids, buckets, owner)
    requires Claimed(owner, ts[i].name, ts[i].buckets, next)
    ensures Reached(env, ts[..i + 1], names + {ts[i].name}, ids + SetOf(UsersIds(ts[i].users)),
                    buckets + SetOf(BucketNames(ts[i].buckets)), next)
    ensures AllReports(env, ts[..i + 1]) == AllReports(env, ts[..i]) + TenantReports(env, ts[i])
  {
    hide TenantReports, Sound, Owned, TenantNames, AllIds, AllBucketNames, PrincipalPart, Fits, Claimed, UsersIds,
         BucketNames;
    var t := ts[i];
    assert ts[..i + 1] == ts[..i] + [t] && ts[..i + 1][..i] == ts[..i];
    NamesStep(ts[..i], t);
    SoundStep(env, ts[..i], t, owner);
    FitsAgree(env, t, ids, buckets, owner);
    OwnedStep(ts[..i], t, owner, next);
  }

  lemma {:induction false} FitsAgree(
    env: Env, t: Tenant, ids: set<string>, names: set<string>, owner: map<string, string>)
    requires Fits(env, t, ids, names, owner)
    ensures Agree(t.name, t.buckets, owner)
  {
  }
}

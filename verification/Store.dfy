/**
 The store built from a static configuration (store.go): three maps filled in nested loops, which on an
 accepted configuration answer every lookup as a search through the configuration would.
 */
module Store {
  import opened Text
  import opened Ordering
  import Authorization
  import Config
  import Glob
  import Policy
  import PolicyParse

  datatype Key = Key(id: string, secret: string, tenant: string, user: string, policy: Option<Policy.UserDocument>)

  datatype Bucket = Bucket(
    tenant: string, name: string, backend: Option<Config.Backend>, policyText: string, cors: seq<string>,
    policy: Option<Policy.Document>)

  datatype ConfigStore = ConfigStore(
    keys: map<string, Key>, tenants: map<string, map<string, Bucket>>, byName: map<string, Bucket>)
  {
    function GetKey(id: string): (k: Option<Key>) {
      if id in keys then Some(keys[id]) else None
    }

    function GetBucket(tenant: string, name: string): (b: Option<Bucket>) {
      if tenant in tenants && name in tenants[tenant] then Some(tenants[tenant][name]) else None
    }

    function GetBucketByName(name: string): (b: Option<Bucket>) {
      if name in byName then Some(byName[name]) else None
    }
  }

  // ----- maps filled row by row

  function Index<T>(rows: seq<(string, T)>): (m: map<string, T>) {
    if rows == [] then map[] else Index(rows[..|rows| - 1])[rows[|rows| - 1].0 := rows[|rows| - 1].1]
  }

  function Labels<T>(rows: seq<(string, T)>): (s: seq<string>) {
    seq(|rows|, i requires 0 <= i < |rows| => rows[i].0)
  }

  lemma {:induction false} IndexAppend<T>(rows: seq<(string, T)>, k: string, v: T)
    ensures Index(rows + [(k, v)]) == Index(rows)[k := v]
  {
    assert (rows + [(k, v)])[..|rows|] == rows;
  }

  /** With distinct labels no row overwrites another. */
  lemma {:induction false} IndexIff<T>(rows: seq<(string, T)>, k: string, v: T)
    requires Distinct(Labels(rows))
    ensures k in Index(rows) && Index(rows)[k] == v <==> (k, v) in rows
  {
    if rows != [] {
      var front, last := rows[..|rows| - 1], rows[|rows| - 1];
      assert rows == front + [last];
      assert Labels(rows) == Labels(front) + [last.0];
      Config.DistinctConcat(Labels(front), [last.0]);
      IndexIff(front, k, v);
      if (k, v) in front {
        var i :| 0 <= i < |front| && front[i] == (k, v);
        assert Labels(front)[i] == k;
        assert k !in [last.0];
      }
    }
  }

  // ----- the rows of a configuration

  function UserPolicy(u: Config.User): (p: Option<Policy.UserDocument>) {
    if |u.policy| > 0 then Some(u.policy) else None
  }

  function KeyOf(t: Config.Tenant, u: Config.User, k: Config.Key): (r: Key) {
    Key(k.id, k.secret, t.name, u.name, UserPolicy(u))
  }

  function UserRows(t: Config.Tenant, u: Config.User, keys: seq<Config.Key>): (rows: seq<(string, Key)>) {
    seq(|keys|, i requires 0 <= i < |keys| => (keys[i].id, KeyOf(t, u, keys[i])))
  }

  function UsersRows(t: Config.Tenant, users: seq<Config.User>): (rows: seq<(string, Key)>) {
    if users == [] then []
    else UsersRows(t, users[..|users| - 1]) + UserRows(t, users[|users| - 1], users[|users| - 1].keys)
  }

  function KeyRows(ts: seq<Config.Tenant>): (rows: seq<(string, Key)>) {
    if ts == [] then [] else KeyRows(ts[..|ts| - 1]) + UsersRows(ts[|ts| - 1], ts[|ts| - 1].users)
  }

  /** Parsed without the check of the actions, which may have been accepted with a warning. */
  function Unchecked(env: Config.Env, b: Config.Bucket): (r: PolicyParse.Result) {
    PolicyParse.ParseOf(env.decode, b.name, b.policyText, None)
  }

  predicate Parses(env: Config.Env, b: Config.Bucket) {
    b.policyText == "" || Unchecked(env, b).Ok?
  }

  function BucketPolicy(env: Config.Env, b: Config.Bucket): (p: Option<Policy.Document>) {
    if b.policyText != "" && Parses(env, b) then Some(Unchecked(env, b).document) else None
  }

  function BucketOf(env: Config.Env, tenant: string, b: Config.Bucket): (r: Bucket) {
    Bucket(tenant, b.name, b.backend, b.policyText, b.cors, BucketPolicy(env, b))
  }

  function BucketRows(env: Config.Env, tenant: string, buckets: seq<Config.Bucket>): (rows: seq<(string, Bucket)>) {
    seq(|buckets|, i requires 0 <= i < |buckets| => (buckets[i].name, BucketOf(env, tenant, buckets[i])))
  }

  function AllBucketRows(env: Config.Env, ts: seq<Config.Tenant>): (rows: seq<(string, Bucket)>) {
    if ts == [] then []
    else AllBucketRows(env, ts[..|ts| - 1]) + BucketRows(env, ts[|ts| - 1].name, ts[|ts| - 1].buckets)
  }

  function TenantRows(env: Config.Env, ts: seq<Config.Tenant>): (rows: seq<(string, map<string, Bucket>)>) {
    seq(|ts|, i requires 0 <= i < |ts| => (ts[i].name, Index(BucketRows(env, ts[i].name, ts[i].buckets))))
  }

  function StoreOf(env: Config.Env, ts: seq<Config.Tenant>): (s: ConfigStore) {
    ConfigStore(Index(KeyRows(ts)), Index(TenantRows(env, ts)), Index(AllBucketRows(env, ts)))
  }

  /** Every policy of the configuration parses. */
  ghost predicate AllParse(env: Config.Env, ts: seq<Config.Tenant>) {
    forall i, b | 0 <= i < |ts| && b in ts[i].buckets :: Parses(env, b)
  }

  // ----- building the maps

  /** The buckets of one tenant go into the tenant's own map and into the global one. */
  method AddBuckets(env: Config.Env, t: Config.Tenant, byName: map<string, Bucket>, ghost rows: seq<(string, Bucket)>)
    returns (own: map<string, Bucket>, all: map<string, Bucket>, ok: bool)
    requires byName == Index(rows)
    ensures ok <==> forall b | b in t.buckets :: Parses(env, b)
    ensures ok ==> own == Index(BucketRows(env, t.name, t.buckets))
    ensures ok ==> all == Index(rows + BucketRows(env, t.name, t.buckets))
  {
    hide Index, BucketRows;
    NoBucketRows(env, t, rows);
    own, all := map[], byName;
    for i := 0 to |t.buckets|
      invariant own == Index(BucketRows(env, t.name, t.buckets[..i]))
      invariant all == Index(rows + BucketRows(env, t.name, t.buckets[..i]))
      invariant forall b | b in t.buckets[..i] :: Parses(env, b)
    {
      var b := t.buckets[i];
      var bucket := Bucket(t.name, b.name, b.backend, b.policyText, b.cors, None);
      if b.policyText != "" {
        var p := PolicyParse.Parse(env.decode, b.name, b.policyText, None);
        if !p.Ok? {
          assert b in t.buckets && !Parses(env, b);
          return own, all, false;
        }
        bucket := bucket.(policy := Some(p.document));
      }
      BucketRow(env, t, i, rows, bucket);
      own := own[b.name := bucket];
      all := all[b.name := bucket];
    }
    assert t.buckets[..|t.buckets|] == t.buckets;
    ok := true;
  }

  lemma {:induction false} NoBucketRows(env: Config.Env, t: Config.Tenant, rows: seq<(string, Bucket)>)
    ensures Index(BucketRows(env, t.name, t.buckets[..0])) == map[]
    ensures rows + BucketRows(env, t.name, t.buckets[..0]) == rows
  {
  }

  lemma {:induction false} BucketRow(
    env: Config.Env, t: Config.Tenant, i: nat, rows: seq<(string, Bucket)>, bucket: Bucket)
    requires i < |t.buckets| && bucket == BucketOf(env, t.name, t.buckets[i])
    ensures Index(BucketRows(env, t.name, t.buckets[..i + 1])) ==
            Index(BucketRows(env, t.name, t.buckets[..i]))[t.buckets[i].name := bucket]
    ensures Index(rows + BucketRows(env, t.name, t.buckets[..i + 1])) ==
            Index(rows + BucketRows(env, t.name, t.buckets[..i]))[t.buckets[i].name := bucket]
  {
    hide BucketOf, Index;
    var before, row := BucketRows(env, t.name, t.buckets[..i]), (t.buckets[i].name, bucket);
    assert BucketRows(env, t.name, t.buckets[..i + 1]) == before + [row];
    IndexAppend(before, row.0, row.1);
    assert rows + (before + [row]) == (rows + before) + [row];
    IndexAppend(rows + before, row.0, row.1);
  }

  method AddUserKeys(t: Config.Tenant, u: Config.User, keys: map<string, Key>, ghost rows: seq<(string, Key)>)
    returns (r: map<string, Key>)
    requires keys == Index(rows)
    ensures r == Index(rows + UserRows(t, u, u.keys))
  {
    hide Index;
    var policy: Option<Policy.UserDocument> := None;
    if |u.policy| > 0 {
      policy := Some(u.policy);
    }
    r := keys;
    assert rows + UserRows(t, u, u.keys[..0]) == rows;
    for i := 0 to |u.keys|
      invariant r == Index(rows + UserRows(t, u, u.keys[..i]))
    {
      var k := u.keys[i];
      var key := Key(k.id, k.secret, t.name, u.name, policy);
      assert rows + UserRows(t, u, u.keys[..i + 1]) == (rows + UserRows(t, u, u.keys[..i])) + [(k.id, key)];
      IndexAppend(rows + UserRows(t, u, u.keys[..i]), k.id, key);
      r := r[k.id := key];
    }
    assert u.keys[..|u.keys|] == u.keys;
  }

  method AddKeys(t: Config.Tenant, keys: map<string, Key>, ghost rows: seq<(string, Key)>) returns (r: map<string, Key>)
    requires keys == Index(rows)
    ensures r == Index(rows + UsersRows(t, t.users))
  {
    hide Index, UserRows;
    r := keys;
    assert rows + [] == rows;
    for i := 0 to |t.users|
      invariant r == Index(rows + UsersRows(t, t.users[..i]))
    {
      var u := t.users[i];
      assert t.users[..i + 1][..i] == t.users[..i];
      assert rows + UsersRows(t, t.users[..i + 1]) == (rows + UsersRows(t, t.users[..i])) + UserRows(t, u, u.keys);
      r := AddUserKeys(t, u, r, rows + UsersRows(t, t.users[..i]));
    }
    assert t.users[..|t.users|] == t.users;
  }

  /** None stands for the panic on a policy that does not parse. */
  method NewConfigStore(env: Config.Env, ts: seq<Config.Tenant>) returns (r: Option<ConfigStore>)
    ensures r.Some? <==> AllParse(env, ts)
    ensures r.Some? ==> r.value == StoreOf(env, ts)
  {
    hide Index, BucketRows, UsersRows, Parses;
    NoRows(env);
    var keys, tenants, byName := map[], map[], map[];
    for i := 0 to |ts|
      invariant keys == Index(KeyRows(ts[..i]))
      invariant tenants == Index(TenantRows(env, ts[..i]))
      invariant byName == Index(AllBucketRows(env, ts[..i]))
      invariant AllParse(env, ts[..i])
    {
      var t := ts[i];
      TenantRow(env, ts, i);
      var own, all, ok := AddBuckets(env, t, byName, AllBucketRows(env, ts[..i]));
      if !ok {
        return None;
      }
      byName := all;
      tenants := tenants[t.name := own];
      keys := AddKeys(t, keys, KeyRows(ts[..i]));
    }
    assert ts[..|ts|] == ts;
    return Some(ConfigStore(keys, tenants, byName));
  }

  lemma {:induction false} NoRows(env: Config.Env)
    ensures Index(KeyRows([])) == map[] && Index(TenantRows(env, [])) == map[] && Index(AllBucketRows(env, [])) == map[]
  {
  }

  lemma {:induction false} TenantRow(env: Config.Env, ts: seq<Config.Tenant>, i: nat)
    requires i < |ts|
    ensures KeyRows(ts[..i + 1]) == KeyRows(ts[..i]) + UsersRows(ts[i], ts[i].users)
    ensures AllBucketRows(env, ts[..i + 1]) == AllBucketRows(env, ts[..i]) + BucketRows(env, ts[i].name, ts[i].buckets)
    ensures Index(TenantRows(env, ts[..i + 1])) ==
            Index(TenantRows(env, ts[..i]))[ts[i].name := Index(BucketRows(env, ts[i].name, ts[i].buckets))]
  {
    hide Index, BucketRows, UsersRows;
    var own := Index(BucketRows(env, ts[i].name, ts[i].buckets));
    assert ts[..i + 1][..i] == ts[..i];
    assert TenantRows(env, ts[..i + 1]) == TenantRows(env, ts[..i]) + [(ts[i].name, own)];
    IndexAppend(TenantRows(env, ts[..i]), ts[i].name, own);
  }

  // ----- an accepted configuration

  /** Building the store from an accepted configuration never panics. */
  lemma {:induction false} SoundNeverPanics(env: Config.Env, ts: seq<Config.Tenant>)
    requires Config.Sound(env, ts)
    ensures AllParse(env, ts)
  {
    forall i, b | 0 <= i < |ts| && b in ts[i].buckets ensures Parses(env, b) {
      assert Config.TenantOk(env, ts[i]);
      var j :| 0 <= j < |ts[i].buckets| && ts[i].buckets[j] == b;
      assert Config.BucketOk(env, ts[i].buckets[j]);
      PolicyParse.CheckerOnlyReports(env.decode, b.name, b.policyText, env.actions);
    }
  }

  lemma {:induction false} UsersLabels(t: Config.Tenant, users: seq<Config.User>)
    ensures Labels(UsersRows(t, users)) == Config.UsersIds(users)
  {
    if users != [] {
      UsersLabels(t, users[..|users| - 1]);
      LabelsConcat(UsersRows(t, users[..|users| - 1]), UserRows(t, users[|users| - 1], users[|users| - 1].keys));
    }
  }

  lemma {:induction false} LabelsConcat<T>(a: seq<(string, T)>, b: seq<(string, T)>)
    ensures Labels(a + b) == Labels(a) + Labels(b)
  {
  }

  lemma {:induction false} RowLabels(env: Config.Env, ts: seq<Config.Tenant>)
    ensures Labels(KeyRows(ts)) == Config.AllIds(ts)
    ensures Labels(AllBucketRows(env, ts)) == Config.AllBucketNames(ts)
    ensures Labels(TenantRows(env, ts)) == Config.TenantNames(ts)
  {
    hide UsersRows, Index;
    if ts != [] {
      var front, t := ts[..|ts| - 1], ts[|ts| - 1];
      RowLabels(env, front);
      UsersLabels(t, t.users);
      LabelsConcat(KeyRows(front), UsersRows(t, t.users));
      LabelsConcat(AllBucketRows(env, front), BucketRows(env, t.name, t.buckets));
    }
  }

  /** The key is the user's, with the user's identity and policy; an empty policy is none. */
  predicate KeyDescribes(k: Key, t: Config.Tenant, u: Config.User, c: Config.Key) {
    && k.id == c.id && k.secret == c.secret && k.tenant == t.name && k.user == u.name
    && (if u.policy == [] then k.policy.None? else k.policy == Some(u.policy))
  }

  /** Some user of some tenant holds this key. */
  ghost predicate HoldsKey(ts: seq<Config.Tenant>, k: Key) {
    exists t, u, c :: t in ts && u in t.users && c in u.keys && KeyDescribes(k, t, u, c)
  }

  /** The bucket is as the tenant defined it, with the policy its text decodes to; an empty text is none. */
  predicate BucketDescribes(env: Config.Env, b: Bucket, t: Config.Tenant, c: Config.Bucket) {
    && b.tenant == t.name && b.name == c.name && b.backend == c.backend && b.cors == c.cors
    && b.policyText == c.policyText
    && (if c.policyText == "" then b.policy.None?
        else env.decode(c.policyText).Some? && b.policy == Some(env.decode(c.policyText).value.statements))
  }

  /** Some tenant has this bucket. */
  ghost predicate HasBucket(env: Config.Env, ts: seq<Config.Tenant>, b: Bucket) {
    exists t, c :: t in ts && c in t.buckets && BucketDescribes(env, b, t, c)
  }

  /** The store built this bucket. */
  ghost predicate Built(env: Config.Env, ts: seq<Config.Tenant>, b: Bucket) {
    exists t, c :: t in ts && c in t.buckets && b == BucketOf(env, t.name, c)
  }

  lemma {:induction false} BucketOfIff(env: Config.Env, b: Bucket, t: Config.Tenant, c: Config.Bucket)
    requires Parses(env, c)
    ensures b == BucketOf(env, t.name, c) <==> BucketDescribes(env, b, t, c)
  {
    hide PolicyParse.WellFormed, PolicyParse.UnknownIn, PolicyParse.ByteLength, Policy.RefersOnlyTo;
  }

  lemma {:induction false} BuiltIff(env: Config.Env, ts: seq<Config.Tenant>, b: Bucket)
    requires Config.Sound(env, ts)
    ensures Built(env, ts, b) <==> HasBucket(env, ts, b)
  {
    hide BucketOf, BucketDescribes, Config.Sound, Parses;
    SoundNeverPanics(env, ts);
    forall t, c | t in ts && c in t.buckets ensures b == BucketOf(env, t.name, c) <==> BucketDescribes(env, b, t, c) {
      var i :| 0 <= i < |ts| && ts[i] == t;
      assert c in ts[i].buckets;
      BucketOfIff(env, b, t, c);
    }
  }

  lemma {:induction false} OneUserRowIff(t: Config.Tenant, u: Config.User, id: string, k: Key)
    ensures (id, k) in UserRows(t, u, u.keys) <==> k.id == id && exists c :: c in u.keys && KeyDescribes(k, t, u, c)
  {
    var rows := UserRows(t, u, u.keys);
    if (id, k) in rows {
      var i :| 0 <= i < |rows| && rows[i] == (id, k);
      assert KeyDescribes(k, t, u, u.keys[i]);
    }
    forall c | c in u.keys && KeyDescribes(k, t, u, c) && k.id == id ensures (id, k) in rows {
      var i :| 0 <= i < |u.keys| && u.keys[i] == c;
      assert rows[i] == (id, k);
    }
  }

  lemma {:induction false} UserRowIff(t: Config.Tenant, users: seq<Config.User>, id: string, k: Key)
    ensures (id, k) in UsersRows(t, users) <==>
            k.id == id && exists u, c :: u in users && c in u.keys && KeyDescribes(k, t, u, c)
  {
    hide UserRows, KeyDescribes;
    if users != [] {
      var front, u := users[..|users| - 1], users[|users| - 1];
      UserRowIff(t, front, id, k);
      OneUserRowIff(t, u, id, k);
      assert users == front + [u];
    }
  }

  lemma {:induction false} KeyRowIff(ts: seq<Config.Tenant>, id: string, k: Key)
    ensures (id, k) in KeyRows(ts) <==> k.id == id && HoldsKey(ts, k)
  {
    hide UsersRows, KeyDescribes;
    if ts != [] {
      var front, t := ts[..|ts| - 1], ts[|ts| - 1];
      KeyRowIff(front, id, k);
      UserRowIff(t, t.users, id, k);
      assert ts == front + [t];
    }
  }

  lemma {:induction false} BucketRowIff(env: Config.Env, ts: seq<Config.Tenant>, name: string, b: Bucket)
    ensures (name, b) in AllBucketRows(env, ts) <==> b.name == name && Built(env, ts, b)
  {
    if ts != [] {
      var front, t := ts[..|ts| - 1], ts[|ts| - 1];
      BucketRowIff(env, front, name, b);
      TenantRowIff(env, t, name, b);
      assert ts == front + [t];
    }
  }

  lemma {:induction false} TenantRowIff(env: Config.Env, t: Config.Tenant, name: string, b: Bucket)
    ensures (name, b) in BucketRows(env, t.name, t.buckets) <==>
            b.name == name && exists c :: c in t.buckets && b == BucketOf(env, t.name, c)
  {
    forall c | c in t.buckets && b == BucketOf(env, t.name, c) && b.name == name
      ensures (name, b) in BucketRows(env, t.name, t.buckets)
    {
      var i :| 0 <= i < |t.buckets| && t.buckets[i] == c;
      assert BucketRows(env, t.name, t.buckets)[i] == (name, b);
    }
  }

  /** A key lookup finds exactly the key a search of the configuration finds. */
  lemma {:induction false} KeyLookupIsSearch(env: Config.Env, ts: seq<Config.Tenant>, id: string, k: Key)
    requires Config.Sound(env, ts)
    ensures StoreOf(env, ts).GetKey(id) == Some(k) <==> k.id == id && HoldsKey(ts, k)
  {
    RowLabels(env, ts);
    IndexIff(KeyRows(ts), id, k);
    KeyRowIff(ts, id, k);
  }

  /** A lookup by name finds exactly the bucket a search of the configuration finds. */
  lemma {:induction false} NameLookupIsSearch(env: Config.Env, ts: seq<Config.Tenant>, name: string, b: Bucket)
    requires Config.Sound(env, ts)
    ensures StoreOf(env, ts).GetBucketByName(name) == Some(b) <==> b.name == name && HasBucket(env, ts, b)
  {
    RowLabels(env, ts);
    IndexIff(AllBucketRows(env, ts), name, b);
    BucketRowIff(env, ts, name, b);
    BuiltIff(env, ts, b);
  }

  /** A lookup within a tenant finds exactly the tenant's own bucket of that name. */
  lemma {:induction false} BucketLookupIsSearch(
    env: Config.Env, ts: seq<Config.Tenant>, tenant: string, name: string, b: Bucket)
    requires Config.Sound(env, ts)
    ensures StoreOf(env, ts).GetBucket(tenant, name) == Some(b) <==>
            b.tenant == tenant && b.name == name && HasBucket(env, ts, b)
  {
    hide Index, BucketRows, Config.BucketOk, Config.UserOk, HasBucket;
    var s := StoreOf(env, ts);
    RowLabels(env, ts);
    BuiltIff(env, ts, b);
    if s.GetBucket(tenant, name) == Some(b) {
      IndexIff(TenantRows(env, ts), tenant, s.tenants[tenant]);
      var i :| 0 <= i < |ts| && TenantRows(env, ts)[i] == (tenant, s.tenants[tenant]);
      OwnLookup(env, ts, i, name, b);
    }
    if b.tenant == tenant && b.name == name && Built(env, ts, b) {
      var t, c :| t in ts && c in t.buckets && b == BucketOf(env, t.name, c);
      var i :| 0 <= i < |ts| && ts[i] == t;
      var own := Index(BucketRows(env, t.name, t.buckets));
      assert TenantRows(env, ts)[i] == (tenant, own);
      IndexIff(TenantRows(env, ts), tenant, own);
      OwnLookup(env, ts, i, name, b);
    }
  }

  lemma {:induction false} OwnLookup(env: Config.Env, ts: seq<Config.Tenant>, i: nat, name: string, b: Bucket)
    requires Config.Sound(env, ts) && i < |ts|
    ensures
      var own := Index(BucketRows(env, ts[i].name, ts[i].buckets));
      name in own && own[name] == b <==>
      b.name == name && exists c :: c in ts[i].buckets && b == BucketOf(env, ts[i].name, c)
  {
    var t := ts[i];
    assert Labels(BucketRows(env, t.name, t.buckets)) == Config.BucketNames(t.buckets);
    OwnNamesDistinct(ts, i);
    IndexIff(BucketRows(env, t.name, t.buckets), name, b);
    TenantRowIff(env, t, name, b);
  }

  lemma {:induction false} OwnNamesDistinct(ts: seq<Config.Tenant>, i: nat)
    requires Distinct(Config.AllBucketNames(ts)) && i < |ts|
    ensures Distinct(Config.BucketNames(ts[i].buckets))
  {
    hide Distinct, Config.BucketNames;
    var front, t := ts[..|ts| - 1], ts[|ts| - 1];
    Config.DistinctConcat(Config.AllBucketNames(front), Config.BucketNames(t.buckets));
    if i < |front| {
      OwnNamesDistinct(front, i);
    }
  }

  /** What a store hands out as a policy is fit for evaluation and refers to its own bucket only. */
  lemma {:induction false} PolicyIsValid(env: Config.Env, ts: seq<Config.Tenant>, b: Bucket)
    requires Config.Sound(env, ts) && HasBucket(env, ts, b) && b.policy.Some?
    ensures Policy.Validated(b.policy.value) && Policy.RefersOnlyTo(b.policy.value, b.name)
  {
    hide PolicyParse.ParseOf, HasBucket;
    BuiltIff(env, ts, b);
    var t, c :| t in ts && c in t.buckets && b == BucketOf(env, t.name, c);
    PolicyParse.ParsedIsValid(env.decode, c.name, c.policyText, None);
  }

  /** The policies of an accepted configuration decide nothing outside their own bucket, for any caller. */
  lemma {:induction false} PoliciesAreConfined(
    env: Config.Env, ts: seq<Config.Tenant>, b: Bucket, c: Policy.Caller, resource: string)
    requires Config.Sound(env, ts) && HasBucket(env, ts, b) && b.policy.Some?
    requires !Policy.Within(resource, b.name)
    ensures Policy.AllNamed(b.policy.value)
    ensures Policy.Decide(b.policy.value, c, resource) == Policy.Decision(Policy.NoEffect, -1)
  {
    hide Policy.Decide, Policy.RefersOnlyTo, Policy.Within, PolicyParse.ParseOf;
    PolicyIsValid(env, ts, b);
    NameIsLiteral(env, ts, b);
    Policy.ConfinedWhenLiteral(b.policy.value, c, resource, b.name);
  }

  lemma {:induction false} NameIsLiteral(env: Config.Env, ts: seq<Config.Tenant>, b: Bucket)
    requires Config.Sound(env, ts) && HasBucket(env, ts, b)
    ensures Glob.WildcardFree(b.name)
  {
    hide PolicyParse.ParseOf;
    var t, c :| t in ts && c in t.buckets && BucketDescribes(env, b, t, c);
    var i :| 0 <= i < |ts| && ts[i] == t;
    assert Config.TenantOk(env, ts[i]);
    var j :| 0 <= j < |t.buckets| && t.buckets[j] == c;
    assert Config.BucketOk(env, t.buckets[j]);
    Config.BucketNameIsLiteral(c.name);
  }

  // ----- the gateway in front of this store

  function Seen(b: Bucket): (r: Authorization.Bucket) {
    Authorization.Bucket(b.tenant, b.name, b.policy)
  }

  function LookupOf(b: Option<Bucket>): (r: Authorization.Lookup) {
    if b.Some? then Authorization.Found(Seen(b.value)) else Authorization.NotFound
  }

  function ViewOf(s: ConfigStore, tenant: string, name: string): (v: Authorization.View) {
    Authorization.View(LookupOf(s.GetBucket(tenant, name)), LookupOf(s.GetBucketByName(name)))
  }

  /** The two lookups never disagree, which is what the visibility gate relies on. */
  lemma {:induction false} ViewIsCoherent(env: Config.Env, ts: seq<Config.Tenant>, tenant: string, name: string)
    requires Config.Sound(env, ts)
    ensures ViewOf(StoreOf(env, ts), tenant, name).Sound()
    ensures ViewOf(StoreOf(env, ts), tenant, name).Coherent(tenant)
  {
    hide StoreOf, HasBucket;
    var s := StoreOf(env, ts);
    var own, any := s.GetBucket(tenant, name), s.GetBucketByName(name);
    if own.Some? {
      BucketLookupIsSearch(env, ts, tenant, name, own.value);
      SeenIsSound(env, ts, own.value);
      NameLookupIsSearch(env, ts, name, own.value);
    }
    if any.Some? {
      NameLookupIsSearch(env, ts, name, any.value);
      SeenIsSound(env, ts, any.value);
      BucketLookupIsSearch(env, ts, tenant, name, any.value);
    }
  }

  lemma {:induction false} SeenIsSound(env: Config.Env, ts: seq<Config.Tenant>, b: Bucket)
    requires Config.Sound(env, ts) && HasBucket(env, ts, b)
    ensures Seen(b).Sound()
  {
    if b.policy.Some? {
      PolicyIsValid(env, ts, b);
    }
  }

  /**
   The gateway grants a request exactly when the configuration has such a bucket and its owner or policy allows it.
   */
  lemma {:induction false} GrantedIffConfigured(
    env: Config.Env, ts: seq<Config.Tenant>, vr: Authorization.Request, name: string, action: string, resource: string)
    requires Config.Sound(env, ts)
    ensures ViewOf(StoreOf(env, ts), vr.tenant, name).Sound()
    ensures Authorization.GrantedThroughGate(ViewOf(StoreOf(env, ts), vr.tenant, name), vr, name, action, resource) <==>
            exists b: Bucket :: Grants(env, ts, vr, b, name, action, resource)
  {
    hide StoreOf, HasBucket, Authorization.Authorize, Authorization.GrantedThroughGate;
    var s := StoreOf(env, ts);
    ViewIsCoherent(env, ts, vr.tenant, name);
    Authorization.GateChangesNoOutcome(ViewOf(s, vr.tenant, name), vr, name, action, resource);
    if s.GetBucketByName(name).Some? {
      var b := s.GetBucketByName(name).value;
      NameLookupIsSearch(env, ts, name, b);
      assert Grants(env, ts, vr, b, name, action, resource) <==>
             Authorization.Authorize(vr, Seen(b), action, resource).None?;
    }
    forall b | Grants(env, ts, vr, b, name, action, resource) ensures s.GetBucketByName(name) == Some(b) {
      NameLookupIsSearch(env, ts, name, b);
    }
  }

  /** This configured bucket has the name and grants the request. */
  ghost predicate Grants(
    env: Config.Env, ts: seq<Config.Tenant>, vr: Authorization.Request, b: Bucket, name: string, action: string,
    resource: string)
  {
    && b.name == name && HasBucket(env, ts, b) && Seen(b).Sound()
    && Authorization.Authorize(vr, Seen(b), action, resource).None?
  }

  /** The request of whoever holds the key, coming from this address. */
  function RequestOf(k: Key, source: Option<Policy.Addr>): (vr: Authorization.Request) {
    Authorization.Request(k.tenant, k.user, k.policy, source)
  }

  /** The store knows the access key, and the request of its holder passes the gate and the authorization. */
  ghost predicate Served(
    env: Config.Env, ts: seq<Config.Tenant>, id: string, source: Option<Policy.Addr>, name: string, action: string,
    resource: string)
  {
    var s := StoreOf(env, ts);
    var k := s.GetKey(id);
    k.Some? &&
    var vr := RequestOf(k.value, source);
    ViewOf(s, vr.tenant, name).Sound() &&
    Authorization.GrantedThroughGate(ViewOf(s, vr.tenant, name), vr, name, action, resource)
  }

  /** The user's own policy lets the action pass. */
  predicate UserPasses(u: Config.User, action: string) {
    || u.policy == []
    || (&& (exists i :: 0 <= i < |u.policy| && u.policy[i].effect == "Allow" &&
                        Policy.SomeActionMatches(u.policy[i].action, action))
        && (forall i :: 0 <= i < |u.policy| && u.policy[i].effect == "Deny" ==>
                          !Policy.SomeActionMatches(u.policy[i].action, action)))
  }

  /** Some statement with this effect in the bucket's policy, as its text decodes, applies. */
  ghost predicate PolicySays(env: Config.Env, b: Config.Bucket, c: Policy.Caller, resource: string, effect: string) {
    b.policyText != "" && env.decode(b.policyText).Some? &&
    exists st :: st in env.decode(b.policyText).value.statements && st.effect == effect && Policy.Named(st) &&
                 Policy.Applies(st, c, resource)
  }

  /** The request of a user of tenant t for a bucket of tenant o. */
  ghost predicate Entitled(
    env: Config.Env, t: Config.Tenant, u: Config.User, o: Config.Tenant, b: Config.Bucket,
    source: Option<Policy.Addr>, action: string, resource: string)
  {
    var c := Policy.Caller(t.name + "/" + u.name, action, Policy.Context(source));
    && UserPasses(u, action)
    && !PolicySays(env, b, c, resource, "Deny")
    && (t.name == o.name || PolicySays(env, b, c, resource, "Allow"))
  }

  /** Granting a key's request is being entitled, said of the configuration. */
  lemma {:induction false} GrantsIffEntitled(
    env: Config.Env, k: Key, t: Config.Tenant, u: Config.User, c: Config.Key, b: Bucket, o: Config.Tenant,
    d: Config.Bucket, source: Option<Policy.Addr>, action: string, resource: string)
    requires KeyDescribes(k, t, u, c) && BucketDescribes(env, b, o, d) && Seen(b).Sound()
    ensures Authorization.Authorize(RequestOf(k, source), Seen(b), action, resource).None? <==>
            Entitled(env, t, u, o, d, source, action, resource)
  {
    hide Authorization.Authorize, Policy.Applies, Policy.UserDecide, Policy.Concerns, Policy.SomeActionMatches;
    var vr := RequestOf(k, source);
    Authorization.GrantedIff(vr, Seen(b), action, resource);
    Policy.UserDecideMeans(vr.userPolicy, action);
    forall i | 0 <= i < |u.policy|
      ensures Policy.Concerns(u.policy[i], action) <==> Policy.SomeActionMatches(u.policy[i].action, action)
    {
      Policy.ConcernsIff(u.policy[i], action);
    }
    PolicySaysIff(env, b, o, d, vr.Caller(action), resource, "Deny");
    PolicySaysIff(env, b, o, d, vr.Caller(action), resource, "Allow");
  }

  lemma {:induction false} PolicySaysIff(
    env: Config.Env, b: Bucket, o: Config.Tenant, d: Config.Bucket, c: Policy.Caller, resource: string, effect: string)
    requires BucketDescribes(env, b, o, d) && Seen(b).Sound()
    ensures Authorization.Matched(b.policy, c, resource, effect) <==> PolicySays(env, d, c, resource, effect)
  {
    hide Policy.Applies;
    if b.policy.Some? {
      var p := b.policy.value;
      if Policy.SomeApplies(p, c, resource, effect) {
        var i :| 0 <= i < |p| && p[i].effect == effect && Policy.Applies(p[i], c, resource);
        assert p[i] in p;
      }
      forall st | st in p && st.effect == effect && Policy.Named(st) && Policy.Applies(st, c, resource)
        ensures Policy.SomeApplies(p, c, resource, effect)
      {
        var i :| 0 <= i < |p| && p[i] == st;
        assert Policy.Applies(p[i], c, resource);
      }
    }
  }

  /** The holder of the key and the owner of the bucket, found in the configuration. */
  ghost predicate EntitledIn(
    env: Config.Env, ts: seq<Config.Tenant>, id: string, source: Option<Policy.Addr>, name: string, action: string,
    resource: string)
  {
    exists t, u, c, o, d ::
      && t in ts && u in t.users && c in u.keys && c.id == id
      && o in ts && d in o.buckets && d.name == name
      && Entitled(env, t, u, o, d, source, action, resource)
  }

  /**
   End to end, from an access key to the decision, in terms of the configuration alone: a request is served exactly
   when some user holds the key, some bucket has the name, the user's policy passes the action, no Deny of the bucket's
   policy applies to the user, and the bucket is of the user's own tenant or an Allow applies.
   */
  lemma {:induction false} ServedIffConfigured(
    env: Config.Env, ts: seq<Config.Tenant>, id: string, source: Option<Policy.Addr>, name: string, action: string,
    resource: string)
    requires Config.Sound(env, ts)
    ensures Served(env, ts, id, source, name, action, resource) <==>
            EntitledIn(env, ts, id, source, name, action, resource)
  {
    hide *;
    if Served(env, ts, id, source, name, action, resource) {
      ServedIsEntitled(env, ts, id, source, name, action, resource);
    }
    if EntitledIn(env, ts, id, source, name, action, resource) {
      EntitledIsServed(env, ts, id, source, name, action, resource);
    }
  }

  lemma {:induction false} ServedIsEntitled(
    env: Config.Env, ts: seq<Config.Tenant>, id: string, source: Option<Policy.Addr>, name: string, action: string,
    resource: string)
    requires Config.Sound(env, ts) && Served(env, ts, id, source, name, action, resource)
    ensures EntitledIn(env, ts, id, source, name, action, resource)
  {
    hide StoreOf, KeyDescribes, BucketDescribes, Entitled, Authorization.GrantedThroughGate, Authorization.Authorize,
         Config.Sound;
    var k := StoreOf(env, ts).GetKey(id).value;
    KeyLookupIsSearch(env, ts, id, k);
    var t, u, c :| t in ts && u in t.users && c in u.keys && KeyDescribes(k, t, u, c);
    var vr := RequestOf(k, source);
    GrantedIffConfigured(env, ts, vr, name, action, resource);
    var b :| Grants(env, ts, vr, b, name, action, resource);
    var o, d :| o in ts && d in o.buckets && BucketDescribes(env, b, o, d);
    GrantsIffEntitled(env, k, t, u, c, b, o, d, source, action, resource);
    SameNames(env, k, t, u, c, b, o, d);
    assert Entitled(env, t, u, o, d, source, action, resource);
  }

  lemma {:induction false} SameNames(
    env: Config.Env, k: Key, t: Config.Tenant, u: Config.User, c: Config.Key, b: Bucket, o: Config.Tenant,
    d: Config.Bucket)
    requires KeyDescribes(k, t, u, c) && BucketDescribes(env, b, o, d)
    ensures c.id == k.id && d.name == b.name
  {
  }

  lemma {:induction false} EntitledIsServed(
    env: Config.Env, ts: seq<Config.Tenant>, id: string, source: Option<Policy.Addr>, name: string, action: string,
    resource: string)
    requires Config.Sound(env, ts) && EntitledIn(env, ts, id, source, name, action, resource)
    ensures Served(env, ts, id, source, name, action, resource)
  {
    hide StoreOf, KeyDescribes, BucketDescribes, Entitled, Authorization.GrantedThroughGate, Authorization.Authorize,
         Config.Sound, KeyOf, BucketOf;
    var t, u, c, o, d :|
      && t in ts && u in t.users && c in u.keys && c.id == id
      && o in ts && d in o.buckets && d.name == name
      && Entitled(env, t, u, o, d, source, action, resource);
    var k, b := KeyOf(t, u, c), BucketOf(env, o.name, d);
    KeyOfDescribes(t, u, c);
    BucketIsDescribed(env, ts, o, d);
    SameNames(env, k, t, u, c, b, o, d);
    KeyLookupIsSearch(env, ts, id, k);
    SeenIsSound(env, ts, b);
    GrantsIffEntitled(env, k, t, u, c, b, o, d, source, action, resource);
    var vr := RequestOf(k, source);
    assert Grants(env, ts, vr, b, name, action, resource);
    GrantedIffConfigured(env, ts, vr, name, action, resource);
  }

  lemma {:induction false} KeyOfDescribes(t: Config.Tenant, u: Config.User, c: Config.Key)
    ensures KeyDescribes(KeyOf(t, u, c), t, u, c)
  {
  }

  lemma {:induction false} BucketIsDescribed(
    env: Config.Env, ts: seq<Config.Tenant>, o: Config.Tenant, d: Config.Bucket)
    requires Config.Sound(env, ts) && o in ts && d in o.buckets
    ensures BucketDescribes(env, BucketOf(env, o.name, d), o, d)
  {
    hide Config.Sound, BucketOf, BucketDescribes, Parses;
    SoundNeverPanics(env, ts);
    var i :| 0 <= i < |ts| && ts[i] == o;
    assert d in ts[i].buckets;
    BucketOfIff(env, BucketOf(env, o.name, d), o, d);
  }
}

/**
 The direct-mapped cache of signing keys (sigv4/signer.go). Concurrent calls of get
 interleave between their critical sections: the lookup under the slot's read lock,
 each atomic counter, the derivation outside any lock, and the store under the slot's
 write lock. The model runs any number of calls in any interleaving of those steps.
 */
module SignerCache {
  import opened Text

  const KEY_SIZE := 32

  /** Everything a signing key is derived from; version stands for the secret. */
  datatype KeyId = KeyId(accessKeyId: string, version: string, date: string, region: string, derived: bool)

  /** The id of a slot never written: what Go's zero value compares equal to. */
  const ZERO_ID := KeyId("", "", "", "", false)

  datatype Slot = Slot(key: KeyId, signingKey: string)

  const EMPTY_SLOT := Slot(ZERO_ID, "")

  /** What the cache is built on: the hash of an access key id, and derivation as a function of the id. */
  datatype Env = Env(hash: string -> nat, derive: KeyId -> string)

  datatype Cache = Cache(slots: seq<Slot>, hits: nat, misses: nat, displacements: nat)

  function NewCache(size: int): (c: Cache)
    ensures c.slots != []
  {
    Cache(seq(if size < 1 then 1 else size, _ => EMPTY_SLOT), 0, 0, 0)
  }

  function Index(env: Env, c: Cache, id: KeyId): (i: nat)
    requires c.slots != []
    ensures i < |c.slots|
  {
    env.hash(id.accessKeyId) % |c.slots|
  }

  /** The key found under the read lock, if the slot holds this very id. */
  function Find(env: Env, c: Cache, id: KeyId): (k: Option<string>)
    requires c.slots != []
  {
    var slot := c.slots[Index(env, c, id)];
    if slot.key == id then Some(slot.signingKey) else None
  }

  /** The store under the write lock; replacing another access key's entry counts as a displacement. */
  function Install(env: Env, c: Cache, id: KeyId, key: string): (d: Cache)
    requires c.slots != []
    ensures |d.slots| == |c.slots|
  {
    var i := Index(env, c, id);
    var occupant := c.slots[i].key.accessKeyId;
    var displaces := occupant != "" && occupant != id.accessKeyId;
    c.(slots := c.slots[i := Slot(id, key)], displacements := c.displacements + (if displaces then 1 else 0))
  }

  /**
   What a store does: the key is found under its id, the slots of other hashes stay as they were, and the loss
   of an entry of another access key, and nothing else, counts as a displacement.
   */
  lemma {:induction false} InstallMeans(env: Env, c: Cache, id: KeyId, key: string, other: KeyId)
    requires c.slots != []
    ensures var d, i, j := Install(env, c, id, key), env.hash(id.accessKeyId) % |c.slots|,
              env.hash(other.accessKeyId) % |c.slots|;
            && Find(env, d, id) == Some(key)
            && (i != j ==> Find(env, d, other) == Find(env, c, other))
            && (i == j && other != id ==> Find(env, d, other).None?)
            && d.hits == c.hits && d.misses == c.misses
            && d.displacements - c.displacements ==
               (if c.slots[i].key.accessKeyId !in {"", id.accessKeyId} then 1 else 0)
  {
  }

  /** A supplied derivation must produce a key of the right size; deriving from the secret always does. */
  predicate Usable(env: Env, id: KeyId) {
    id.derived ==> |env.derive(id)| == KEY_SIZE
  }

  // ----- interleaved calls

  datatype Pc =
    | Looking
    | CountingHit(key: string)
    | CountingMiss
    | Deriving
    | Installing(key: string)
    | Returned(key: string)
    | Failed

  datatype Call = Call(id: KeyId, pc: Pc)

  datatype State = State(cache: Cache, calls: seq<Call>)

  /** Begin starts a call; Advance runs the next step of call i. A supplied derivation may fail when it is reached. */
  datatype Action = Begin(id: KeyId) | Advance(i: nat, derivationFails: bool)

  function Apply(env: Env, s: State, a: Action): (t: State)
    requires s.cache.slots != []
    ensures |t.cache.slots| == |s.cache.slots| && |s.calls| <= |t.calls|
  {
    match a
    case Begin(id) => s.(calls := s.calls + [Call(id, Looking)])
    case Advance(i, derivationFails) =>
      if i >= |s.calls| then s
      else
        var id, c := s.calls[i].id, s.cache;
        match s.calls[i].pc
        case Looking =>
          var k := Find(env, c, id);
          Goto(s, i, c, if k.Some? then CountingHit(k.value) else CountingMiss)
        case CountingHit(key) => Goto(s, i, c.(hits := c.hits + 1), Returned(key))
        case CountingMiss => Goto(s, i, c.(misses := c.misses + 1), Deriving)
        case Deriving =>
          if (id.derived && derivationFails) || !Usable(env, id) then Goto(s, i, c, Failed)
          else Goto(s, i, c, Installing(env.derive(id)))
        case Installing(key) => Goto(s, i, Install(env, c, id, key), Returned(key))
        case Returned(_) => s
        case Failed => s
  }

  function Goto(s: State, i: nat, c: Cache, pc: Pc): (t: State)
    requires i < |s.calls|
  {
    State(c, s.calls[i := s.calls[i].(pc := pc)])
  }

  function Run(env: Env, size: int, actions: seq<Action>): (s: State)
    ensures s.cache.slots != []
  {
    if actions == [] then State(NewCache(size), [])
    else Apply(env, Run(env, size, actions[..|actions| - 1]), actions[|actions| - 1])
  }

  // ----- no call ever returns another id's key

  predicate SlotOk(env: Env, slot: Slot) {
    slot == EMPTY_SLOT || slot.signingKey == env.derive(slot.key)
  }

  predicate CacheOk(env: Env, c: Cache) {
    c.slots != [] && forall i :: 0 <= i < |c.slots| ==> SlotOk(env, c.slots[i])
  }

  /** The zero id is the one id an unwritten slot answers for. */
  predicate Right(env: Env, id: KeyId, key: string) {
    key == env.derive(id) || (id == ZERO_ID && key == "")
  }

  predicate CallOk(env: Env, call: Call) {
    match call.pc
    case CountingHit(key) => Right(env, call.id, key)
    case Installing(key) => key == env.derive(call.id)
    case Returned(key) => Right(env, call.id, key)
    case _ => true
  }

  predicate KeysOk(env: Env, s: State) {
    CacheOk(env, s.cache) && forall i :: 0 <= i < |s.calls| ==> CallOk(env, s.calls[i])
  }

  lemma {:induction false} ApplyKeepsKeys(env: Env, s: State, a: Action)
    requires KeysOk(env, s)
    ensures KeysOk(env, Apply(env, s, a))
  {
    if a.Advance? && a.i < |s.calls| && s.calls[a.i].pc.Looking? {
      var slot := s.cache.slots[Index(env, s.cache, s.calls[a.i].id)];
      assert SlotOk(env, slot);
    }
  }

  lemma {:induction false} RunKeepsKeys(env: Env, size: int, actions: seq<Action>)
    ensures KeysOk(env, Run(env, size, actions))
  {
    if actions != [] {
      RunKeepsKeys(env, size, actions[..|actions| - 1]);
      ApplyKeepsKeys(env, Run(env, size, actions[..|actions| - 1]), actions[|actions| - 1]);
    }
  }

  /** In every interleaving, every call that returns a key returns the one derived from its own id. */
  ghost predicate AlwaysOwnKey(env: Env, id: KeyId) {
    forall size: int, actions: seq<Action>, i: nat ::
      var s := Run(env, size, actions);
      i < |s.calls| && s.calls[i].id == id && s.calls[i].pc.Returned? ==> s.calls[i].pc.key == env.derive(id)
  }

  lemma {:induction false} ReturnsOwnKey(env: Env, size: int, actions: seq<Action>, i: nat)
    requires var s := Run(env, size, actions); i < |s.calls| && s.calls[i].pc.Returned? && s.calls[i].id != ZERO_ID
    ensures var call := Run(env, size, actions).calls[i]; call.pc.key == env.derive(call.id)
  {
    RunKeepsKeys(env, size, actions);
  }

  // ----- the ids the verifier looks up

  /** A credential as key lookup returns it: a secret, or a derivation with the version of its secret. */
  datatype Credential = Credential(secret: string, derives: bool, secretVersion: string)

  /** What key lookup lets through. */
  predicate CredentialOk(c: Credential) {
    c.derives != (c.secret != "") && (c.derives ==> c.secretVersion != "")
  }

  function IdOf(accessKeyId: string, c: Credential, date: string, region: string): (id: KeyId) {
    KeyId(accessKeyId, if c.derives then c.secretVersion else c.secret, date, region, c.derives)
  }

  /** In every interleaving a call made for a credential that key lookup let through returns its own key. */
  lemma {:induction false} VerifierGetsOwnKey(
    env: Env, size: int, actions: seq<Action>, i: nat, accessKeyId: string, c: Credential, date: string, region: string)
    requires CredentialOk(c)
    requires var s := Run(env, size, actions);
             i < |s.calls| && s.calls[i].pc.Returned? && s.calls[i].id == IdOf(accessKeyId, c, date, region)
    ensures IdOf(accessKeyId, c, date, region) != ZERO_ID
    ensures Run(env, size, actions).calls[i].pc.key == env.derive(IdOf(accessKeyId, c, date, region))
  {
    assert IdOf(accessKeyId, c, date, region).version != "";
    ReturnsOwnKey(env, size, actions, i);
  }

  /** One call with the zero id on a fresh cache hits the unwritten slot and returns no key. */
  lemma {:induction false} ZeroIdHitsEmptySlot(env: Env)
    ensures Run(env, 1, [Begin(ZERO_ID), Advance(0, false), Advance(0, false)]).calls == [Call(ZERO_ID, Returned(""))]
  {
    var a, b := Begin(ZERO_ID), Advance(0, false);
    var s0 := Run(env, 1, []);
    assert [a][..0] == [] && [a, b][..1] == [a] && [a, b, b][..2] == [a, b];
    var s1 := Run(env, 1, [a]);
    assert s1 == State(s0.cache, [Call(ZERO_ID, Looking)]);
    var s2 := Run(env, 1, [a, b]);
    assert s2 == State(s0.cache, [Call(ZERO_ID, CountingHit(""))]);
  }

  /** The promise holds for an id exactly when it is not the zero id, whose slot reads as already filled. */
  lemma {:induction false} OwnKeyIff(env: Env, id: KeyId)
    ensures AlwaysOwnKey(env, id) <==> id != ZERO_ID || env.derive(ZERO_ID) == ""
  {
    forall size: int, actions: seq<Action>, i: nat |
      id != ZERO_ID && i < |Run(env, size, actions).calls| &&
      Run(env, size, actions).calls[i].id == id && Run(env, size, actions).calls[i].pc.Returned?
      ensures Run(env, size, actions).calls[i].pc.key == env.derive(id)
    {
      ReturnsOwnKey(env, size, actions, i);
    }
    if id == ZERO_ID {
      ZeroIdHitsEmptySlot(env);
      var actions := [Begin(ZERO_ID), Advance(0, false), Advance(0, false)];
      assert Run(env, 1, actions).calls[0].pc.key == "";
      forall size: int, actions: seq<Action>, i: nat |
        i < |Run(env, size, actions).calls| &&
        Run(env, size, actions).calls[i].id == id && Run(env, size, actions).calls[i].pc.Returned?
        ensures Right(env, id, Run(env, size, actions).calls[i].pc.key)
      {
        RunKeepsKeys(env, size, actions);
        assert CallOk(env, Run(env, size, actions).calls[i]);
      }
    }
  }

  /** Only a call that returns its key changes a slot; a failed derivation changes nothing in the cache but its miss. */
  lemma {:induction false} OnlySuccessStores(env: Env, s: State, a: Action)
    requires KeysOk(env, s)
    ensures Apply(env, s, a).cache.slots != s.cache.slots ==>
              && a.Advance? && a.i < |s.calls|
              && Apply(env, s, a).calls[a.i] == s.calls[a.i].(pc := Returned(env.derive(s.calls[a.i].id)))
    ensures a.Advance? && a.i < |s.calls| && !s.calls[a.i].pc.Failed? && Apply(env, s, a).calls[a.i].pc.Failed? ==>
              Apply(env, s, a).cache == s.cache
  {
  }

  // ----- what the counters count

  function Tally(calls: seq<Call>, weight: Pc -> nat): (n: nat) {
    if calls == [] then 0 else Tally(calls[..|calls| - 1], weight) + weight(calls[|calls| - 1].pc)
  }

  lemma {:induction false} TallyUpdate(calls: seq<Call>, weight: Pc -> nat, i: nat, pc: Pc)
    requires i < |calls|
    ensures Tally(calls[i := calls[i].(pc := pc)], weight) + weight(calls[i].pc) == Tally(calls, weight) + weight(pc)
  {
    var up := calls[i := calls[i].(pc := pc)];
    if i == |calls| - 1 {
      assert up[..|calls| - 1] == calls[..|calls| - 1];
    } else {
      TallyUpdate(calls[..|calls| - 1], weight, i, pc);
      assert up[..|calls| - 1] == calls[..|calls| - 1][i := calls[i].(pc := pc)];
    }
  }

  /** Calls that have not been counted yet. */
  function Uncounted(pc: Pc): (n: nat) {
    if pc.Looking? || pc.CountingHit? || pc.CountingMiss? then 1 else 0
  }

  /** Calls counted as a miss that may still store. */
  function MayStore(pc: Pc): (n: nat) {
    if pc.Deriving? || pc.Installing? then 1 else 0
  }

  predicate CountersOk(s: State) {
    && s.cache.hits + s.cache.misses + Tally(s.calls, Uncounted) == |s.calls|
    && s.cache.displacements + Tally(s.calls, MayStore) <= s.cache.misses
  }

  /** A step moves one call, and the counters by exactly what that call's position says. */
  lemma {:induction false} AdvanceCounts(env: Env, s: State, i: nat, derivationFails: bool)
    requires s.cache.slots != [] && i < |s.calls|
    ensures var t := Apply(env, s, Advance(i, derivationFails));
            var before, after := s.calls[i].pc, t.calls[i].pc;
            && t.calls == s.calls[i := s.calls[i].(pc := after)]
            && t.cache.hits + t.cache.misses + Uncounted(after) == s.cache.hits + s.cache.misses + Uncounted(before)
            && t.cache.displacements + MayStore(after) - t.cache.misses <=
               s.cache.displacements + MayStore(before) - s.cache.misses
  {
    var t := Apply(env, s, Advance(i, derivationFails));
    assert s.calls == s.calls[i := s.calls[i].(pc := s.calls[i].pc)];
  }

  lemma {:induction false} ApplyKeepsCounters(env: Env, s: State, a: Action)
    requires s.cache.slots != [] && CountersOk(s)
    ensures CountersOk(Apply(env, s, a))
  {
    match a {
      case Begin(id) =>
        var t := Apply(env, s, a);
        assert t.calls[..|s.calls|] == s.calls;
      case Advance(i, fails) =>
        if i < |s.calls| {
          AdvanceCounts(env, s, i, fails);
          var pc := Apply(env, s, a).calls[i].pc;
          hide Apply, Tally, Uncounted, MayStore;
          TallyUpdate(s.calls, Uncounted, i, pc);
          TallyUpdate(s.calls, MayStore, i, pc);
        }
    }
  }

  /**
   In every interleaving each call is counted once, as a hit or a miss, once it has looked;
   and displacements never exceed misses.
   */
  lemma {:induction false} CountersAddUp(env: Env, size: int, actions: seq<Action>)
    ensures CountersOk(Run(env, size, actions))
    ensures Run(env, size, actions).cache.displacements <= Run(env, size, actions).cache.misses
  {
    if actions != [] {
      CountersAddUp(env, size, actions[..|actions| - 1]);
      ApplyKeepsCounters(env, Run(env, size, actions[..|actions| - 1]), actions[|actions| - 1]);
    }
  }

  // ----- the cache itself

  class Signers {
    const slots: array<Slot>
    var hits: nat
    var misses: nat
    var displacements: nat

    function Abs(): (c: Cache)
      reads this, slots
    {
      Cache(slots[..], hits, misses, displacements)
    }

    constructor (size: int)
      ensures Abs() == NewCache(size) && fresh(slots)
    {
      slots := new Slot[if size < 1 then 1 else size](_ => EMPTY_SLOT);
      hits, misses, displacements := 0, 0, 0;
      new;
      assert slots[..] == NewCache(size).slots;
    }

    method Store(env: Env, id: KeyId, key: string)
      requires slots.Length > 0
      modifies this`displacements, slots
      ensures Abs() == Install(env, old(Abs()), id, key)
    {
      var i := env.hash(id.accessKeyId) % slots.Length;
      var occupant := slots[i].key.accessKeyId;
      if occupant != "" && occupant != id.accessKeyId {
        displacements := displacements + 1;
      }
      slots[i] := Slot(id, key);
    }

    /**
     One call, undisturbed: a hit leaves every slot alone, a miss stores the derived key, a failure stores nothing.
     */
    method Get(env: Env, id: KeyId, derivationFails: bool) returns (key: Option<string>)
      requires CacheOk(env, Abs())
      modifies this, slots
      ensures CacheOk(env, Abs())
      ensures hits == old(hits) + (if Find(env, old(Abs()), id).Some? then 1 else 0)
      ensures misses == old(misses) + (if Find(env, old(Abs()), id).Some? then 0 else 1)
      ensures Abs() == old(Abs()).(hits := hits, misses := misses) ||
              Abs() == Install(env, old(Abs()).(misses := misses), id, env.derive(id))
      ensures Abs().slots == old(Abs()).slots <== Find(env, old(Abs()), id).Some? || key.None?
      ensures id != ZERO_ID && key.Some? ==> key.value == env.derive(id) && Find(env, Abs(), id) == key
      ensures key.None? ==> slots[..] == old(slots[..])
      ensures key.None? <==>
              Find(env, old(Abs()), id).None? && id.derived && (derivationFails || |env.derive(id)| != 32)
    {
      var slot := slots[env.hash(id.accessKeyId) % slots.Length];
      assert slot == Abs().slots[Index(env, Abs(), id)] && SlotOk(env, slot);
      if slot.key == id {
        hits := hits + 1;
        return Some(slot.signingKey);
      }
      misses := misses + 1;
      if id.derived && (derivationFails || |env.derive(id)| != KEY_SIZE) {
        return None;
      }
      var k := env.derive(id);
      Store(env, id, k);
      return Some(k);
    }
  }
}

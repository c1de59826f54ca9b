/**
 The DeleteObjects batch (s3gw/proxy.go deleteObjects): which entries reach the
 backend, which are reported as AccessDenied, and the per-statement summary of
 the refusals (s3gw/denyreason.go addDenial).
 */
module DeleteObjects {
  import opened Text
  import Glob
  import Policy
  import opened Authorization

  const DELETE_OBJECT := "s3:DeleteObject"
  const DELETE_OBJECT_VERSION := "s3:DeleteObjectVersion"
  const BYPASS_GOVERNANCE := "s3:BypassGovernanceRetention"
  const MAX_ENTRIES := 1000

  // ----- the refusal summary

  datatype Denial = Denial(reason: DenyReason, keys: nat)

  predicate SameStatement(a: DenyReason, b: DenyReason) {
    a.layer == b.layer && a.statement == b.statement
  }

  /** The entry that accounts for the reason's (layer, statement), -1 when there is none yet. */
  function EntryFor(ds: seq<Denial>, r: DenyReason): (i: int)
    ensures -1 <= i < |ds|
    ensures i >= 0 ==> SameStatement(ds[i].reason, r)
    ensures forall j :: 0 <= j < (if i >= 0 then i else |ds|) ==> !SameStatement(ds[j].reason, r)
  {
    if ds == [] then -1
    else if SameStatement(ds[0].reason, r) then 0
    else
      var i := EntryFor(ds[1..], r);
      if i >= 0 then i + 1 else -1
  }

  function AddDenial(ds: seq<Denial>, r: DenyReason): (s: seq<Denial>) {
    var i := EntryFor(ds, r);
    if i >= 0 then ds[i := ds[i].(keys := ds[i].keys + 1)] else ds + [Denial(r, 1)]
  }

  function Summarize(ds: seq<Denial>, rs: seq<DenyReason>): (s: seq<Denial>) {
    if rs == [] then ds else AddDenial(Summarize(ds, rs[..|rs| - 1]), rs[|rs| - 1])
  }

  /** How many of the refusals the statement behind r decided. */
  function Count(rs: seq<DenyReason>, r: DenyReason): (n: nat) {
    if rs == [] then 0
    else Count(rs[..|rs| - 1], r) + (if SameStatement(rs[|rs| - 1], r) then 1 else 0)
  }

  function TotalKeys(ds: seq<Denial>): (n: nat) {
    if ds == [] then 0 else TotalKeys(ds[..|ds| - 1]) + ds[|ds| - 1].keys
  }

  ghost predicate Distinct(ds: seq<Denial>) {
    forall i, j :: 0 <= i < j < |ds| ==> !SameStatement(ds[i].reason, ds[j].reason)
  }

  ghost predicate ExactCounts(ds: seq<Denial>, rs: seq<DenyReason>) {
    forall i :: 0 <= i < |ds| ==> 0 < ds[i].keys == Count(rs, ds[i].reason)
  }

  /** The first refusal the statement behind r decided, -1 when there is none. */
  function Earliest(rs: seq<DenyReason>, r: DenyReason): (i: int)
    ensures -1 <= i < |rs|
    ensures i >= 0 ==> SameStatement(rs[i], r)
    ensures forall j :: 0 <= j < (if i >= 0 then i else |rs|) ==> !SameStatement(rs[j], r)
  {
    if rs == [] then -1
    else
      var i := Earliest(rs[..|rs| - 1], r);
      if i >= 0 then i else if SameStatement(rs[|rs| - 1], r) then |rs| - 1 else -1
  }

  /** Each entry carries the reason of the first key its statement refused. */
  ghost predicate FirstReasons(ds: seq<Denial>, rs: seq<DenyReason>) {
    forall i :: 0 <= i < |ds| ==>
      var k := Earliest(rs, ds[i].reason);
      k >= 0 && rs[k] == ds[i].reason
  }

  ghost predicate AllListed(ds: seq<Denial>, rs: seq<DenyReason>) {
    forall j :: 0 <= j < |rs| ==> EntryFor(ds, rs[j]) >= 0
  }

  /** The summary accounts for the refusals: one entry per statement, each with its own exact count. */
  ghost predicate Accounts(ds: seq<Denial>, rs: seq<DenyReason>) {
    Distinct(ds) && TotalKeys(ds) == |rs| && ExactCounts(ds, rs) && FirstReasons(ds, rs) && AllListed(ds, rs)
  }

  lemma {:induction false} TotalKeysAfterIncrement(ds: seq<Denial>, i: nat)
    requires i < |ds|
    ensures TotalKeys(ds[i := ds[i].(keys := ds[i].keys + 1)]) == TotalKeys(ds) + 1
  {
    var up := ds[i := ds[i].(keys := ds[i].keys + 1)];
    if i == |ds| - 1 {
      assert up[..|ds| - 1] == ds[..|ds| - 1];
    } else {
      TotalKeysAfterIncrement(ds[..|ds| - 1], i);
      assert up[..|ds| - 1] == ds[..|ds| - 1][i := ds[i].(keys := ds[i].keys + 1)];
    }
  }

  lemma {:induction false} CountAppend(rs: seq<DenyReason>, r: DenyReason, q: DenyReason)
    ensures Count(rs + [r], q) == Count(rs, q) + (if SameStatement(r, q) then 1 else 0)
    ensures Earliest(rs + [r], q) ==
            if Earliest(rs, q) >= 0 then Earliest(rs, q) else if SameStatement(r, q) then |rs| else -1
  {
    assert (rs + [r])[..|rs|] == rs;
  }

  lemma {:induction false} UnlistedIsUncounted(ds: seq<Denial>, rs: seq<DenyReason>, r: DenyReason)
    requires AllListed(ds, rs) && EntryFor(ds, r) == -1
    ensures Count(rs, r) == 0 && Earliest(rs, r) == -1
  {
    if rs != [] {
      var last := rs[|rs| - 1];
      assert EntryFor(ds, last) >= 0;
      UnlistedIsUncounted(ds, rs[..|rs| - 1], r);
    }
  }

  /** Counting one more key on an entry leaves every entry's reason where it was. */
  lemma {:induction false} SameReasonsListed(ds: seq<Denial>, up: seq<Denial>, rs: seq<DenyReason>)
    requires |up| == |ds| && (forall j :: 0 <= j < |ds| ==> up[j].reason == ds[j].reason)
    ensures Distinct(ds) ==> Distinct(up)
    ensures AllListed(ds, rs) ==> AllListed(up, rs)
  {
    if AllListed(ds, rs) {
      forall j | 0 <= j < |rs| ensures EntryFor(up, rs[j]) >= 0 {
        var k := EntryFor(ds, rs[j]);
        assert SameStatement(up[k].reason, rs[j]);
      }
    }
  }

  lemma {:induction false} IncrementCounts(ds: seq<Denial>, rs: seq<DenyReason>, r: DenyReason)
    requires Distinct(ds) && EntryFor(ds, r) >= 0
    requires ExactCounts(ds, rs) && FirstReasons(ds, rs)
    ensures ExactCounts(AddDenial(ds, r), rs + [r]) && FirstReasons(AddDenial(ds, r), rs + [r])
  {
    hide Count, Earliest, EntryFor;
    var i, up := EntryFor(ds, r), AddDenial(ds, r);
    forall j | 0 <= j < |up|
      ensures 0 < up[j].keys == Count(rs + [r], up[j].reason)
      ensures Earliest(rs + [r], up[j].reason) == Earliest(rs, ds[j].reason) >= 0
    {
      CountAppend(rs, r, ds[j].reason);
      assert SameStatement(r, ds[j].reason) <==> j == i;
    }
  }

  lemma {:induction false} AppendCounts(ds: seq<Denial>, rs: seq<DenyReason>, r: DenyReason)
    requires AllListed(ds, rs) && EntryFor(ds, r) == -1
    requires ExactCounts(ds, rs) && FirstReasons(ds, rs)
    ensures ExactCounts(ds + [Denial(r, 1)], rs + [r]) && FirstReasons(ds + [Denial(r, 1)], rs + [r])
  {
    hide Count, Earliest, EntryFor;
    var up := ds + [Denial(r, 1)];
    UnlistedIsUncounted(ds, rs, r);
    CountAppend(rs, r, r);
    forall j | 0 <= j < |ds|
      ensures 0 < up[j].keys == Count(rs + [r], up[j].reason)
      ensures Earliest(rs + [r], up[j].reason) == Earliest(rs, ds[j].reason) >= 0
    {
      CountAppend(rs, r, ds[j].reason);
      assert !SameStatement(r, ds[j].reason);
    }
  }

  lemma {:induction false} AppendListed(ds: seq<Denial>, rs: seq<DenyReason>, d: Denial)
    requires AllListed(ds, rs)
    ensures AllListed(ds + [d], rs + [d.reason])
  {
    var up, all := ds + [d], rs + [d.reason];
    forall j | 0 <= j < |all| ensures EntryFor(up, all[j]) >= 0 {
      var k := if j < |rs| then EntryFor(ds, rs[j]) else |ds|;
      assert SameStatement(up[k].reason, all[j]);
    }
  }

  lemma {:induction false} ListedAgain(ds: seq<Denial>, rs: seq<DenyReason>, r: DenyReason)
    requires AllListed(ds, rs) && EntryFor(ds, r) >= 0
    ensures AllListed(ds, rs + [r])
  {
  }

  lemma {:induction false} AddDenialAccounts(ds: seq<Denial>, rs: seq<DenyReason>, r: DenyReason)
    requires Accounts(ds, rs)
    ensures Accounts(AddDenial(ds, r), rs + [r])
  {
    hide Count, Earliest, EntryFor;
    var i, up := EntryFor(ds, r), AddDenial(ds, r);
    if i >= 0 {
      assert AllListed(up, rs + [r]) && Distinct(up) by {
        ListedAgain(ds, rs, r);
        SameReasonsListed(ds, up, rs + [r]);
      }
      assert TotalKeys(up) == |rs + [r]| by {
        TotalKeysAfterIncrement(ds, i);
      }
      IncrementCounts(ds, rs, r);
    } else {
      assert TotalKeys(up) == |rs + [r]| by {
        assert up[..|ds|] == ds;
      }
      AppendCounts(ds, rs, r);
      AppendListed(ds, rs, Denial(r, 1));
    }
  }

  /** Whatever the refusals, the summary of all of them accounts for each exactly once. */
  lemma {:induction false} SummaryAccounts(rs: seq<DenyReason>)
    ensures Accounts(Summarize([], rs), rs)
  {
    if rs != [] {
      var front, r := rs[..|rs| - 1], rs[|rs| - 1];
      SummaryAccounts(front);
      assert rs == front + [r];
      AddDenialAccounts(Summarize([], front), front, r);
    }
  }

  /** The refusals that share layer and statement with this one. */
  function Alike(rs: seq<DenyReason>, r: DenyReason): (ks: set<nat>) {
    set k: nat | k < |rs| && rs[k].layer == r.layer && rs[k].statement == r.statement
  }

  lemma {:induction false} CountIsSize(rs: seq<DenyReason>, r: DenyReason)
    ensures Count(rs, r) == |Alike(rs, r)|
  {
    if rs != [] {
      var n := |rs| - 1;
      CountIsSize(rs[..n], r);
      assert Alike(rs, r) == Alike(rs[..n], r) + (if SameStatement(rs[n], r) then {n} else {});
      assert n !in Alike(rs[..n], r);
    }
  }

  /** Refusal r occurs, and none before it shares its layer and statement. */
  ghost predicate FirstOfItsKind(rs: seq<DenyReason>, r: DenyReason) {
    exists k :: 0 <= k < |rs| && rs[k] == r &&
                forall l :: 0 <= l < k ==> rs[l].layer != r.layer || rs[l].statement != r.statement
  }

  predicate HasEntry(ds: seq<Denial>, r: DenyReason) {
    exists i :: 0 <= i < |ds| && ds[i].reason.layer == r.layer && ds[i].reason.statement == r.statement
  }

  predicate OneEntryEach(ds: seq<Denial>) {
    forall i, j :: 0 <= i < j < |ds| ==>
      ds[i].reason.layer != ds[j].reason.layer || ds[i].reason.statement != ds[j].reason.statement
  }

  /**
   The summary, said of layers and statements: no two entries share both, each counts the refusals that share its
   own, its reason is the first of them, and every refusal has an entry.
   */
  lemma {:induction false} SummaryMeans(rs: seq<DenyReason>)
    ensures OneEntryEach(Summarize([], rs))
    ensures forall i :: 0 <= i < |Summarize([], rs)| ==>
              var d := Summarize([], rs)[i]; d.keys == |Alike(rs, d.reason)| && FirstOfItsKind(rs, d.reason)
    ensures forall k :: 0 <= k < |rs| ==> HasEntry(Summarize([], rs), rs[k])
  {
    hide Summarize, Count, Earliest, EntryFor, Alike, FirstOfItsKind, HasEntry;
    SummaryAccounts(rs);
    var ds := Summarize([], rs);
    forall i | 0 <= i < |ds| ensures ds[i].keys == |Alike(rs, ds[i].reason)| && FirstOfItsKind(rs, ds[i].reason) {
      CountIsSize(rs, ds[i].reason);
      EarliestIsFirst(rs, ds[i].reason);
    }
    forall k | 0 <= k < |rs| ensures HasEntry(ds, rs[k]) {
      ListedHasEntry(ds, rs[k]);
    }
  }

  lemma {:induction false} EarliestIsFirst(rs: seq<DenyReason>, r: DenyReason)
    requires Earliest(rs, r) >= 0 && rs[Earliest(rs, r)] == r
    ensures FirstOfItsKind(rs, r)
  {
    hide Earliest;
    var k := Earliest(rs, r);
    assert forall l :: 0 <= l < k ==> !SameStatement(rs[l], r);
  }

  lemma {:induction false} ListedHasEntry(ds: seq<Denial>, r: DenyReason)
    requires EntryFor(ds, r) >= 0
    ensures HasEntry(ds, r)
  {
    hide EntryFor;
    assert SameStatement(ds[EntryFor(ds, r)].reason, r);
  }

  /** The operation record the refusals are summarized on. */
  class Op {
    var denials: seq<Denial>

    constructor ()
      ensures denials == []
    {
      denials := [];
    }

    method Add(r: DenyReason)
      modifies this
      ensures denials == AddDenial(old(denials), r)
    {
      for i := 0 to |denials|
        invariant denials == old(denials)
        invariant forall j :: 0 <= j < i ==> !SameStatement(denials[j].reason, r)
      {
        if denials[i].reason.layer == r.layer && denials[i].reason.statement == r.statement {
          denials := denials[i := denials[i].(keys := denials[i].keys + 1)];
          return;
        }
      }
      denials := denials + [Denial(r, 1)];
    }
  }

  // ----- the batch

  datatype Entry = Entry(key: string, versionId: string, etag: string, lastModified: string, size: Option<int>)

  datatype ObjectId = ObjectId(
    key: string, versionId: Option<string>, etag: Option<string>, lastModified: Option<int>, size: Option<int>)

  datatype DeleteError = AccessDenied(key: string, versionId: string)

  datatype Outcome = MalformedXML | Batch(objects: seq<ObjectId>, errors: seq<DeleteError>)

  function ActionFor(e: Entry): (a: string) {
    if e.versionId != "" then DELETE_OBJECT_VERSION else DELETE_OBJECT
  }

  function ResourceOf(b: Bucket, e: Entry): (r: string) {
    b.name + "/" + e.key
  }

  function NonEmpty(s: string): (o: Option<string>) {
    if s != "" then Some(s) else None
  }

  /** A time that is given must parse as an HTTP date; parsing itself is a parameter. */
  predicate DateOk(parseTime: string -> Option<int>, e: Entry) {
    e.lastModified == "" || parseTime(e.lastModified).Some?
  }

  function Identify(parseTime: string -> Option<int>, e: Entry): (o: ObjectId) {
    ObjectId(e.key, NonEmpty(e.versionId), NonEmpty(e.etag),
             if e.lastModified == "" then None else parseTime(e.lastModified), e.size)
  }

  /** The entries of the request with this verdict, in request order. */
  function Kept(ok: Entry -> bool, req: seq<Entry>, verdict: bool): (r: seq<Entry>)
    ensures forall e :: e in r <==> e in req && ok(e) == verdict
  {
    if req == [] then []
    else
      var e, rest := req[|req| - 1], Kept(ok, req[..|req| - 1], verdict);
      assert req == req[..|req| - 1] + [e];
      if ok(e) == verdict then rest + [e] else rest
  }

  function Objects(parseTime: string -> Option<int>, es: seq<Entry>): (r: seq<ObjectId>) {
    seq(|es|, i requires 0 <= i < |es| => Identify(parseTime, es[i]))
  }

  function Errors(es: seq<Entry>): (r: seq<DeleteError>) {
    seq(|es|, i requires 0 <= i < |es| => AccessDenied(es[i].key, es[i].versionId))
  }

  function Refusals(why: Entry -> DenyReason, es: seq<Entry>): (r: seq<DenyReason>) {
    seq(|es|, i requires 0 <= i < |es| => why(es[i]))
  }

  /** Nothing is lost and nothing is invented: every entry is either sent on or reported, once. */
  lemma {:induction false} PartitionIsExact(ok: Entry -> bool, req: seq<Entry>)
    ensures multiset(Kept(ok, req, true)) + multiset(Kept(ok, req, false)) == multiset(req)
  {
    if req != [] {
      PartitionIsExact(ok, req[..|req| - 1]);
      assert req == req[..|req| - 1] + [req[|req| - 1]];
    }
  }

  /** The outcome of a completed loop over `done`, for a verdict and an explanation per entry. */
  ghost predicate Partitioned(ok: Entry -> bool, why: Entry -> DenyReason, parseTime: string -> Option<int>,
                              done: seq<Entry>, objects: seq<ObjectId>, errors: seq<DeleteError>, denials: seq<Denial>)
  {
    && objects == Objects(parseTime, Kept(ok, done, true))
    && errors == Errors(Kept(ok, done, false))
    && denials == Summarize([], Refusals(why, Kept(ok, done, false)))
    && (forall e :: e in done && ok(e) ==> DateOk(parseTime, e))
  }

  lemma {:induction false} PartitionEmpty(ok: Entry -> bool, why: Entry -> DenyReason, parseTime: string -> Option<int>)
    ensures Partitioned(ok, why, parseTime, [], [], [], [])
  {
  }

  lemma {:induction false} PartitionRefused(
    ok: Entry -> bool, why: Entry -> DenyReason, parseTime: string -> Option<int>,
                         done: seq<Entry>, e: Entry, objects: seq<ObjectId>, errors: seq<DeleteError>,
                         denials: seq<Denial>)
    requires !ok(e) && Partitioned(ok, why, parseTime, done, objects, errors, denials)
    ensures Partitioned(ok, why, parseTime, done + [e], objects,
                        errors + [AccessDenied(e.key, e.versionId)], AddDenial(denials, why(e)))
  {
    assert (done + [e])[..|done|] == done;
    var refused := Kept(ok, done, false);
    var before, after := Refusals(why, refused), Refusals(why, refused + [e]);
    assert after == before + [why(e)] && after[..|after| - 1] == before;
    assert Errors(refused + [e]) == Errors(refused) + [AccessDenied(e.key, e.versionId)];
  }

  lemma {:induction false} PartitionSent(ok: Entry -> bool, why: Entry -> DenyReason, parseTime: string -> Option<int>,
                      done: seq<Entry>, e: Entry, objects: seq<ObjectId>, errors: seq<DeleteError>,
                      denials: seq<Denial>)
    requires ok(e) && DateOk(parseTime, e) && Partitioned(ok, why, parseTime, done, objects, errors, denials)
    ensures Partitioned(ok, why, parseTime, done + [e], objects + [Identify(parseTime, e)], errors, denials)
  {
    assert (done + [e])[..|done|] == done;
    var kept := Kept(ok, done, true);
    assert Objects(parseTime, kept + [e]) == Objects(parseTime, kept) + [Identify(parseTime, e)];
  }

  /**
   For every completed batch: each entry is sent or reported once, the summary's key
   counts add up to the number of errors, and no two summary entries share a statement.
   */
  lemma {:induction false} BatchAccounts(ok: Entry -> bool, why: Entry -> DenyReason, parseTime: string -> Option<int>,
                      req: seq<Entry>, objects: seq<ObjectId>, errors: seq<DeleteError>, denials: seq<Denial>)
    requires Partitioned(ok, why, parseTime, req, objects, errors, denials)
    ensures Accounts(denials, Refusals(why, Kept(ok, req, false)))
    ensures TotalKeys(denials) == |errors| && Distinct(denials)
    ensures |objects| + |errors| == |req|
  {
    var kept, refused := Kept(ok, req, true), Kept(ok, req, false);
    SummaryAccounts(Refusals(why, refused));
    PartitionIsExact(ok, req);
    assert |multiset(kept) + multiset(refused)| == |kept| + |refused|;
  }

  /** An entry goes through when authorize admits its own action, and the bypass when one is asked for. */
  predicate Permitted(vr: Request, b: Bucket, bypass: bool, e: Entry)
    requires b.Sound()
  {
    && Authorize(vr, b, ActionFor(e), ResourceOf(b, e)).None?
    && (bypass ==> Authorize(vr, b, BYPASS_GOVERNANCE, ResourceOf(b, e)).None?)
  }

  /** The action an entry needs. */
  function DeleteAction(e: Entry): (a: string) {
    if e.versionId == "" then "s3:DeleteObject" else "s3:DeleteObjectVersion"
  }

  /** Which entries go through, action by action. */
  lemma {:induction false} PermittedIff(vr: Request, b: Bucket, bypass: bool, e: Entry)
    requires b.Sound()
    ensures Permitted(vr, b, bypass, e) <==>
            && Authorize(vr, b, DeleteAction(e), b.name + "/" + e.key).None?
            && (bypass ==> Authorize(vr, b, "s3:BypassGovernanceRetention", b.name + "/" + e.key).None?)
  {
    hide Authorize;
  }

  /** A user whose policy denies deleting versions gets every entry that names one refused. */
  lemma {:induction false} VersionsStayDenied(
    vr: Request, b: Bucket, bypass: bool, e: Entry, up: Policy.UserDocument, i: nat)
    requires b.Sound() && vr.userPolicy == Some(up) && i < |up|
    requires up[i].effect == "Deny" && "s3:DeleteObjectVersion" in up[i].action && e.versionId != ""
    ensures !Permitted(vr, b, bypass, e)
  {
    hide Policy.UserDecide, Policy.Concerns;
    var a := "s3:DeleteObjectVersion";
    PermittedIff(vr, b, bypass, e);
    GrantedIff(vr, b, a, b.name + "/" + e.key);
    Policy.UserDecideMeans(vr.userPolicy, a);
    Policy.ConcernsIff(up[i], a);
    Glob.MatchesItself(ToLower(a));
    var j :| 0 <= j < |up[i].action| && up[i].action[j] == a;
    assert Glob.Match(ToLower(up[i].action[j]), ToLower(a));
  }

  /** A sent object is the entry: its key, its version if it names one, and its preconditions. */
  lemma {:induction false} SentAsAsked(parseTime: string -> Option<int>, es: seq<Entry>, i: nat)
    requires i < |es| && DateOk(parseTime, es[i])
    ensures var o, e := Objects(parseTime, es)[i], es[i];
            && |Objects(parseTime, es)| == |es|
            && o.key == e.key && o.size == e.size
            && (e.versionId == "" <==> o.versionId.None?) && (o.versionId.Some? ==> o.versionId.value == e.versionId)
            && (e.etag == "" <==> o.etag.None?) && (o.etag.Some? ==> o.etag.value == e.etag)
            && (e.lastModified == "" <==> o.lastModified.None?)
            && (o.lastModified.Some? ==> parseTime(e.lastModified) == o.lastModified)
  {
  }

  function RefusalOf(vr: Request, b: Bucket, e: Entry): (r: DenyReason)
    requires b.Sound()
  {
    var resource := ResourceOf(b, e);
    var own := PerObjectOf(vr, b, ActionFor(e));
    if own.Denies(resource) then own.Reason(resource)
    else PerObjectOf(vr, b, BYPASS_GOVERNANCE).Reason(resource)
  }

  /**
   Which refusal is recorded for an entry: that of the delete action when it is refused, else that of the bypass, and
   the same as for a single request unless the caller is one of another tenant that no Allow matches.
   */
  lemma {:induction false} RefusalIsOfFirstAction(vr: Request, b: Bucket, bypass: bool, e: Entry)
    requires b.Sound() && !Permitted(vr, b, bypass, e)
    ensures var resource := b.name + "/" + e.key;
            var action := if Authorize(vr, b, DeleteAction(e), resource).Some? then DeleteAction(e)
                          else "s3:BypassGovernanceRetention";
            && Authorize(vr, b, action, resource).Some?
            && (RefusalOf(vr, b, e) == Authorize(vr, b, action, resource).value <==>
                !Attributed(vr, b, action, resource))
  {
    hide Authorize, Attributed, PerObjectOf;
    var resource := b.name + "/" + e.key;
    PermittedIff(vr, b, bypass, e);
    PerObjectRefines(vr, b, DeleteAction(e), resource);
    var action := if Authorize(vr, b, DeleteAction(e), resource).Some? then DeleteAction(e)
                  else "s3:BypassGovernanceRetention";
    ReasonsAgreeIff(vr, b, action, resource);
  }

  function Verdict(vr: Request, b: Bucket, bypass: bool): (ok: Entry -> bool)
    requires b.Sound()
  {
    e => Permitted(vr, b, bypass, e)
  }

  function Explanation(vr: Request, b: Bucket): (why: Entry -> DenyReason)
    requires b.Sound()
  {
    e => RefusalOf(vr, b, e)
  }

  /** An entry's authorizer, consulted or skipped, gives what authorize gives. */
  lemma {:induction false} EntryVerdict(vr: Request, b: Bucket, bypass: bool, e: Entry)
    requires b.Sound()
    ensures Permitted(vr, b, bypass, e) <==>
            && !PerObjectOf(vr, b, ActionFor(e)).Denies(ResourceOf(b, e))
            && !(bypass && PerObjectOf(vr, b, BYPASS_GOVERNANCE).Denies(ResourceOf(b, e)))
    ensures PerObjectOf(vr, b, ActionFor(e)).AllowsEverything() &&
            (bypass ==> PerObjectOf(vr, b, BYPASS_GOVERNANCE).AllowsEverything()) ==>
            Permitted(vr, b, bypass, e)
  {
    PerObjectRefines(vr, b, ActionFor(e), ResourceOf(b, e));
    PerObjectRefines(vr, b, BYPASS_GOVERNANCE, ResourceOf(b, e));
    AllowsEverythingIff(vr, b, ActionFor(e));
    AllowsEverythingIff(vr, b, BYPASS_GOVERNANCE);
  }

  /** The authorizers of one batch; each is built only when some entry needs it. */
  datatype Authorizers = Authorizers(plain: PerObject, version: PerObject, bypass: PerObject, check: bool)
  {
    ghost predicate ServesEntry(vr: Request, b: Bucket, asked: bool, e: Entry)
      requires b.Sound()
    {
      && (if e.versionId != "" then version else plain) == PerObjectOf(vr, b, ActionFor(e))
      && (asked ==> bypass == PerObjectOf(vr, b, BYPASS_GOVERNANCE))
      && (!check ==> Permitted(vr, b, asked, e))
    }
  }

  method BuildAuthorizers(vr: Request, b: Bucket, req: seq<Entry>, bypass: bool) returns (a: Authorizers)
    requires b.Sound()
    ensures forall e :: e in req ==> a.ServesEntry(vr, b, bypass, e)
  {
    var hasPlain, hasVersion := false, false;
    for i := 0 to |req|
      invariant hasVersion <==> exists j :: 0 <= j < i && req[j].versionId != ""
      invariant hasPlain <==> exists j :: 0 <= j < i && req[j].versionId == ""
    {
      if req[i].versionId != "" {
        hasVersion := true;
      } else {
        hasPlain := true;
      }
    }
    var none := PerObject(false, NoDenies, false, NoAllows, vr.Caller(""), None, Policy.Decision(Policy.NoEffect, 0));
    var check, plain, version, bypassAuth := false, none, none, none;
    if hasPlain {
      plain := BuildPerObject(vr, b, DELETE_OBJECT);
      check := !plain.AllowsEverything();
    }
    if hasVersion {
      version := BuildPerObject(vr, b, DELETE_OBJECT_VERSION);
      check := check || !version.AllowsEverything();
    }
    if bypass {
      bypassAuth := BuildPerObject(vr, b, BYPASS_GOVERNANCE);
      check := check || !bypassAuth.AllowsEverything();
    }
    a := Authorizers(plain, version, bypassAuth, check);
    forall e | e in req ensures a.ServesEntry(vr, b, bypass, e) {
      EntryVerdict(vr, b, bypass, e);
    }
  }

  /** The body of the loop: None sends the entry on, a reason reports it as AccessDenied. */
  method Judge(vr: Request, b: Bucket, bypass: bool, a: Authorizers, e: Entry) returns (refusal: Option<DenyReason>)
    requires b.Sound() && a.ServesEntry(vr, b, bypass, e)
    ensures refusal == if Permitted(vr, b, bypass, e) then None else Some(RefusalOf(vr, b, e))
  {
    EntryVerdict(vr, b, bypass, e);
    if a.check {
      var resource := b.name + "/" + e.key;
      var auth := if e.versionId != "" then a.version else a.plain;
      var denied := auth.Denies(resource);
      if !denied && bypass && a.bypass.Denies(resource) {
        auth, denied := a.bypass, true;
      }
      if denied {
        return Some(auth.Reason(resource));
      }
    }
    return None;
  }

  /** The entry loop; it stops at a permitted entry whose time does not parse. */
  method PartitionEntries(vr: Request, b: Bucket, req: seq<Entry>, bypass: bool, parseTime: string -> Option<int>,
                          a: Authorizers, op: Op) returns (out: Outcome)
    requires b.Sound() && op.denials == []
    requires forall e :: e in req ==> a.ServesEntry(vr, b, bypass, e)
    modifies op
    ensures out.Batch? <==> forall e :: e in req && Verdict(vr, b, bypass)(e) ==> DateOk(parseTime, e)
    ensures out.Batch? ==>
              Partitioned(Verdict(vr, b, bypass), Explanation(vr, b), parseTime, req,
                          out.objects, out.errors, op.denials)
  {
    hide Permitted, RefusalOf, Summarize, Objects, Errors, Refusals, Kept, Authorizers.ServesEntry;
    ghost var ok, why := Verdict(vr, b, bypass), Explanation(vr, b);
    PartitionEmpty(ok, why, parseTime);
    var objects: seq<ObjectId>, errors: seq<DeleteError> := [], [];
    for i := 0 to |req|
      invariant Partitioned(ok, why, parseTime, req[..i], objects, errors, op.denials)
    {
      var e := req[i];
      assert req[..i + 1] == req[..i] + [e];
      var refusal := Judge(vr, b, bypass, a, e);
      if refusal.Some? {
        PartitionRefused(ok, why, parseTime, req[..i], e, objects, errors, op.denials);
        errors := errors + [AccessDenied(e.key, e.versionId)];
        op.Add(refusal.value);
        continue;
      }
      if e.lastModified != "" && parseTime(e.lastModified).None? {
        assert e in req && ok(e) && !DateOk(parseTime, e);
        return MalformedXML;
      }
      PartitionSent(ok, why, parseTime, req[..i], e, objects, errors, op.denials);
      objects := objects + [Identify(parseTime, e)];
    }
    assert req[..|req|] == req;
    return Batch(objects, errors);
  }

  /**
   The handler up to the backend call. When the entry loop completes, the backend
   gets the permitted entries in request order, every other entry one AccessDenied,
   and the operation record the summary of their reasons.
   */
  method DeleteBatch(vr: Request, b: Bucket, req: seq<Entry>, bypass: bool, parseTime: string -> Option<int>, op: Op)
    returns (out: Outcome)
    requires b.Sound() && op.denials == []
    modifies op
    ensures out.Batch? <==>
            && 0 < |req| <= 1000
            && forall e :: e in req && Permitted(vr, b, bypass, e) ==> DateOk(parseTime, e)
    ensures out.Batch? ==>
              Partitioned(Verdict(vr, b, bypass), Explanation(vr, b), parseTime, req,
                          out.objects, out.errors, op.denials)
  {
    hide Permitted, Partitioned;
    if |req| == 0 || |req| > MAX_ENTRIES {
      return MalformedXML;
    }
    var a := BuildAuthorizers(vr, b, req, bypass);
    out := PartitionEntries(vr, b, req, bypass, parseTime, a, op);
    assert forall e :: Verdict(vr, b, bypass)(e) == Permitted(vr, b, bypass, e);
  }
}

/**
 Presigned requests carry headers as query parameters; promotion copies the x-amz-*
 parameters back into the headers (sigv4/sigv4.go promoteHoistedQueryParams). The
 parameters come out of a map, so they are visited in an arbitrary order.
 */
module Promote {
  import opened Text
  import opened Ordering
  import Query
  import Canonical

  type Header = map<string, seq<string>>

  const AMZ_PREFIX := "x-amz-"
  const SIGNATURE_PARAM := "X-Amz-Signature"

  /** The parameters that authenticate the request, lower-cased; they are never promoted. */
  const AUTH_PARAMS := {
    "x-amz-algorithm", "x-amz-credential", "x-amz-date", "x-amz-signedheaders",
    "x-amz-signature", "x-amz-security-token", "x-amz-expires"}

  predicate Promotable(k: string) {
    AMZ_PREFIX <= ToLower(k) && ToLower(k) !in AUTH_PARAMS
  }

  predicate Hoisted(q: Query.Values, k: string) {
    k in q && q[k] != [] && Promotable(k)
  }

  /** http.Header.Get: the first value under the canonical key. */
  function Get(h: Header, name: string): (v: string) {
    var c := Canonical.CanonicalKey(name);
    if c in h && h[c] != [] then h[c][0] else ""
  }

  function PromoteOne(h: Header, q: Query.Values, k: string): (r: Header) {
    if Hoisted(q, k) && Get(h, k) == "" then h[Canonical.CanonicalKey(k) := Sort(q[k])] else h
  }

  function PromoteAll(h: Header, q: Query.Values, order: seq<string>): (r: Header)
    decreases |order|
  {
    if order == [] then h else PromoteAll(PromoteOne(h, q, order[0]), q, order[1..])
  }

  /** The names reported as covered by the signature. */
  function Covered(q: Query.Values, order: seq<string>): (names: set<string>) {
    set k | k in order && Hoisted(q, k) :: ToLower(k)
  }

  /** A traversal of a map: every key once, in some order. */
  ghost predicate Visits(order: seq<string>, keys: set<string>) {
    && (forall k :: k in order <==> k in keys)
    && Distinct(order)
  }

  method PromoteHoistedQueryParams(h: Header, q: Query.Values, order: seq<string>)
    returns (r: Header, promoted: seq<string>)
    requires Visits(order, q.Keys)
    ensures r == PromoteAll(h, q, order)
    ensures (set n | n in promoted) == Covered(q, order)
  {
    hide Canonical.CanonicalKey, Sort, Covered;
    r, promoted := h, [];
    CoveredNone(q);
    for i := 0 to |order|
      invariant PromoteAll(r, q, order[i..]) == PromoteAll(h, q, order)
      invariant (set n | n in promoted) == Covered(q, order[..i])
    {
      var k := order[i];
      assert order[i..][1..] == order[i + 1..];
      CoveredStep(q, order, i);
      var lk := ToLower(k);
      if !(AMZ_PREFIX <= lk) || lk in AUTH_PARAMS || |q[k]| == 0 {
        continue;
      }
      if Get(r, k) == "" {
        r := r[Canonical.CanonicalKey(k) := Sort(q[k])];
      }
      promoted := promoted + [lk];
    }
    assert order[|order|..] == [] && order[..|order|] == order;
  }

  lemma {:induction false} CoveredNone(q: Query.Values)
    ensures Covered(q, []) == {}
  {
  }

  lemma {:induction false} CoveredStep(q: Query.Values, order: seq<string>, i: nat)
    requires i < |order|
    ensures Covered(q, order[..i + 1]) ==
            Covered(q, order[..i]) + (if Hoisted(q, order[i]) then {ToLower(order[i])} else {})
  {
    hide Promotable, ToLower;
    assert order[..i + 1] == order[..i] + [order[i]];
  }

  /** Which parameters are promoted: x-amz- in any case, apart from those that authenticate the request. */
  lemma {:induction false} PromotableIff(k: string)
    ensures Promotable(k) <==>
            && "x-amz-" <= ToLower(k)
            && ToLower(k) != "x-amz-algorithm" && ToLower(k) != "x-amz-credential" && ToLower(k) != "x-amz-date"
            && ToLower(k) != "x-amz-signedheaders" && ToLower(k) != "x-amz-signature"
            && ToLower(k) != "x-amz-security-token" && ToLower(k) != "x-amz-expires"
  {
    hide ToLower;
  }

  // ----- the result does not depend on the order of the traversal

  /** The headers have no value of this name yet, so the parameter supplies it. */
  predicate Supplies(h: Header, q: Query.Values, k: string) {
    Hoisted(q, k) && Get(h, k) == ""
  }

  /** No two parameters would be promoted to the same header. */
  predicate NoCollision(keys: set<string>) {
    forall k, l :: k in keys && l in keys && k != l && Promotable(k) && Promotable(l) ==>
      Canonical.CanonicalKey(k) != Canonical.CanonicalKey(l)
  }

  /** What the headers are after the keys `done`, said without their order. */
  ghost predicate Promoted(h: Header, q: Query.Values, done: set<string>, r: Header) {
    && (forall k :: k in done && Supplies(h, q, k) ==>
          Canonical.CanonicalKey(k) in r && r[Canonical.CanonicalKey(k)] == Sort(q[k]))
    && (forall c :: (forall k :: k in done && Supplies(h, q, k) ==> Canonical.CanonicalKey(k) != c) ==>
          (c in r <==> c in h) && (c in h ==> r[c] == h[c]))
  }

  /** Keys promoted earlier go to other headers, so they do not decide whether k supplies its own. */
  lemma {:induction false} EarlierKeysElsewhere(h: Header, q: Query.Values, done: set<string>, r: Header, k: string)
    requires NoCollision(q.Keys) && done <= q.Keys && k in q.Keys && k !in done && Hoisted(q, k)
    requires Promoted(h, q, done, r)
    ensures forall l :: l in done && Supplies(h, q, l) ==> Canonical.CanonicalKey(l) != Canonical.CanonicalKey(k)
    ensures Get(r, k) == Get(h, k)
  {
    hide Canonical.CanonicalKey, Promotable, Sort;
  }

  lemma {:induction false} PromoteOneStep(h: Header, q: Query.Values, done: set<string>, r: Header, k: string)
    requires NoCollision(q.Keys) && done <= q.Keys && k in q.Keys && k !in done
    requires Promoted(h, q, done, r)
    ensures Promoted(h, q, done + {k}, PromoteOne(r, q, k))
  {
    hide Canonical.CanonicalKey, Hoisted, Sort, Get, NoCollision;
    if Hoisted(q, k) {
      EarlierKeysElsewhere(h, q, done, r, k);
    }
    var t := PromoteOne(r, q, k);
    if Supplies(h, q, k) {
      SupplyOne(h, q, done, r, k);
    } else {
      assert t == r;
      assert forall l :: l in done + {k} && Supplies(h, q, l) ==> l in done;
    }
  }

  lemma {:induction false} SupplyOne(h: Header, q: Query.Values, done: set<string>, r: Header, k: string)
    requires Supplies(h, q, k) && Promoted(h, q, done, r)
    requires forall l :: l in done && Supplies(h, q, l) ==> Canonical.CanonicalKey(l) != Canonical.CanonicalKey(k)
    ensures Promoted(h, q, done + {k}, r[Canonical.CanonicalKey(k) := Sort(q[k])])
  {
    hide Canonical.CanonicalKey, Promotable, Sort, Get;
    var c := Canonical.CanonicalKey(k);
    var t := r[c := Sort(q[k])];
    forall d | forall l :: l in done + {k} && Supplies(h, q, l) ==> Canonical.CanonicalKey(l) != d
      ensures (d in t <==> d in h) && (d in h ==> t[d] == h[d])
    {
      assert k in done + {k};
      assert forall l :: l in done ==> l in done + {k};
    }
  }

  lemma {:induction false} PromoteAllSteps(h: Header, q: Query.Values, done: set<string>, r: Header, order: seq<string>)
    requires NoCollision(q.Keys) && done <= q.Keys && Promoted(h, q, done, r)
    requires forall k :: k in order ==> k in q && k !in done
    requires Distinct(order)
    ensures Promoted(h, q, done + (set k | k in order), PromoteAll(r, q, order))
    decreases |order|
  {
    hide Promoted, PromoteOne, NoCollision;
    if order == [] {
      assert done + (set k | k in order) == done;
    } else {
      var k, rest := order[0], order[1..];
      PromoteOneStep(h, q, done, r, k);
      PromoteAllSteps(h, q, done + {k}, PromoteOne(r, q, k), rest);
      assert order == [k] + rest;
      assert done + {k} + (set x | x in rest) == done + (set x | x in order);
    }
  }

  lemma {:induction false} PromotedByTraversal(h: Header, q: Query.Values, order: seq<string>)
    requires NoCollision(q.Keys) && Visits(order, q.Keys)
    ensures Promoted(h, q, q.Keys, PromoteAll(h, q, order))
  {
    assert Promoted(h, q, {}, h);
    PromoteAllSteps(h, q, {}, h, order);
    assert {} + (set k | k in order) == q.Keys;
  }

  /** The same parameters are hoisted with the same values, up to the order of a key's values. */
  ghost predicate SameHoisted(q: Query.Values, p: Query.Values) {
    forall k :: (Hoisted(q, k) <==> Hoisted(p, k)) && (Hoisted(q, k) ==> Sort(q[k]) == Sort(p[k]))
  }

  lemma {:induction false} PromotedIsUnique(h: Header, q: Query.Values, r: Header, p: Query.Values, s: Header)
    requires SameHoisted(q, p) && Promoted(h, q, q.Keys, r) && Promoted(h, p, p.Keys, s)
    ensures r == s
  {
    hide Canonical.CanonicalKey, Promotable, Sort, Get;
    forall c ensures (c in r <==> c in s) && (c in r && c in s ==> r[c] == s[c]) {
      if k :| k in q && Supplies(h, q, k) && Canonical.CanonicalKey(k) == c {
        assert Supplies(h, p, k);
      } else {
        assert forall k :: k in p.Keys && Supplies(h, p, k) ==> k in q && Supplies(h, q, k);
      }
    }
  }

  lemma {:induction false} SameHoistedPromotesSame(
    h: Header, q: Query.Values, order: seq<string>, p: Query.Values, order': seq<string>)
    requires SameHoisted(q, p) && NoCollision(q.Keys) && NoCollision(p.Keys)
    requires Visits(order, q.Keys) && Visits(order', p.Keys)
    ensures PromoteAll(h, q, order) == PromoteAll(h, p, order')
    ensures Covered(q, order) == Covered(p, order')
  {
    PromotedByTraversal(h, q, order);
    PromotedByTraversal(h, p, order');
    PromotedIsUnique(h, q, PromoteAll(h, q, order), p, PromoteAll(h, p, order'));
    assert forall k :: k in order && Hoisted(q, k) <==> k in order' && Hoisted(p, k);
  }

  // ----- requests that verify alike promote alike

  lemma {:induction false} SignatureIsNotPromoted()
    ensures !Promotable(SIGNATURE_PARAM)
  {
    assert ToLower(SIGNATURE_PARAM) == "x-amz-signature";
  }

  lemma {:induction false} KeptHoisted(pairs: seq<Query.Pair>)
    ensures var q, p := Query.Group(pairs), Query.Group(Query.Kept(pairs, SIGNATURE_PARAM));
            p == q - {SIGNATURE_PARAM} && forall k :: Hoisted(q, k) ==> k in p && q[k] == p[k]
  {
    Query.DeleteGroups(pairs, SIGNATURE_PARAM);
    SignatureIsNotPromoted();
  }

  lemma {:induction false} SameCanonicalSameHoisted(a: seq<Query.Pair>, b: seq<Query.Pair>)
    requires multiset(Query.Kept(a, SIGNATURE_PARAM)) == multiset(Query.Kept(b, SIGNATURE_PARAM))
    ensures SameHoisted(Query.Group(a), Query.Group(b))
  {
    hide Query.Group, Query.Kept, Promotable, Sort;
    var q, p := Query.Group(a), Query.Group(b);
    var u, v := Query.Kept(a, SIGNATURE_PARAM), Query.Kept(b, SIGNATURE_PARAM);
    KeptHoisted(a);
    KeptHoisted(b);
    Query.PermutedGroups(u, v);
    forall k ensures (Hoisted(q, k) <==> Hoisted(p, k)) && (Hoisted(q, k) ==> Sort(q[k]) == Sort(p[k])) {
      if Hoisted(q, k) || Hoisted(p, k) {
        SortCanonical(Query.Group(u)[k], Query.Group(v)[k]);
      }
    }
  }

  lemma {:induction false} SameHoistedSameCollisions(q: Query.Values, p: Query.Values)
    requires SameHoisted(q, p) && NoCollision(q.Keys) && (forall k :: k in p ==> p[k] != [])
    ensures NoCollision(p.Keys)
  {
    hide Canonical.CanonicalKey, Promotable, Sort;
    assert forall k :: k in p && Promotable(k) ==> Hoisted(p, k) && Hoisted(q, k);
  }

  /**
   Two presigned requests with the same canonical query promote the same headers and report
   the same covered names, whatever the wire order of their parameters and whatever the
   order the parameters are visited in, unless two of the parameters name the same header.
   */
  lemma {:induction false} PromotionFollowsSignature(
    h: Header, a: seq<Query.Pair>, order: seq<string>, b: seq<Query.Pair>, order': seq<string>)
    requires Query.BytePairs(a) && Query.BytePairs(b)
    requires Query.CanonicalQuery(a, SIGNATURE_PARAM) == Query.CanonicalQuery(b, SIGNATURE_PARAM)
    requires Visits(order, Query.Group(a).Keys) && Visits(order', Query.Group(b).Keys)
    requires NoCollision(Query.Group(a).Keys)
    ensures PromoteAll(h, Query.Group(a), order) == PromoteAll(h, Query.Group(b), order')
    ensures Covered(Query.Group(a), order) == Covered(Query.Group(b), order')
  {
    hide Query.CanonicalQuery, Query.Kept, Query.Group, PromoteAll, Covered, NoCollision;
    Query.CanonicalQueryEqualIff(a, b, SIGNATURE_PARAM);
    SameCanonicalSameHoisted(a, b);
    SameHoistedSameCollisions(Query.Group(a), Query.Group(b));
    SameHoistedPromotesSame(h, Query.Group(a), order, Query.Group(b), order');
  }

  // ----- without the condition the order shows

  /** Promotion of these parameters never depends on the order, whatever their values and the headers. */
  ghost predicate OrderFree(keys: set<string>) {
    forall h: Header, q: Query.Values, order: seq<string>, order': seq<string> ::
      q.Keys == keys && Visits(order, keys) && Visits(order', keys) ==>
        PromoteAll(h, q, order) == PromoteAll(h, q, order')
  }

  lemma {:induction false} FirstValueStays(h: Header, q: Query.Values, c: string, order: seq<string>)
    requires c in h && h[c] != [] && h[c][0] != ""
    ensures c in PromoteAll(h, q, order) && PromoteAll(h, q, order)[c] == h[c]
    decreases |order|
  {
    if order != [] {
      FirstValueStays(PromoteOne(h, q, order[0]), q, c, order[1..]);
    }
  }

  lemma {:induction false} FirstVisitedWins(q: Query.Values, k: string, v: string, rest: seq<string>)
    requires Promotable(k) && k in q && q[k] == [v] && v != ""
    ensures var c, r := Canonical.CanonicalKey(k), PromoteAll(map[], q, [k] + rest); c in r && r[c] == [v]
  {
    var c := Canonical.CanonicalKey(k);
    var h := PromoteOne(map[], q, k);
    assert Sort([v]) == [v] by {
      assert [v][1..] == [] && Sort([]) == [];
    }
    assert ([k] + rest)[0] == k && ([k] + rest)[1..] == rest;
    FirstValueStays(h, q, c, rest);
  }

  lemma {:induction false} SomeTraversal(keys: set<string>) returns (order: seq<string>)
    ensures Visits(order, keys)
  {
    order := [];
    var left := keys;
    while left != {}
      invariant left <= keys && Visits(order, keys - left)
      decreases left
    {
      var k :| k in left;
      order := order + [k];
      left := left - {k};
    }
    assert keys - left == keys;
  }

  lemma {:induction false} VisitsFirst(k: string, l: string, rest: seq<string>, keys: set<string>)
    requires k in keys && l in keys && k != l && Visits(rest, keys - {k, l})
    ensures Visits([k] + ([l] + rest), keys)
  {
    var order := [k] + ([l] + rest);
    assert forall x :: x in order <==> x == k || x == l || x in rest;
  }

  lemma {:induction false} CollisionShowsOrder(keys: set<string>, k: string, l: string)
    requires k in keys && l in keys && k != l && Promotable(k) && Promotable(l)
    requires Canonical.CanonicalKey(k) == Canonical.CanonicalKey(l)
    ensures !OrderFree(keys)
  {
    hide Canonical.CanonicalKey, Promotable, PromoteAll, Visits;
    var q: Query.Values := map x | x in keys :: if x == l then ["b"] else ["a"];
    var rest := SomeTraversal(keys - {k, l});
    var order, order' := [k] + ([l] + rest), [l] + ([k] + rest);
    VisitsFirst(k, l, rest, keys);
    assert keys - {k, l} == keys - {l, k};
    VisitsFirst(l, k, rest, keys);
    FirstVisitedWins(q, k, "a", [l] + rest);
    FirstVisitedWins(q, l, "b", [k] + rest);
    assert q.Keys == keys;
    assert "a" != "b" && ["a"][0] != ["b"][0];
    assert PromoteAll(map[], q, order) != PromoteAll(map[], q, order');
  }

  /** Promotion is independent of the traversal order exactly when no two parameters name the same header. */
  lemma {:induction false} OrderFreeIff(keys: set<string>)
    ensures OrderFree(keys) <==> NoCollision(keys)
  {
    if NoCollision(keys) {
      forall h: Header, q: Query.Values, order: seq<string>, order': seq<string> |
        q.Keys == keys && Visits(order, keys) && Visits(order', keys)
        ensures PromoteAll(h, q, order) == PromoteAll(h, q, order')
      {
        SameHoistedPromotesSame(h, q, order, q, order');
      }
    } else {
      var k, l :| k in keys && l in keys && k != l && Promotable(k) && Promotable(l) &&
                  Canonical.CanonicalKey(k) == Canonical.CanonicalKey(l);
      CollisionShowsOrder(keys, k, l);
    }
  }
}

/**
 Browser-based POST uploads: the signed policy document's conditions
 (sigv4/postpolicy.go) and the size limits enforced while the file streams to the
 backend (s3gw/postobject.go).
 */
module PostPolicy {
  import opened Text

  const MAX_CONDITIONS := 100
  const MAX_INT64 := 0x7fff_ffff_ffff_ffff

  datatype Condition = Condition(op: string, field: string, value: string)

  /** A decoded JSON element; null decodes into a string or a number as its zero value. */
  datatype Element = Chars(s: string) | Number(n: int) | Null | Other

  /** The decoded policy; its expiration is still text. */
  datatype Document = Document(expiration: string, items: seq<Item>)

  /** One entry of the document: an object in some order of its members, an array, or neither. */
  datatype Item = Object(members: seq<(string, string)>) | Array(elems: seq<Element>) | Unusable

  datatype Range = Range(min: int, max: int)

  datatype Parsed = Bad | Bounds(range: Range) | Cond(c: Condition)

  function AsString(e: Element): (s: Option<string>) {
    match e case Chars(s) => Some(s) case Null => Some("") case _ => None
  }

  /** A number that does not fit an int64 does not decode. */
  function AsNumber(e: Element): (n: Option<int>) {
    match e
    case Number(n) => if -MAX_INT64 - 1 <= n <= MAX_INT64 then Some(n) else None
    case Null => Some(0)
    case _ => None
  }

  function ParseArray(elems: seq<Element>): (p: Parsed)
    ensures p.Bounds? ==> 0 <= p.range.min <= p.range.max <= MAX_INT64
    ensures p.Cond? ==> p.c.op == "eq" || p.c.op == "starts-with"
  {
    if |elems| != 3 || AsString(elems[0]).None? then Bad
    else
      var op := ToLower(AsString(elems[0]).value);
      if op == "eq" || op == "starts-with" then
        var field, value := AsString(elems[1]), AsString(elems[2]);
        if field.None? || !("$" <= field.value) || value.None? then Bad
        else Cond(Condition(op, ToLower(field.value[1..]), value.value))
      else if op == "content-length-range" then
        var lo, hi := AsNumber(elems[1]), AsNumber(elems[2]);
        if lo.None? || hi.None? || lo.value < 0 || hi.value < lo.value then Bad
        else Bounds(Range(lo.value, hi.value))
      else Bad
  }

  // ----- the document

  predicate Usable(item: Item) {
    !item.Unusable? && (item.Array? ==> !ParseArray(item.elems).Bad?)
  }

  function Members(ms: seq<(string, string)>): (cs: seq<Condition>) {
    seq(|ms|, i requires 0 <= i < |ms| => Condition("eq", ToLower(ms[i].0), ms[i].1))
  }

  /** The field conditions of the document. */
  function Conditions(items: seq<Item>): (cs: seq<Condition>) {
    if items == [] then []
    else
      var front, item := Conditions(items[..|items| - 1]), items[|items| - 1];
      match item
      case Object(ms) => front + Members(ms)
      case Array(elems) =>
        var p := ParseArray(elems);
        if p.Cond? then front + [p.c] else front
      case Unusable => front
  }

  /** The content-length-range conditions of the document. */
  function Ranges(items: seq<Item>): (rs: seq<Range>) {
    if items == [] then []
    else
      var front, item := Ranges(items[..|items| - 1]), items[|items| - 1];
      if item.Array? && ParseArray(item.elems).Bounds? then front + [ParseArray(item.elems).range] else front
  }

  function Max(a: int, b: int): (m: int) { if a < b then b else a }

  function Min(a: int, b: int): (m: int) { if a < b then a else b }

  /** The running intersection. */
  function Fold(rs: seq<Range>): (r: Range) {
    if rs == [] then Range(0, MAX_INT64)
    else
      var front, last := Fold(rs[..|rs| - 1]), rs[|rs| - 1];
      Range(Max(front.min, last.min), Min(front.max, last.max))
  }

  predicate Contains(r: Range, size: int) {
    r.min <= size <= r.max
  }

  predicate InEvery(rs: seq<Range>, size: int) {
    forall i :: 0 <= i < |rs| ==> Contains(rs[i], size)
  }

  /** A size lies in the folded range exactly when it lies in every range condition. */
  lemma {:induction false} FoldIsIntersection(rs: seq<Range>, size: int)
    requires 0 <= size <= MAX_INT64
    ensures Contains(Fold(rs), size) <==> InEvery(rs, size)
  {
    if rs != [] {
      var front, last := rs[..|rs| - 1], rs[|rs| - 1];
      FoldIsIntersection(front, size);
      assert InEvery(rs, size) <==> InEvery(front, size) && Contains(last, size) by {
        assert rs == front + [last];
      }
    }
  }

  lemma {:induction false} FoldBounds(rs: seq<Range>)
    requires forall i :: 0 <= i < |rs| ==> 0 <= rs[i].min <= rs[i].max <= MAX_INT64
    ensures 0 <= Fold(rs).min <= MAX_INT64 && 0 <= Fold(rs).max <= MAX_INT64
  {
    if rs != [] {
      FoldBounds(rs[..|rs| - 1]);
    }
  }

  lemma {:induction false} RangesFit(items: seq<Item>)
    ensures forall i :: 0 <= i < |Ranges(items)| ==>
              0 <= Ranges(items)[i].min <= Ranges(items)[i].max <= MAX_INT64
  {
    if items != [] {
      RangesFit(items[..|items| - 1]);
    }
  }

  /** The folded range is refused as empty exactly when no size satisfies every range condition of the document. */
  lemma {:induction false} EmptyFoldIff(items: seq<Item>)
    ensures Fold(Ranges(items)).min > Fold(Ranges(items)).max <==>
            forall size :: 0 <= size <= MAX_INT64 ==> !InEvery(Ranges(items), size)
  {
    hide Ranges;
    var rs := Ranges(items);
    RangesFit(items);
    FoldBounds(rs);
    FoldIsIntersection(rs, Fold(rs).min);
    forall size | 0 <= size <= MAX_INT64 && Fold(rs).min > Fold(rs).max ensures !InEvery(rs, size) {
      FoldIsIntersection(rs, size);
    }
  }

  datatype Outcome = InvalidPolicyDocument | Policy(expiration: int, range: Range, conditions: seq<Condition>)

  /** What is checked entry by entry: an expiration that parses, not too many conditions, each of a known form. */
  predicate Readable(d: Document, parseTime: string -> Option<int>) {
    && d.expiration != "" && parseTime(d.expiration).Some?
    && |d.items| <= MAX_CONDITIONS
    && forall i :: 0 <= i < |d.items| ==> Usable(d.items[i])
  }

  /** None is a document that is not JSON of the expected shape. */
  method ParsePostPolicy(doc: Option<Document>, parseTime: string -> Option<int>) returns (out: Outcome)
    ensures out.Policy? <==>
            && doc.Some? && Readable(doc.value, parseTime)
            && Fold(Ranges(doc.value.items)).min <= Fold(Ranges(doc.value.items)).max
    ensures out.Policy? ==>
              && Some(out.expiration) == parseTime(doc.value.expiration)
              && out.range == Fold(Ranges(doc.value.items))
              && out.conditions == Conditions(doc.value.items)
  {
    hide Fold, ParseArray;
    if doc.None? || doc.value.expiration == "" {
      return InvalidPolicyDocument;
    }
    var exp := parseTime(doc.value.expiration);
    if exp.None? {
      return InvalidPolicyDocument;
    }
    var items := doc.value.items;
    if |items| > MAX_CONDITIONS {
      return InvalidPolicyDocument;
    }
    FoldNone();
    var lo, hi, conds := 0, MAX_INT64, [];
    for i := 0 to |items|
      invariant Range(lo, hi) == Fold(Ranges(items[..i])) && conds == Conditions(items[..i])
      invariant forall j :: 0 <= j < i ==> Usable(items[j])
    {
      var item := items[i];
      assert items[..i + 1][..i] == items[..i];
      FoldStep(items, i);
      match item {
        case Object(ms) =>
          conds := conds + Members(ms);
        case Array(elems) =>
          var p := ParseArray(elems);
          match p {
            case Bad => return InvalidPolicyDocument;
            case Bounds(r) => lo, hi := Max(lo, r.min), Min(hi, r.max);
            case Cond(c) => conds := conds + [c];
          }
        case Unusable =>
          return InvalidPolicyDocument;
      }
    }
    assert items[..|items|] == items;
    if lo > hi {
      return InvalidPolicyDocument;
    }
    return Policy(exp.value, Range(lo, hi), conds);
  }

  lemma {:induction false} FoldNone()
    ensures Fold(Ranges([])) == Range(0, MAX_INT64)
  {
  }

  lemma {:induction false} FoldStep(items: seq<Item>, i: nat)
    requires i < |items|
    ensures var rs, item := Ranges(items[..i]), items[i];
            Fold(Ranges(items[..i + 1])) ==
              if item.Array? && ParseArray(item.elems).Bounds? then
                var r := ParseArray(item.elems).range;
                Range(Max(Fold(rs).min, r.min), Min(Fold(rs).max, r.max))
              else Fold(rs)
  {
    var rs, item := Ranges(items[..i]), items[i];
    assert items[..i + 1][..i] == items[..i];
    if item.Array? && ParseArray(item.elems).Bounds? {
      assert (rs + [ParseArray(item.elems).range])[..|rs|] == rs;
    }
  }

  // ----- what the entries of a document say

  /** The element reads as this text; null reads as none. */
  predicate ReadsAs(e: Element, s: string) {
    e == Chars(s) || (e == Null && s == "")
  }

  /** The element reads as this number; null reads as zero. */
  predicate Counts(e: Element, n: int) {
    (e == Number(n) && -0x8000_0000_0000_0000 <= n <= 0x7fff_ffff_ffff_ffff) || (e == Null && n == 0)
  }

  /** The entry ["content-length-range", lo, hi], its name in any case. */
  ghost predicate SaysRange(item: Item, lo: int, hi: int) {
    && item.Array? && |item.elems| == 3
    && (exists op :: ReadsAs(item.elems[0], op) && ToLower(op) == "content-length-range")
    && Counts(item.elems[1], lo) && Counts(item.elems[2], hi) && 0 <= lo <= hi
  }

  /** The entry {"field": "value"} or ["eq" or "starts-with", "$field", "value"]; operators and fields in any case. */
  ghost predicate SaysField(item: Item, op: string, field: string, value: string) {
    match item
    case Object(ms) => op == "eq" && exists i :: 0 <= i < |ms| && ToLower(ms[i].0) == field && ms[i].1 == value
    case Array(elems) =>
      && |elems| == 3 && (op == "eq" || op == "starts-with")
      && (exists o :: ReadsAs(elems[0], o) && ToLower(o) == op)
      && (exists name :: ReadsAs(elems[1], "$" + name) && ToLower(name) == field)
      && ReadsAs(elems[2], value)
    case Unusable => false
  }

  /** The entry is one of these. */
  ghost predicate Understood(item: Item) {
    || item.Object?
    || (exists lo, hi :: SaysRange(item, lo, hi))
    || (exists op, field, value :: SaysField(item, op, field, value))
  }

  lemma {:induction false} ReadsAsIff(e: Element, s: string)
    ensures AsString(e) == Some(s) <==> ReadsAs(e, s)
  {
  }

  lemma {:induction false} CountsIff(e: Element, n: int)
    ensures AsNumber(e) == Some(n) <==> Counts(e, n)
  {
  }

  lemma {:induction false} BoundsIff(elems: seq<Element>, lo: int, hi: int)
    ensures ParseArray(elems) == Bounds(Range(lo, hi)) <==> SaysRange(Array(elems), lo, hi)
  {
    hide ToLower;
    if |elems| == 3 {
      forall s ensures AsString(elems[0]) == Some(s) <==> ReadsAs(elems[0], s) {
        ReadsAsIff(elems[0], s);
      }
      CountsIff(elems[1], lo);
      CountsIff(elems[2], hi);
      assert |"eq"| == 2 && |"starts-with"| == 11 && |"content-length-range"| == 20;
    }
  }

  lemma {:induction false} OperatorIff(e: Element, op: string)
    ensures (exists o :: ReadsAs(e, o) && ToLower(o) == op) <==> AsString(e).Some? && ToLower(AsString(e).value) == op
  {
    hide ToLower;
    if AsString(e).Some? {
      assert ReadsAs(e, AsString(e).value);
    }
  }

  lemma {:induction false} FieldNameIff(e: Element, field: string)
    ensures (exists name :: ReadsAs(e, "$" + name) && ToLower(name) == field) <==>
            AsString(e).Some? && "$" <= AsString(e).value && ToLower(AsString(e).value[1..]) == field
  {
    hide ToLower;
    if AsString(e).Some? && "$" <= AsString(e).value {
      var name := AsString(e).value[1..];
      assert AsString(e).value == "$" + name;
      assert ReadsAs(e, "$" + name);
    }
    forall name | ReadsAs(e, "$" + name) ensures AsString(e) == Some("$" + name) && ("$" + name)[1..] == name {
    }
  }

  lemma {:induction false} CondIff(elems: seq<Element>, op: string, field: string, value: string)
    ensures ParseArray(elems) == Cond(Condition(op, field, value)) <==> SaysField(Array(elems), op, field, value)
  {
    hide ToLower, ReadsAs, AsString, AsNumber;
    if |elems| == 3 {
      OperatorIff(elems[0], op);
      FieldNameIff(elems[1], field);
      ReadsAsIff(elems[2], value);
    }
  }

  lemma {:induction false} UsableIff(item: Item)
    ensures Usable(item) <==> Understood(item)
  {
    hide ParseArray, SaysRange, SaysField;
    if item.Array? {
      var p := ParseArray(item.elems);
      forall lo, hi ensures p == Bounds(Range(lo, hi)) <==> SaysRange(item, lo, hi) {
        BoundsIff(item.elems, lo, hi);
      }
      forall op, field, value ensures p == Cond(Condition(op, field, value)) <==> SaysField(item, op, field, value) {
        CondIff(item.elems, op, field, value);
      }
      match p {
        case Bad =>
        case Bounds(r) => assert p == Bounds(Range(r.min, r.max));
        case Cond(c) => assert p == Cond(Condition(c.op, c.field, c.value));
      }
    } else {
      NotSaid(item);
    }
  }

  lemma {:induction false} NotSaid(item: Item)
    requires !item.Array?
    ensures forall lo, hi :: !SaysRange(item, lo, hi)
    ensures item.Unusable? ==> forall op, field, value :: !SaysField(item, op, field, value)
  {
  }

  /** The range conditions of a document, and what they say. */
  lemma {:induction false} RangesSaid(items: seq<Item>, lo: int, hi: int)
    ensures Range(lo, hi) in Ranges(items) <==> exists i :: 0 <= i < |items| && SaysRange(items[i], lo, hi)
  {
    hide ParseArray, SaysRange;
    if items != [] {
      var front, item := items[..|items| - 1], items[|items| - 1];
      RangesSaid(front, lo, hi);
      assert items == front + [item];
      if item.Array? {
        BoundsIff(item.elems, lo, hi);
      } else {
        NotSaid(item);
      }
    }
  }

  /** The field conditions of a document, and what they say. */
  lemma {:induction false} ConditionsSaid(items: seq<Item>, op: string, field: string, value: string)
    ensures Condition(op, field, value) in Conditions(items) <==>
            exists i :: 0 <= i < |items| && SaysField(items[i], op, field, value)
  {
    hide Conditions, SaysField;
    if items == [] {
      NoConditions();
    } else {
      var front := items[..|items| - 1];
      ConditionsSaid(front, op, field, value);
      LastItemSaid(items, op, field, value);
      assert forall i :: 0 <= i < |front| ==> front[i] == items[i];
    }
  }

  lemma {:induction false} NoConditions()
    ensures Conditions([]) == []
  {
  }

  lemma {:induction false} LastItemSaid(items: seq<Item>, op: string, field: string, value: string)
    requires items != []
    ensures var c, front, item := Condition(op, field, value), items[..|items| - 1], items[|items| - 1];
            c in Conditions(items) <==> c in Conditions(front) || SaysField(item, op, field, value)
  {
    hide ParseArray, SaysField;
    var c, front, item := Condition(op, field, value), Conditions(items[..|items| - 1]), items[|items| - 1];
    match item {
      case Object(ms) =>
        MembersSaid(ms, op, field, value);
        assert Conditions(items) == front + Members(ms);
      case Array(elems) =>
        CondIff(elems, op, field, value);
        var p := ParseArray(elems);
        assert Conditions(items) == front + if p.Cond? then [p.c] else [];
      case Unusable =>
        NotSaid(item);
    }
  }

  lemma {:induction false} MembersSaid(ms: seq<(string, string)>, op: string, field: string, value: string)
    ensures Condition(op, field, value) in Members(ms) <==> SaysField(Object(ms), op, field, value)
  {
    hide ToLower;
    var c, cs := Condition(op, field, value), Members(ms);
    if c in cs {
      var i :| 0 <= i < |cs| && cs[i] == c;
      assert ToLower(ms[i].0) == field && ms[i].1 == value;
    }
    if SaysField(Object(ms), op, field, value) {
      var i :| 0 <= i < |ms| && ToLower(ms[i].0) == field && ms[i].1 == value;
      assert cs[i] == c;
    }
  }

  // ----- evaluation against the form

  predicate Holds(c: Condition, fields: map<string, string>) {
    && c.field in fields
    && (c.op == "eq" ==> fields[c.field] == c.value)
    && (c.op == "starts-with" ==> c.value <= fields[c.field])
  }

  predicate Exempt(name: string) {
    name == "policy" || name == "x-amz-signature"
  }

  /** Both ways: every condition holds, and every submitted field is named by a condition. */
  ghost predicate Accepts(conds: set<Condition>, fields: map<string, string>) {
    && (forall c :: c in conds ==> Holds(c, fields))
    && (forall name :: name in fields && !Exempt(name) ==> exists c :: c in conds && c.field == name)
  }

  /** The result depends on the conditions only as a set, and not on the order the fields are visited in. */
  method EvaluatePostPolicy(conds: seq<Condition>, fields: map<string, string>) returns (ok: bool)
    ensures ok <==> Accepts((set c | c in conds), fields)
  {
    ghost var all := set c | c in conds;
    var covered: set<string> := {};
    for i := 0 to |conds|
      invariant forall j :: 0 <= j < i ==> Holds(conds[j], fields)
      invariant covered == set j | 0 <= j < i :: conds[j].field
    {
      var c := conds[i];
      assert c in all;
      covered := covered + {c.field};
      if c.field !in fields {
        return false;
      }
      var v := fields[c.field];
      if c.op == "eq" {
        if v != c.value {
          return false;
        }
      } else if c.op == "starts-with" {
        if !(c.value <= v) {
          return false;
        }
      }
    }
    var left := fields.Keys;
    while left != {}
      invariant left <= fields.Keys
      invariant forall name :: name in fields && name !in left && !Exempt(name) ==> name in covered
      decreases left
    {
      var name :| name in left;
      left := left - {name};
      if Exempt(name) {
        continue;
      }
      if name !in covered {
        assert forall c :: c in conds ==> c.field in covered;
        return false;
      }
    }
    forall name | name in fields && !Exempt(name) ensures exists c :: c in conds && c.field == name {
      var j :| 0 <= j < |conds| && conds[j].field == name;
      assert conds[j] in conds;
    }
    return true;
  }

  // ----- the upload

  /** How a read ends besides handing bytes over. */
  datatype Signal = More | EndOfFile | Broken | TooLarge

  /** The body wrapper: it counts what it hands over and fails once that exceeds the maximum. */
  class LengthBoundedBody {
    var n: int
    const max: int

    constructor (max: int)
      ensures n == 0 && this.max == max
    {
      n, this.max := 0, max;
    }

    /** One read of the wrapped file, which handed over this many bytes and ended this way. */
    method Read(got: nat, inner: Signal) returns (s: Signal)
      modifies this
      ensures n == old(n) + got && s == (if n > max then TooLarge else inner)
    {
      n := n + got;
      if n > max {
        return TooLarge;
      }
      return inner;
    }
  }

  function Total(pieces: seq<nat>): (n: nat) {
    if pieces == [] then 0 else Total(pieces[..|pieces| - 1]) + pieces[|pieces| - 1]
  }

  lemma {:induction false} TotalOfPrefix(pieces: seq<nat>, i: nat)
    requires i <= |pieces|
    ensures Total(pieces[..i]) <= Total(pieces)
    decreases |pieces|
  {
    if i < |pieces| {
      TotalOfPrefix(pieces[..|pieces| - 1], i);
      assert pieces[..|pieces| - 1][..i] == pieces[..i];
    } else {
      assert pieces[..i] == pieces;
    }
  }

  /** The uploaded file as its reads come: the pieces, and the last read with how it ends. */
  datatype File = File(pieces: seq<nat>, tail: nat, complete: bool)
  {
    function Size(): (n: nat) { Total(pieces) + tail }
  }

  datatype Upload = Stored | EntityTooLarge | EntityTooSmall | Failed

  /**
   The put and the check behind it. The backend reads the body to its end, unless it gives up after some
   number of reads; what turns out too small afterwards is reported as such.
   */
  method PutObject(range: Range, file: File, giveUp: Option<nat>) returns (u: Upload)
    ensures u == Stored <==> giveUp.None? && file.complete && Contains(range, file.Size())
    ensures u == EntityTooSmall <==>
            giveUp.None? && file.complete && file.Size() < range.min && file.Size() <= range.max
    ensures u == EntityTooLarge ==> file.Size() > range.max
    ensures file.Size() > range.max && giveUp.None? ==> u == EntityTooLarge
  {
    var body := new LengthBoundedBody(range.max);
    for i := 0 to |file.pieces|
      invariant body.n == Total(file.pieces[..i]) && body.max == range.max
      invariant giveUp.Some? ==> i <= giveUp.value
    {
      if giveUp == Some(i) {
        return Failed;
      }
      assert file.pieces[..i + 1][..i] == file.pieces[..i];
      TotalOfPrefix(file.pieces, i + 1);
      var s := body.Read(file.pieces[i], More);
      if s == TooLarge {
        return EntityTooLarge;
      }
    }
    assert file.pieces[..|file.pieces|] == file.pieces;
    if giveUp.Some? {
      return Failed;
    }
    var s := body.Read(file.tail, if file.complete then EndOfFile else Broken);
    if s == TooLarge {
      return EntityTooLarge;
    }
    if s == Broken {
      return Failed;
    }
    if body.n < range.min {
      return EntityTooSmall;
    }
    return Stored;
  }

  /** The form satisfies one field condition. */
  predicate FormMeets(fields: map<string, string>, op: string, field: string, value: string) {
    field in fields && (if op == "eq" then fields[field] == value else value <= fields[field])
  }

  /** The form meets every field condition of the document, and each of its fields is named by one. */
  ghost predicate Covered(items: seq<Item>, fields: map<string, string>) {
    && (forall i, op, field, value :: 0 <= i < |items| && SaysField(items[i], op, field, value) ==>
          FormMeets(fields, op, field, value))
    && (forall name :: name in fields && name != "policy" && name != "x-amz-signature" ==>
          exists i, op, value :: 0 <= i < |items| && SaysField(items[i], op, name, value))
  }

  /** The size is inside every content-length-range of the document. */
  ghost predicate SizeMeets(items: seq<Item>, size: int) {
    forall i, lo, hi :: 0 <= i < |items| && SaysRange(items[i], lo, hi) ==> lo <= size <= hi
  }

  lemma {:induction false} AcceptsIff(items: seq<Item>, fields: map<string, string>)
    ensures Accepts((set c | c in Conditions(items)), fields) <==> Covered(items, fields)
  {
    hide Conditions, SaysField;
    var conds := Conditions(items);
    OperatorsKnown(items);
    forall op, field, value
      ensures Condition(op, field, value) in conds <==>
              exists i :: 0 <= i < |items| && SaysField(items[i], op, field, value)
    {
      ConditionsSaid(items, op, field, value);
    }
    forall c | c in conds ensures Holds(c, fields) <==> FormMeets(fields, c.op, c.field, c.value) {
      assert c == Condition(c.op, c.field, c.value);
    }
    if Accepts((set c | c in conds), fields) {
      forall i, op, field, value | 0 <= i < |items| && SaysField(items[i], op, field, value)
        ensures FormMeets(fields, op, field, value)
      {
        assert Condition(op, field, value) in conds;
      }
      forall name | name in fields && name != "policy" && name != "x-amz-signature"
        ensures exists i, op, value :: 0 <= i < |items| && SaysField(items[i], op, name, value)
      {
        var c :| c in conds && c.field == name;
        assert Condition(c.op, c.field, c.value) in conds;
      }
    }
    if Covered(items, fields) {
      CoveredIsAccepted(items, fields);
    }
  }

  lemma {:induction false} CoveredIsAccepted(items: seq<Item>, fields: map<string, string>)
    requires Covered(items, fields)
    ensures Accepts((set c | c in Conditions(items)), fields)
  {
    hide Conditions, SaysField;
    var conds := Conditions(items);
    OperatorsKnown(items);
    forall c | c in conds ensures Holds(c, fields) {
      ConditionsSaid(items, c.op, c.field, c.value);
      assert c == Condition(c.op, c.field, c.value);
      var i :| 0 <= i < |items| && SaysField(items[i], c.op, c.field, c.value);
      assert FormMeets(fields, c.op, c.field, c.value);
    }
    forall name | name in fields && !Exempt(name) ensures exists c :: c in (set c | c in conds) && c.field == name {
      var i, op, value :| 0 <= i < |items| && SaysField(items[i], op, name, value);
      ConditionsSaid(items, op, name, value);
      assert Condition(op, name, value) in (set c | c in conds);
    }
  }

  lemma {:induction false} OperatorsKnown(items: seq<Item>)
    ensures forall c :: c in Conditions(items) ==> c.op == "eq" || c.op == "starts-with"
  {
    hide ToLower;
    if items != [] {
      OperatorsKnown(items[..|items| - 1]);
    }
  }

  lemma {:induction false} InEveryIff(items: seq<Item>, size: int)
    ensures InEvery(Ranges(items), size) <==> SizeMeets(items, size)
  {
    hide Ranges, SaysRange;
    var rs := Ranges(items);
    forall lo, hi
      ensures Range(lo, hi) in rs <==> exists i :: 0 <= i < |items| && SaysRange(items[i], lo, hi)
    {
      RangesSaid(items, lo, hi);
    }
    if InEvery(rs, size) {
      forall i, lo, hi | 0 <= i < |items| && SaysRange(items[i], lo, hi) ensures lo <= size <= hi {
        assert Range(lo, hi) in rs;
        var j :| 0 <= j < |rs| && rs[j] == Range(lo, hi);
      }
    }
    if SizeMeets(items, size) {
      forall j | 0 <= j < |rs| ensures Contains(rs[j], size) {
        assert rs[j] == Range(rs[j].min, rs[j].max) && Range(rs[j].min, rs[j].max) in rs;
      }
    }
  }

  lemma {:induction false} ReadableIff(d: Document, parseTime: string -> Option<int>)
    ensures Readable(d, parseTime) <==>
            && d.expiration != "" && parseTime(d.expiration).Some?
            && |d.items| <= 100
            && forall i :: 0 <= i < |d.items| ==> Understood(d.items[i])
  {
    hide Usable, Understood;
    forall i | 0 <= i < |d.items| ensures Usable(d.items[i]) <==> Understood(d.items[i]) {
      UsableIff(d.items[i]);
    }
  }

  datatype Answer = InvalidDocument | Expired | AccessDenied | Uploaded(u: Upload)

  /**
   The upload from the signed document to the backend: it is kept exactly when the document can be read and has
   not expired, its conditions and the form cover each other, and the size lies in every content-length-range.
   */
  method PostObject(
    doc: Option<Document>, parseTime: string -> Option<int>, now: int, fields: map<string, string>, file: File,
    giveUp: Option<nat>) returns (a: Answer)
    ensures a == Uploaded(Stored) <==>
            && doc.Some? && doc.value.expiration != "" && parseTime(doc.value.expiration).Some?
            && |doc.value.items| <= 100 && (forall i :: 0 <= i < |doc.value.items| ==> Understood(doc.value.items[i]))
            && now <= parseTime(doc.value.expiration).value
            && Covered(doc.value.items, fields)
            && SizeMeets(doc.value.items, file.Size()) && file.Size() <= 0x7fff_ffff_ffff_ffff
            && file.complete && giveUp.None?
    ensures a == InvalidDocument <==>
            || doc.None? || !Readable(doc.value, parseTime)
            || forall size :: 0 <= size <= MAX_INT64 ==> !InEvery(Ranges(doc.value.items), size)
    ensures a == Expired <==> a != InvalidDocument && now > parseTime(doc.value.expiration).value
    ensures a == AccessDenied <==> a != InvalidDocument && a != Expired && !Covered(doc.value.items, fields)
  {
    hide Fold, Ranges, Conditions, Accepts, InEvery, Readable, Total, Contains, Covered, SizeMeets, Understood;
    if doc.Some? {
      EmptyFoldIff(doc.value.items);
      SizePermittedIff(doc.value.items, file.Size());
      ReadableIff(doc.value, parseTime);
      AcceptsIff(doc.value.items, fields);
      InEveryIff(doc.value.items, file.Size());
    }
    var p := ParsePostPolicy(doc, parseTime);
    if p.InvalidPolicyDocument? {
      return InvalidDocument;
    }
    if now > p.expiration {
      return Expired;
    }
    var ok := EvaluatePostPolicy(p.conditions, fields);
    if !ok {
      return AccessDenied;
    }
    var u := PutObject(p.range, file, giveUp);
    return Uploaded(u);
  }

  /** The folded range permits a size exactly when it fits an int64 and lies in every range condition. */
  lemma {:induction false} SizePermittedIff(items: seq<Item>, size: nat)
    ensures Contains(Fold(Ranges(items)), size) <==> size <= MAX_INT64 && InEvery(Ranges(items), size)
    ensures Contains(Fold(Ranges(items)), size) ==> Fold(Ranges(items)).min <= Fold(Ranges(items)).max
  {
    hide Ranges;
    RangesFit(items);
    FoldBounds(Ranges(items));
    if size <= MAX_INT64 {
      FoldIsIntersection(Ranges(items), size);
    }
  }
}

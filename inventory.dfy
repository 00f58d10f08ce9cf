/** The sweets router: validation rule sets and the create, list, search, update,
    delete, purchase and restock handlers, as methods of an in-memory store of sweet
    records keyed by id. Every handler first runs the route's middleware chain, whose
    verdict it receives, then its own checks in the source's order. */
module Inventory {
  import opened Common
  import opened SweetModel
  import Access

  // ---------------------------------------------------------------------------
  // Request values

  /** A number in a JSON request body or query, as a whole count of hundredths
      (prices are cents). */
  datatype Num = Num(hundredths: int)

  /** Units of a number that passed an integer check. */
  function Units(n: Num): int {
    n.hundredths / 100
  }

  /** express-validator's isInt({ min }) on a body field; a missing field fails. */
  predicate IsIntAtLeast(v: Option<Num>, min: int) {
    v.Some? && v.value.hundredths % 100 == 0 && Units(v.value) >= min
  }

  /** express-validator's isFloat({ min }) on a body field; a missing field fails. */
  predicate IsFloatAtLeast(v: Option<Num>, min: int) {
    v.Some? && v.value.hundredths >= min * 100
  }

  predicate IsHexDigit(c: char) {
    ('0' <= c <= '9') || ('a' <= c <= 'f') || ('A' <= c <= 'F')
  }

  /** ObjectId.isValid on a string: 24 hexadecimal characters, in either letter
      case. */
  predicate IsObjectId(s: string) {
    |s| == 24 && forall i :: 0 <= i < |s| ==> IsHexDigit(s[i])
  }

  /** An id's letter case does not decide whether it is accepted. */
  lemma ObjectIdIgnoresCase(s: string)
    ensures IsObjectId(s) <==> IsObjectId(Lower(s))
  {
    forall i | 0 <= i < |s|
      ensures IsHexDigit(s[i]) <==> IsHexDigit(Lower(s)[i])
    {
      assert Lower(s)[i] == LowerChar(s[i]);
    }
  }

  datatype CreateBody = CreateBody(
    name: Option<string>,
    category: Option<string>,
    price: Option<Num>,
    quantity: Option<Num>,
    description: Option<string>,
    imageUrl: Option<string>)

  /** The body of a purchase or restock request. */
  datatype QuantityBody = QuantityBody(quantity: Option<Num>)

  /** A numeric query parameter: present but empty, a number, or not a number. */
  datatype QueryNum = Blank | Numeric(hundredths: int) | NotNumeric

  datatype SearchQuery = SearchQuery(
    name: Option<string>,
    category: Option<string>,
    minPrice: Option<QueryNum>,
    maxPrice: Option<QueryNum>)

  /** The search condition the handler builds; None imposes no constraint. */
  datatype Filter = Filter(
    name: Option<string>,
    category: Option<string>,
    minPrice: Option<int>,
    maxPrice: Option<int>)

  const NoFilter := Filter(None, None, None, None)

  /** The body of an update: any of the record's fields, including the four that the
      handler deletes before applying it. */
  datatype Patch = Patch(
    id: Option<string>,
    version: Option<int>,
    createdAt: Option<nat>,
    updatedAt: Option<nat>,
    name: Option<string>,
    category: Option<string>,
    price: Option<int>,
    quantity: Option<int>,
    description: Option<string>,
    imageUrl: Option<string>)

  // ---------------------------------------------------------------------------
  // Replies

  datatype Payload = NoData | One(sweet: Sweet) | Many(sweets: seq<Sweet>, count: nat)

  /** A status code and the JSON body { success, message, errors?, data?, count? }. */
  datatype Reply = Reply(status: nat, success: bool, message: string, errors: seq<string>, payload: Payload)

  function Failure(status: nat, message: string): Reply {
    Reply(status, false, message, [], NoData)
  }

  function ValidationFailed(errors: seq<string>): Reply {
    Reply(400, false, "Validation failed", errors, NoData)
  }

  const BadId := Failure(400, "Invalid sweet ID format")
  const NotFound := Failure(404, "Sweet not found")
  const ServerError := Failure(500, "Internal server error")

  /** The answer of the route's middleware chain when it refuses the request. */
  function Refusal(auth: Access.Verdict, adminOnly: bool): (r: Option<Reply>)
    ensures r.None? <==> auth.Proceed? && (!adminOnly || auth.user.role == "admin")
    ensures r.Some? ==> !r.value.success && (r.value.status == 401 || r.value.status == 403 || auth.Deny?)
  {
    var v := Access.Chain(auth, adminOnly);
    if v.Deny? then Some(Failure(v.status, v.message)) else None
  }

  // ---------------------------------------------------------------------------
  // Validation rule sets

  predicate CreateBodyValid(b: CreateBody) {
    && b.name.Some? && b.name.value != ""
    && b.category.Some? && ParseCategory(b.category.value).Some?
    && IsFloatAtLeast(b.price, 0)
    && IsIntAtLeast(b.quantity, 0)
  }

  /** The messages of the failing create rules, in rule order. */
  function CreateErrors(b: CreateBody): (errors: seq<string>)
    ensures errors == [] <==> CreateBodyValid(b)
    ensures |errors| <= 4
  {
    (if b.name.Some? && b.name.value != "" then [] else ["Name is required"])
    + (if b.category.Some? && ParseCategory(b.category.value).Some? then [] else ["Invalid category"])
    + (if IsFloatAtLeast(b.price, 0) then [] else ["Price must be a positive number"])
    + (if IsIntAtLeast(b.quantity, 0) then [] else ["Quantity must be a non-negative integer"])
  }

  /** The purchase and restock rule: the quantity is an integer of at least 1. */
  function QuantityErrors(b: QuantityBody): (errors: seq<string>)
    ensures errors == [] <==> IsIntAtLeast(b.quantity, 1)
  {
    if IsIntAtLeast(b.quantity, 1) then [] else ["Quantity must be at least 1"]
  }

  /** The search rules: each price bound, when present, is a number of at least 0. */
  predicate BoundValid(q: Option<QueryNum>) {
    q.None? || (q.value.Numeric? && q.value.hundredths >= 0)
  }

  function SearchErrors(q: SearchQuery): (errors: seq<string>)
    ensures errors == [] <==> BoundValid(q.minPrice) && BoundValid(q.maxPrice)
  {
    (if BoundValid(q.minPrice) then [] else ["Min price must be positive"])
    + (if BoundValid(q.maxPrice) then [] else ["Max price must be positive"])
  }

  /** The search condition built from a valid query: an empty name or category
      imposes nothing (it is falsy), every present price bound is kept. */
  function FilterOf(q: SearchQuery): (f: Filter)
    requires BoundValid(q.minPrice) && BoundValid(q.maxPrice)
    ensures f.name.Some? <==> q.name.Some? && q.name.value != ""
    ensures f.category.Some? <==> q.category.Some? && q.category.value != ""
    ensures f.minPrice.Some? <==> q.minPrice.Some?
    ensures f.maxPrice.Some? <==> q.maxPrice.Some?
  {
    Filter(
      if q.name.Some? && q.name.value != "" then q.name else None,
      if q.category.Some? && q.category.value != "" then q.category else None,
      if q.minPrice.Some? then Some(q.minPrice.value.hundredths) else None,
      if q.maxPrice.Some? then Some(q.maxPrice.value.hundredths) else None)
  }

  /** A sweet satisfies every constraint the filter has: case-insensitive match on
      name and category, inclusive bounds on price. The empty filter keeps every
      sweet, and a price range whose minimum exceeds its maximum keeps none. */
  predicate Matches(f: Filter, s: Sweet)
    ensures f == NoFilter ==> Matches(f, s)
    ensures f.minPrice.Some? && f.maxPrice.Some? && f.minPrice.value > f.maxPrice.value ==> !Matches(f, s)
  {
    && (f.name.Some? ==> ContainsIgnoreCase(s.name, f.name.value))
    && (f.category.Some? ==> ContainsIgnoreCase(CategoryName(s.category), f.category.value))
    && (f.minPrice.Some? ==> s.price >= f.minPrice.value)
    && (f.maxPrice.Some? ==> s.price <= f.maxPrice.value)
  }

  /** Sorted by createdAt, newest first (and so without repetition). */
  predicate NewestFirst(s: seq<Sweet>) {
    forall i, j :: 0 <= i < j < |s| ==> s[i].createdAt > s[j].createdAt
  }

  /** Places x among a newest-first list by its creation time. */
  function InsertNewest(s: seq<Sweet>, x: Sweet): (r: seq<Sweet>)
    requires NewestFirst(s)
    requires forall y :: y in s ==> y.createdAt != x.createdAt
    ensures NewestFirst(r)
    ensures forall y :: y in r <==> y in s || y == x
    ensures |r| == |s| + 1
  {
    if s == [] then [x]
    else
      NewestTail(s);
      if x.createdAt > s[0].createdAt then
        NewestCons(x, s);
        [x] + s
      else
        var rest := InsertNewest(s[1..], x);
        NewestCons(s[0], rest);
        assert s == [s[0]] + s[1..];
        [s[0]] + rest
  }

  lemma NewestTail(s: seq<Sweet>)
    requires NewestFirst(s) && s != []
    ensures NewestFirst(s[1..])
    ensures forall y :: y in s[1..] ==> s[0].createdAt > y.createdAt
  {
    forall y | y in s[1..] ensures s[0].createdAt > y.createdAt {
      var j :| 0 <= j < |s[1..]| && s[1..][j] == y;
      assert s[j + 1] == y;
    }
  }

  lemma NewestCons(h: Sweet, t: seq<Sweet>)
    requires NewestFirst(t) && forall y :: y in t ==> h.createdAt > y.createdAt
    ensures NewestFirst([h] + t)
  {
    var r := [h] + t;
    forall i, j | 0 <= i < j < |r| ensures r[i].createdAt > r[j].createdAt {
      if i == 0 {
        assert r[j] == t[j - 1] && r[j] in t;
      } else {
        assert r[i] == t[i - 1] && r[j] == t[j - 1];
      }
    }
  }

  // ---------------------------------------------------------------------------
  // Record construction and update

  /** The record Sweet.create stores for a validated body: the schema trims the
      text fields. */
  function NewSweet(b: CreateBody, id: string, stamp: nat): (s: Sweet)
    requires CreateBodyValid(b)
    ensures s.id == id && s.createdAt == stamp && s.updatedAt == stamp
    ensures Trim(b.name.value) != "" ==> SchemaValid(s)
  {
    Sweet(
      id,
      Trim(b.name.value),
      ParseCategory(b.category.value).value,
      b.price.value.hundredths,
      Units(b.quantity.value),
      if b.description.Some? then Some(Trim(b.description.value)) else None,
      if b.imageUrl.Some? then Some(Trim(b.imageUrl.value)) else None,
      stamp,
      stamp)
  }

  /** The update body with the identity, version and timestamp keys deleted. */
  function Strip(p: Patch): (q: Patch)
    ensures q.id.None? && q.version.None? && q.createdAt.None? && q.updatedAt.None?
    ensures q.(id := p.id, version := p.version, createdAt := p.createdAt, updatedAt := p.updatedAt) == p
  {
    p.(id := None, version := None, createdAt := None, updatedAt := None)
  }

  /** The schema validators that findByIdAndUpdate runs on the fields it sets (after
      the schema's trim). */
  predicate PatchValid(p: Patch) {
    && (p.name.Some? ==> Trim(p.name.value) != "")
    && (p.category.Some? ==> ParseCategory(p.category.value).Some?)
    && (p.price.Some? ==> p.price.value >= 0)
    && (p.quantity.Some? ==> p.quantity.value >= 0)
  }

  /** An optional text field after a patch: the trimmed new text, or the old value. */
  lemma PatchedText(given: Option<string>, kept: Option<string>)
    ensures TrimmedOption(kept) ==> TrimmedOption(if given.Some? then Some(Trim(given.value)) else kept)
  {
  }

  /** The record after a valid update at time stamp: the fields the body names are
      replaced, the rest kept; the id and createdAt never change. */
  function Apply(s: Sweet, p: Patch, stamp: nat): (r: Sweet)
    requires PatchValid(p)
    ensures r.id == s.id && r.createdAt == s.createdAt && r.updatedAt == stamp
    ensures SchemaValid(s) ==> SchemaValid(r)
  {
    var name := if p.name.Some? then Trim(p.name.value) else s.name;
    var category := if p.category.Some? then ParseCategory(p.category.value).value else s.category;
    var price := if p.price.Some? then p.price.value else s.price;
    var quantity := if p.quantity.Some? then p.quantity.value else s.quantity;
    var description := if p.description.Some? then Some(Trim(p.description.value)) else s.description;
    var imageUrl := if p.imageUrl.Some? then Some(Trim(p.imageUrl.value)) else s.imageUrl;
    PatchedText(p.description, s.description);
    PatchedText(p.imageUrl, s.imageUrl);
    Sweet(s.id, name, category, price, quantity, description, imageUrl, s.createdAt, stamp)
  }

  // ---------------------------------------------------------------------------
  // Quantities sent as text

  /** A body field as JSON carries it. isInt checks either kind through its text, so
      a restock body may hold the quantity as a string. */
  datatype BodyValue = JsonNumber(n: Num) | JsonString(s: string)

  predicate AllDigits(s: string) {
    forall i :: 0 <= i < |s| ==> IsDigit(s[i])
  }

  /** The integer a string spells for isInt (leading zeroes allowed) and for
      Number(): an optional sign and one or more digits, nothing else; None when the
      string is not of that form. */
  function IntText(s: string): Option<int> {
    if s != [] && (s[0] == '+' || s[0] == '-') then
      if |s| >= 2 && AllDigits(s[1..]) then
        var magnitude: int := DigitsValue(s[1..]);
        Some(if s[0] == '-' then -magnitude else magnitude)
      else None
    else if s != [] && AllDigits(s) then Some(DigitsValue(s))
    else None
  }

  /** The whole number a body value stands for, as isInt and JavaScript's numeric
      operators read it; None when it is not one. */
  function Amount(v: BodyValue): (r: Option<int>)
    ensures v.JsonNumber? ==> (r.Some? && r.value >= 1 <==> IsIntAtLeast(Some(v.n), 1))
    ensures v.JsonNumber? && r.Some? ==> r.value == Units(v.n)
  {
    match v
    case JsonNumber(n) => if n.hundredths % 100 == 0 then Some(Units(n)) else None
    case JsonString(s) => IntText(s)
  }

  /** restockValidation on a body value of either kind. */
  predicate RestockValueValid(v: BodyValue) {
    Amount(v).Some? && Amount(v).value >= 1
  }

  /** Sweet.restock as written: quantity += value. A number is added; a string is
      appended to the stock's decimal text, and Mongoose casts the result back when it
      spells an integer and otherwise refuses the save with a cast error (None, which
      the handler answers with a 500). */
  function RestockedAsWritten(stock: int, v: BodyValue): Option<int>
    requires RestockValueValid(v)
  {
    match v
    case JsonNumber(n) => Some(stock + Units(n))
    case JsonString(s) => IntText(IntToString(stock) + s)
  }

  /** The restock the route evidently intends: the stock grows by the amount asked
      for, whichever kind of value carries it. */
  function RestockedIntended(stock: int, v: BodyValue): (r: int)
    requires RestockValueValid(v)
    ensures r > stock
    ensures r - stock == Amount(v).value
  {
    stock + Amount(v).value
  }

  /** The two readings agree on a numeric quantity. */
  lemma RestockAgreesOnNumbers(stock: int, n: Num)
    requires RestockValueValid(JsonNumber(n))
    ensures RestockedAsWritten(stock, JsonNumber(n)) == Some(RestockedIntended(stock, JsonNumber(n)))
    ensures RestockedIntended(stock, JsonNumber(n)) == stock + Units(n)
  {
  }

  /** IntText reads back what number-to-string wrote. */
  lemma IntTextOfIntToString(i: int)
    ensures IntText(IntToString(i)) == Some(i)
  {
    var m: nat := if i < 0 then -i else i;
    NatToStringValue(m);
    if i < 0 {
      assert IntToString(i)[1..] == NatToString(m);
    }
  }

  function Pow10(k: nat): (r: nat)
    ensures r >= 1
    ensures k >= 1 ==> r >= 10
  {
    if k == 0 then 1 else 10 * Pow10(k - 1)
  }

  /** The value of two digit strings written one after the other. */
  lemma {:induction false} DigitsValueAppend(a: string, b: string)
    requires AllDigits(a) && AllDigits(b)
    ensures AllDigits(a + b)
    ensures DigitsValue(a + b) == DigitsValue(a) * Pow10(|b|) + DigitsValue(b)
    decreases |b|
  {
    var c := a + b;
    assert forall i :: 0 <= i < |c| ==> IsDigit(c[i]) by {
      forall i | 0 <= i < |c| ensures IsDigit(c[i]) {
        if i >= |a| { assert c[i] == b[i - |a|]; }
      }
    }
    if b == [] {
      assert c == a;
    } else {
      var b' := b[..|b| - 1];
      var last := DigitValue(b[|b| - 1]);
      DigitsValueAppend(a, b');
      assert c[..|c| - 1] == a + b';
      assert DigitsValue(c) == DigitsValue(a + b') * 10 + last;
      assert DigitsValue(b) == DigitsValue(b') * 10 + last;
      MulShift(DigitsValue(a), Pow10(|b'|), DigitsValue(b'), last);
    }
  }

  lemma MulShift(x: nat, p: nat, y: nat, d: nat)
    ensures (x * p + y) * 10 + d == x * (10 * p) + (y * 10 + d)
  {
  }

  /** A string of digits is appended to the stock instead of added to it: the result
      is the stock shifted left by the digits' length plus their value, which is the
      intended sum only when the stock is 0. */
  lemma DigitStringRestockConcatenates(stock: nat, digits: string)
    requires RestockValueValid(JsonString(digits)) && AllDigits(digits)
    ensures RestockedAsWritten(stock, JsonString(digits)) == Some(stock * Pow10(|digits|) + DigitsValue(digits))
    ensures RestockedAsWritten(stock, JsonString(digits)) == Some(RestockedIntended(stock, JsonString(digits)))
            <==> stock == 0
  {
    var v := JsonString(digits);
    var text := NatToString(stock);
    var p := Pow10(|digits|);
    var d := DigitsValue(digits);
    assert IntToString(stock) == text;
    assert RestockedAsWritten(stock, v) == IntText(text + digits);
    NatToStringValue(stock);
    DigitsValueAppend(text, digits);
    IntTextOfDigits(text + digits);
    assert RestockedAsWritten(stock, v) == Some(stock * p + d);
    IntTextOfDigits(digits);
    assert RestockedIntended(stock, v) == stock + d;
    ShiftExceedsSum(stock, p, d);
  }

  lemma IntTextOfDigits(t: string)
    requires t != [] && AllDigits(t)
    ensures IntText(t) == Some(DigitsValue(t))
  {
    assert IsDigit(t[0]);
  }

  lemma ShiftExceedsSum(stock: nat, p: nat, d: nat)
    requires p >= 10
    ensures stock * p + d == stock + d <==> stock == 0
  {
    if stock != 0 {
      assert stock * p >= stock * 10;
    }
  }

  /** A signed string ("+5") passes the rule, but the concatenation ("10+5") is not a
      number: the save is refused where the intended restock goes through. */
  lemma SignedStringRestockFails(stock: nat, digits: string)
    requires RestockValueValid(JsonString("+" + digits))
    ensures RestockedAsWritten(stock, JsonString("+" + digits)) == None
  {
    var text := NatToString(stock) + "+" + digits;
    assert IntToString(stock) + ("+" + digits) == text;
    assert text[0] == NatToString(stock)[0];
    assert text[|NatToString(stock)|] == '+';
    assert !AllDigits(text);
    assert !AllDigits(text[1..]) by {
      assert text[1..][|NatToString(stock)| - 1] == '+';
    }
  }

  /** Stock 10 restocked with the string "5" becomes 105 rather than 15; with "+5"
      the save fails. */
  lemma RestockStringCounterexample()
    ensures RestockValueValid(JsonString("5")) && RestockValueValid(JsonString("+5"))
    ensures RestockedAsWritten(10, JsonString("5")) == Some(105)
    ensures RestockedIntended(10, JsonString("5")) == 15
    ensures RestockedAsWritten(10, JsonString("+5")) == None
    ensures RestockedIntended(10, JsonString("+5")) == 15
  {
    assert DigitValue('5') == 5;
    assert ("+5")[1..] == "5";
    DigitStringRestockConcatenates(10, "5");
    assert "+" + "5" == "+5";
    SignedStringRestockFails(10, "5");
    assert NatToString(10) == "10";
  }

  // ---------------------------------------------------------------------------
  // The store

  /** Every record sits under its own id and meets the schema, its stamps are in the
      past, and no two records were created at the same tick. */
  ghost predicate StoreValid(sweets: map<string, Sweet>, clock: nat) {
    && (forall k :: k in sweets ==>
          sweets[k].id == k && SchemaValid(sweets[k]) && sweets[k].createdAt < clock && sweets[k].updatedAt < clock)
    && (forall k1, k2 :: k1 in sweets && k2 in sweets && k1 != k2 ==> sweets[k1].createdAt != sweets[k2].createdAt)
  }

  /** Writing a record back under its id, with its creation time kept and the current
      tick as its update time, keeps the store valid once the clock ticks. */
  lemma Restamped(sweets: map<string, Sweet>, clock: nat, id: string, s: Sweet)
    requires StoreValid(sweets, clock) && id in sweets
    requires s.id == id && SchemaValid(s) && s.createdAt == sweets[id].createdAt && s.updatedAt == clock
    ensures StoreValid(sweets[id := s], clock + 1)
  {
    var after := sweets[id := s];
    forall k | k in after
      ensures after[k].id == k && SchemaValid(after[k]) && after[k].createdAt < clock + 1 && after[k].updatedAt < clock + 1
    {
      if k != id {
        assert after[k] == sweets[k];
      }
    }
    forall k1, k2 | k1 in after && k2 in after && k1 != k2
      ensures after[k1].createdAt != after[k2].createdAt
    {
      assert after[k1].createdAt == sweets[k1].createdAt && after[k2].createdAt == sweets[k2].createdAt;
    }
  }

  /** Adding a record under a fresh id, created and updated at the current tick,
      keeps the store valid once the clock ticks. */
  lemma Inserted(sweets: map<string, Sweet>, clock: nat, id: string, s: Sweet)
    requires StoreValid(sweets, clock) && id !in sweets
    requires s.id == id && SchemaValid(s) && s.createdAt == clock && s.updatedAt == clock
    ensures StoreValid(sweets[id := s], clock + 1)
  {
    var after := sweets[id := s];
    forall k | k in after
      ensures after[k].id == k && SchemaValid(after[k]) && after[k].createdAt < clock + 1 && after[k].updatedAt < clock + 1
    {
      if k != id {
        assert after[k] == sweets[k];
      }
    }
    forall k1, k2 | k1 in after && k2 in after && k1 != k2
      ensures after[k1].createdAt != after[k2].createdAt
    {
      if k1 != id && k2 != id {
        assert after[k1] == sweets[k1] && after[k2] == sweets[k2];
      }
    }
  }

  class Store {
    var sweets: map<string, Sweet>
    /** The logical clock that stamps createdAt and updatedAt; it ticks on every write. */
    var clock: nat

    ghost predicate Valid()
      reads this
    {
      StoreValid(sweets, clock)
    }

    constructor ()
      ensures Valid() && sweets == map[] && clock == 0
    {
      sweets := map[];
      clock := 0;
    }

    /** Sweet.find(filter).sort({ createdAt: -1 }): exactly the matching records,
        newest first. */
    method Select(f: Filter) returns (found: seq<Sweet>)
      requires Valid()
      ensures forall s :: s in found ==> s.id in sweets && sweets[s.id] == s && Matches(f, s)
      ensures forall k :: k in sweets && Matches(f, sweets[k]) ==> sweets[k] in found
      ensures NewestFirst(found)
    {
      var rest := sweets.Keys;
      found := [];
      while rest != {}
        invariant rest <= sweets.Keys
        invariant forall s :: s in found ==> s.id in sweets && s.id !in rest && sweets[s.id] == s && Matches(f, s)
        invariant forall k :: k in sweets && k !in rest && Matches(f, sweets[k]) ==> sweets[k] in found
        invariant NewestFirst(found)
        decreases rest
      {
        var k :| k in rest;
        rest := rest - {k};
        if Matches(f, sweets[k]) {
          found := InsertNewest(found, sweets[k]);
        }
      }
    }

    /** GET /: every sweet, newest first, with its count. */
    method List(auth: Access.Verdict) returns (r: Reply)
      requires Valid()
      ensures Refusal(auth, false).Some? ==> r == Refusal(auth, false).value
      ensures Refusal(auth, false).None? ==>
        && r.status == 200 && r.success && r.message == "Sweets retrieved successfully"
        && r.payload.Many? && r.payload.count == |r.payload.sweets|
        && NewestFirst(r.payload.sweets)
        && (forall s :: s in r.payload.sweets <==> s in sweets.Values)
    {
      var refused := Refusal(auth, false);
      if refused.Some? {
        return refused.value;
      }
      var found := Select(NoFilter);
      forall s | s in sweets.Values ensures s in found {
        var k :| k in sweets && sweets[k] == s;
      }
      r := Reply(200, true, "Sweets retrieved successfully", [], Many(found, |found|));
    }

    /** GET /search: the sweets meeting every supplied filter, newest first. */
    method Search(auth: Access.Verdict, q: SearchQuery) returns (r: Reply)
      requires Valid()
      ensures Refusal(auth, false).Some? ==> r == Refusal(auth, false).value
      ensures Refusal(auth, false).None? && SearchErrors(q) != [] ==> r == ValidationFailed(SearchErrors(q))
      ensures Refusal(auth, false).None? && SearchErrors(q) == [] ==>
        && r.status == 200 && r.success && r.message == "Search completed successfully"
        && r.payload.Many? && r.payload.count == |r.payload.sweets|
        && NewestFirst(r.payload.sweets)
        && (forall s :: s in r.payload.sweets <==> s in sweets.Values && Matches(FilterOf(q), s))
    {
      var refused := Refusal(auth, false);
      if refused.Some? {
        return refused.value;
      }
      var errors := SearchErrors(q);
      if errors != [] {
        return ValidationFailed(errors);
      }
      // The condition is built one supplied field at a time.
      var filter := NoFilter;
      if q.name.Some? && q.name.value != "" {
        filter := filter.(name := q.name);
      }
      if q.category.Some? && q.category.value != "" {
        filter := filter.(category := q.category);
      }
      if q.minPrice.Some? {
        filter := filter.(minPrice := Some(q.minPrice.value.hundredths));
      }
      if q.maxPrice.Some? {
        filter := filter.(maxPrice := Some(q.maxPrice.value.hundredths));
      }
      assert filter == FilterOf(q);
      var found := Select(filter);
      forall s | s in sweets.Values && Matches(FilterOf(q), s) ensures s in found {
        var k :| k in sweets && sweets[k] == s;
      }
      r := Reply(200, true, "Search completed successfully", [], Many(found, |found|));
    }

    /** POST /: admin only; the role gate runs before the body rules. newId is the id
        the database assigns. */
    method Create(auth: Access.Verdict, body: CreateBody, newId: string) returns (r: Reply)
      requires Valid()
      requires newId !in sweets
      modifies this
      ensures Valid()
      ensures Refusal(auth, true).Some? ==> r == Refusal(auth, true).value
      ensures Refusal(auth, true).None? && CreateErrors(body) != [] ==> r == ValidationFailed(CreateErrors(body))
      ensures Refusal(auth, true).None? && CreateErrors(body) == [] && Trim(body.name.value) == "" ==> r == ServerError
      ensures r.success <==> Refusal(auth, true).None? && CreateErrors(body) == [] && Trim(body.name.value) != ""
      ensures !r.success ==> sweets == old(sweets) && clock == old(clock)
      ensures r.success ==>
        && CreateBodyValid(body)
        && r == Reply(201, true, "Sweet created successfully", [], One(NewSweet(body, newId, old(clock))))
        && sweets == old(sweets)[newId := NewSweet(body, newId, old(clock))]
        && clock == old(clock) + 1
    {
      var refused := Refusal(auth, true);
      if refused.Some? {
        return refused.value;
      }
      var errors := CreateErrors(body);
      if errors != [] {
        return ValidationFailed(errors);
      }
      // The schema trims the name and then requires it: a blank name throws.
      if Trim(body.name.value) == "" {
        return ServerError;
      }
      var sweet := NewSweet(body, newId, clock);
      Inserted(sweets, clock, newId, sweet);
      sweets := sweets[newId := sweet];
      clock := clock + 1;
      r := Reply(201, true, "Sweet created successfully", [], One(sweet));
    }

    /** PUT /:id: admin only; id format, then the schema validators on the stripped
        body (a failure throws, giving 500), then existence. */
    method Update(auth: Access.Verdict, id: string, patch: Patch) returns (r: Reply)
      requires Valid()
      modifies this
      ensures Valid()
      ensures Refusal(auth, true).Some? ==> r == Refusal(auth, true).value
      ensures Refusal(auth, true).None? && !IsObjectId(id) ==> r == BadId
      ensures Refusal(auth, true).None? && IsObjectId(id) && !PatchValid(Strip(patch)) ==> r == ServerError
      ensures Refusal(auth, true).None? && IsObjectId(id) && PatchValid(Strip(patch)) && id !in old(sweets) ==> r == NotFound
      ensures r.success <==> Refusal(auth, true).None? && IsObjectId(id) && PatchValid(Strip(patch)) && id in old(sweets)
      ensures !r.success ==> sweets == old(sweets) && clock == old(clock)
      ensures r.success ==>
        && PatchValid(Strip(patch)) && id in old(sweets)
        && sweets == old(sweets)[id := Apply(old(sweets)[id], Strip(patch), old(clock))]
        && sweets[id].createdAt == old(sweets)[id].createdAt
        && clock == old(clock) + 1
        && r == Reply(200, true, "Sweet updated successfully", [], One(sweets[id]))
    {
      var refused := Refusal(auth, true);
      if refused.Some? {
        return refused.value;
      }
      if !IsObjectId(id) {
        return BadId;
      }
      // The identity, version and timestamp keys are deleted from the body.
      var data := patch;
      data := data.(id := None);
      data := data.(version := None);
      data := data.(createdAt := None);
      data := data.(updatedAt := None);
      assert data == Strip(patch);
      if !PatchValid(data) {
        return ServerError;
      }
      if id !in sweets {
        return NotFound;
      }
      var updated := Apply(sweets[id], data, clock);
      sweets := sweets[id := updated];
      clock := clock + 1;
      r := Reply(200, true, "Sweet updated successfully", [], One(updated));
    }

    /** DELETE /:id: admin only; id format, then existence. */
    method Delete(auth: Access.Verdict, id: string) returns (r: Reply)
      requires Valid()
      modifies this
      ensures Valid()
      ensures Refusal(auth, true).Some? ==> r == Refusal(auth, true).value
      ensures Refusal(auth, true).None? && !IsObjectId(id) ==> r == BadId
      ensures Refusal(auth, true).None? && IsObjectId(id) && id !in old(sweets) ==> r == NotFound
      ensures r.success <==> Refusal(auth, true).None? && IsObjectId(id) && id in old(sweets)
      ensures !r.success ==> sweets == old(sweets)
      ensures r.success ==> sweets == old(sweets) - {id} && r == Reply(200, true, "Sweet deleted successfully", [], NoData)
      ensures clock == old(clock)
    {
      var refused := Refusal(auth, true);
      if refused.Some? {
        return refused.value;
      }
      if !IsObjectId(id) {
        return BadId;
      }
      if id !in sweets {
        return NotFound;
      }
      sweets := sweets - {id};
      r := Reply(200, true, "Sweet deleted successfully", [], NoData);
    }

    /** POST /:id/purchase: any authenticated user; quantity rule, id format,
        existence, then stock. */
    method Purchase(auth: Access.Verdict, id: string, body: QuantityBody) returns (r: Reply)
      requires Valid()
      modifies this
      ensures Valid()
      ensures Refusal(auth, false).Some? ==> r == Refusal(auth, false).value
      ensures Refusal(auth, false).None? && QuantityErrors(body) != [] ==> r == ValidationFailed(QuantityErrors(body))
      ensures Refusal(auth, false).None? && QuantityErrors(body) == [] && !IsObjectId(id) ==> r == BadId
      ensures Refusal(auth, false).None? && QuantityErrors(body) == [] && IsObjectId(id) && id !in old(sweets) ==> r == NotFound
      ensures (Refusal(auth, false).None? && QuantityErrors(body) == [] && IsObjectId(id) && id in old(sweets)
               && old(sweets)[id].quantity < Units(body.quantity.value)) ==> r == Failure(400, "Insufficient stock")
      ensures r.success <==>
        && Refusal(auth, false).None? && QuantityErrors(body) == [] && IsObjectId(id) && id in old(sweets)
        && Units(body.quantity.value) <= old(sweets)[id].quantity
      ensures !r.success ==> sweets == old(sweets) && clock == old(clock)
      ensures r.success ==>
        var before := old(sweets)[id];
        && sweets == old(sweets)[id := before.(quantity := before.quantity - Units(body.quantity.value), updatedAt := old(clock))]
        && clock == old(clock) + 1
        && r == Reply(200, true, "Purchase successful", [], One(sweets[id]))
    {
      var refused := Refusal(auth, false);
      if refused.Some? {
        return refused.value;
      }
      var errors := QuantityErrors(body);
      if errors != [] {
        return ValidationFailed(errors);
      }
      var n := Units(body.quantity.value);
      if !IsObjectId(id) {
        return BadId;
      }
      if id !in sweets {
        return NotFound;
      }
      if sweets[id].quantity < n {
        return Failure(400, "Insufficient stock");
      }
      var doc := new SweetDocument.Load(sweets[id]);
      // The document's own stock check cannot fail after the handler's.
      var result := doc.Purchase(n, clock);
      assert result.success;
      var purchased := doc.Snapshot();
      Restamped(sweets, clock, id, purchased);
      sweets := sweets[id := purchased];
      clock := clock + 1;
      r := Reply(200, true, "Purchase successful", [], One(purchased));
    }

    /** POST /:id/restock: admin only; quantity rule, id format, existence. */
    method Restock(auth: Access.Verdict, id: string, body: QuantityBody) returns (r: Reply)
      requires Valid()
      modifies this
      ensures Valid()
      ensures Refusal(auth, true).Some? ==> r == Refusal(auth, true).value
      ensures Refusal(auth, true).None? && QuantityErrors(body) != [] ==> r == ValidationFailed(QuantityErrors(body))
      ensures Refusal(auth, true).None? && QuantityErrors(body) == [] && !IsObjectId(id) ==> r == BadId
      ensures Refusal(auth, true).None? && QuantityErrors(body) == [] && IsObjectId(id) && id !in old(sweets) ==> r == NotFound
      ensures r.success <==> Refusal(auth, true).None? && QuantityErrors(body) == [] && IsObjectId(id) && id in old(sweets)
      ensures !r.success ==> sweets == old(sweets) && clock == old(clock)
      ensures r.success ==>
        var before := old(sweets)[id];
        && sweets == old(sweets)[id := before.(quantity := RestockedIntended(before.quantity, JsonNumber(body.quantity.value)),
                                               updatedAt := old(clock))]
        && clock == old(clock) + 1
        && r == Reply(200, true, "Restock successful", [], One(sweets[id]))
    {
      var refused := Refusal(auth, true);
      if refused.Some? {
        return refused.value;
      }
      var errors := QuantityErrors(body);
      if errors != [] {
        return ValidationFailed(errors);
      }
      var n := Units(body.quantity.value);
      if !IsObjectId(id) {
        return BadId;
      }
      if id !in sweets {
        return NotFound;
      }
      var doc := new SweetDocument.Load(sweets[id]);
      // A stored stock is at least 0 and n at least 1, so the save cannot reject.
      var saved := doc.Restock(n, clock);
      assert saved;
      var restocked := doc.Snapshot();
      Restamped(sweets, clock, id, restocked);
      sweets := sweets[id := restocked];
      clock := clock + 1;
      r := Reply(200, true, "Restock successful", [], One(restocked));
    }
  }

  // ---------------------------------------------------------------------------
  // Properties

  /** A name search finds every sweet whose name holds the pattern anywhere, in any
      letter case. */
  lemma NameSearchFindsInfix(s: Sweet, before: string, pattern: string, after: string)
    requires s.name == before + pattern + after
    ensures Matches(Filter(Some(pattern), None, None, None), s)
  {
    ContainsIgnoreCaseInfix(before, pattern, after);
  }

  /** Searching "CHOC" and "choc" selects the same sweets. */
  lemma SearchIgnoresPatternCase(s: Sweet, name: string, category: string)
    ensures Matches(Filter(Some(name), Some(category), None, None), s)
        <==> Matches(Filter(Some(Lower(name)), Some(Lower(category)), None, None), s)
  {
    PatternCaseIrrelevant(s.name, name);
    PatternCaseIrrelevant(CategoryName(s.category), category);
  }

  /** The price bounds are inclusive: a sweet priced exactly at a bound is kept, and
      one outside either bound is dropped. */
  lemma PriceBoundsInclusive(q: SearchQuery, s: Sweet)
    requires q.name.None? && q.category.None?
    requires q.minPrice.Some? && q.maxPrice.Some? && BoundValid(q.minPrice) && BoundValid(q.maxPrice)
    ensures Matches(FilterOf(q), s) <==> q.minPrice.value.hundredths <= s.price <= q.maxPrice.value.hundredths
  {
  }

  /** A valid query with nothing to filter on (absent or empty) keeps every sweet. */
  lemma EmptyQueryKeepsAll(q: SearchQuery, s: Sweet)
    requires q.name.None? || q.name.value == ""
    requires q.category.None? || q.category.value == ""
    requires q.minPrice.None? && q.maxPrice.None?
    ensures SearchErrors(q) == [] && Matches(FilterOf(q), s)
  {
  }

  /** requireAdmin on the write routes: an authenticated non-admin gets 403 and the
      store is left as it was. */
  method NonAdminCannotDelete(store: Store, user: Access.Identity, id: string) returns (r: Reply)
    requires store.Valid() && user.role != "admin"
    modifies store
    ensures r == Failure(403, "Admin access required")
    ensures store.sweets == old(store.sweets)
  {
    r := store.Delete(Access.Proceed(user), id);
  }

  /** A sweet an admin has just created heads the next listing, being the newest. */
  method CreatedSweetIsListedFirst(store: Store, admin: Access.Identity, user: Access.Identity, body: CreateBody, newId: string)
    returns (created: Reply, listed: Reply)
    requires store.Valid() && newId !in store.sweets
    requires admin.role == "admin" && CreateBodyValid(body) && Trim(body.name.value) != ""
    modifies store
    ensures created.status == 201
    ensures listed.status == 200 && listed.payload.Many?
    ensures |listed.payload.sweets| >= 1 && listed.payload.sweets[0] == NewSweet(body, newId, old(store.clock))
  {
    var stamp := store.clock;
    created := store.Create(Access.Proceed(admin), body, newId);
    var made := NewSweet(body, newId, stamp);
    assert store.sweets[newId] == made;
    listed := store.List(Access.Proceed(user));
    var all := listed.payload.sweets;
    assert made in all;
    var j :| 0 <= j < |all| && all[j] == made;
    // The head is a stored record no older than the new one, so it is the new one.
    assert all[0] in store.sweets.Values;
    var k :| k in store.sweets && store.sweets[k] == all[0];
    assert all[0].createdAt >= all[j].createdAt;
    assert k == newId;
  }
}

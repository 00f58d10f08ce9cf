/** Helpers both dashboard pages define identically: reading a cookie, building the
    search parameters, the comparator behind the sort menu, and the list of distinct
    categories. */
module Dashboard {
  import opened Common
  import Inventory

  /** A sweet as the pages receive it. Prices are integer cents. */
  datatype Product = Product(
    id: string,
    name: string,
    price: int,
    quantity: int,
    description: Option<string>,
    category: Option<string>,
    imageUrl: Option<string>)

  // ---------------------------------------------------------------------------
  // Cookies

  /** What a cookie lookup gives: no entry with the name, an entry without '=' (whose
      value is undefined), or the entry's value. */
  datatype CookieValue = NoCookie | Bare | Valued(value: string)

  /** The name and value of one entry of document.cookie: the entry is trimmed and
      split on '='; the name is the first piece, the value the second. */
  function ReadEntry(entry: string): (nv: (string, CookieValue))
    ensures '=' !in nv.0 && !nv.1.NoCookie?
    ensures nv.1.Valued? ==> '=' !in nv.1.value
  {
    var parts := Split(Trim(entry), '=');
    (parts[0], if |parts| < 2 then Bare else Valued(parts[1]))
  }

  /** The value of the first entry whose name, as `read` gives it, is the given one. */
  function LookupBy(entries: seq<string>, name: string, read: string -> (string, CookieValue)): CookieValue {
    if entries == [] then NoCookie
    else if read(entries[0]).0 == name then read(entries[0]).1
    else LookupBy(entries[1..], name, read)
  }

  /** The value of the first entry of document.cookie with the given name. */
  function CookieLookup(entries: seq<string>, name: string): CookieValue {
    LookupBy(entries, name, ReadEntry)
  }

  /** The loop of getTokenFromCookies, getUserName and getAdminName: split the cookie
      string on ';' and return at the first entry with the name. */
  method FindCookie(jar: string, name: string) returns (v: CookieValue)
    ensures v == CookieLookup(Split(jar, ';'), name)
    ensures v.NoCookie? <==> forall k :: 0 <= k < |Split(jar, ';')| ==> ReadEntry(Split(jar, ';')[k]).0 != name
  {
    var entries := Split(jar, ';');
    var i := 0;
    while i < |entries|
      invariant 0 <= i <= |entries|
      invariant forall k :: 0 <= k < i ==> ReadEntry(entries[k]).0 != name
    {
      var entry := ReadEntry(entries[i]);
      if entry.0 == name {
        LookupFound(entries, name, i, ReadEntry);
        return entry.1;
      }
      assert forall k :: 0 <= k < i + 1 ==> ReadEntry(entries[k]).0 != name;
      i := i + 1;
    }
    LookupMissing(entries, name, ReadEntry);
    return NoCookie;
  }

  /** The first entry with the name decides the lookup. */
  lemma {:induction false} LookupFound(entries: seq<string>, name: string, i: nat, read: string -> (string, CookieValue))
    requires i < |entries| && read(entries[i]).0 == name
    requires forall k :: 0 <= k < i ==> read(entries[k]).0 != name
    ensures LookupBy(entries, name, read) == read(entries[i]).1
  {
    if i > 0 {
      assert entries[1..][i - 1] == entries[i];
      LookupFound(entries[1..], name, i - 1, read);
    }
  }

  lemma {:induction false} LookupMissing(entries: seq<string>, name: string, read: string -> (string, CookieValue))
    requires forall k :: 0 <= k < |entries| ==> read(entries[k]).0 != name
    ensures LookupBy(entries, name, read) == NoCookie
  {
    if entries != [] {
      LookupMissing(entries[1..], name, read);
    }
  }

  /** getTokenFromCookies: the value of the "token" entry, None when there is no such
      entry or it has no '=' (null and undefined alike). */
  method TokenFromCookies(jar: string) returns (token: Option<string>)
    ensures token.Some? <==> CookieLookup(Split(jar, ';'), "token").Valued?
    ensures token.Some? ==> token.value == CookieLookup(Split(jar, ';'), "token").value
  {
    var v := FindCookie(jar, "token");
    token := if v.Valued? then Some(v.value) else None;
  }

  /** Whether a token read from the cookies passes the pages' `!token` guard: null
      and the empty string do not. */
  predicate HasToken(token: Option<string>) {
    token.Some? && token.value != ""
  }

  /** A cookie as the browser lists it. */
  datatype Cookie = Cookie(name: string, value: string)

  function Text(c: Cookie): string {
    c.name + "=" + c.value
  }

  /** A cookie the browser can list unambiguously: a name that does not start with
      whitespace, a value that does not end with it, and neither holds ';' or '='. */
  predicate WellFormed(c: Cookie) {
    && c.name != "" && !IsSpace(c.name[0])
    && (c.value == "" || !IsSpace(c.value[|c.value| - 1]))
    && ';' !in c.name && '=' !in c.name && ';' !in c.value && '=' !in c.value
  }

  /** The entries of document.cookie after the first, each preceded by a space. */
  function Padded(cs: seq<Cookie>): (r: seq<string>)
    ensures |r| == |cs|
  {
    if cs == [] then [] else [" " + Text(cs[0])] + Padded(cs[1..])
  }

  /** document.cookie for a non-empty list of cookies: "a=1; b=2". */
  function Jar(cs: seq<Cookie>): string
    requires |cs| >= 1
  {
    Join([Text(cs[0])] + Padded(cs[1..]), ";")
  }

  /** The value of the first cookie with the name. */
  function FirstValue(cs: seq<Cookie>, name: string): CookieValue {
    if cs == [] then NoCookie
    else if cs[0].name == name then Valued(cs[0].value)
    else FirstValue(cs[1..], name)
  }

  lemma TextIsTrimmed(c: Cookie)
    requires WellFormed(c)
    ensures IsTrimmed(Text(c))
  {
    var t := Text(c);
    assert t == c.name + ['='] + c.value;
    assert t[0] == c.name[0];
    if c.value == "" {
      assert t[|t| - 1] == '=';
    } else {
      assert t[|t| - 1] == c.value[|c.value| - 1];
    }
  }

  lemma SplitText(c: Cookie)
    requires WellFormed(c)
    ensures Split(Text(c), '=') == [c.name, c.value]
  {
    assert Text(c) == c.name + ['='] + c.value;
    SplitPair(c.name, c.value, '=');
  }

  lemma TrimText(c: Cookie)
    requires WellFormed(c)
    ensures Trim(Text(c)) == Text(c) && Trim(" " + Text(c)) == Text(c)
  {
    TextIsTrimmed(c);
    TrimOfTrimmed(Text(c));
    assert AllSpace(" ") by { assert IsSpace(" "[0]); }
    TrimAfterPadding(" ", Text(c));
  }

  /** An entry the browser wrote, with or without the space after ';', reads back
      as the cookie's name and value. */
  lemma ReadText(c: Cookie)
    requires WellFormed(c)
    ensures ReadEntry(Text(c)) == (c.name, Valued(c.value))
    ensures ReadEntry(" " + Text(c)) == (c.name, Valued(c.value))
  {
    SplitText(c);
    TrimText(c);
  }

  /** A reader that reads every cookie's entry back as its name and value. */
  predicate ReadsBack(cs: seq<Cookie>, read: string -> (string, CookieValue)) {
    forall k :: 0 <= k < |cs| ==>
      read(Text(cs[k])) == (cs[k].name, Valued(cs[k].value))
      && read(" " + Text(cs[k])) == (cs[k].name, Valued(cs[k].value))
  }

  lemma {:induction false} PaddedLookup(cs: seq<Cookie>, name: string, read: string -> (string, CookieValue))
    requires ReadsBack(cs, read)
    ensures LookupBy(Padded(cs), name, read) == FirstValue(cs, name)
  {
    if cs != [] {
      LookupCons(" " + Text(cs[0]), Padded(cs[1..]), name, read, cs[0].name, Valued(cs[0].value));
      assert ReadsBack(cs[1..], read) by {
        forall k | 0 <= k < |cs| - 1 ensures cs[1..][k] == cs[k + 1] { }
      }
      PaddedLookup(cs[1..], name, read);
    }
  }

  lemma {:induction false} NoSemicolonInPadded(cs: seq<Cookie>)
    requires forall k :: 0 <= k < |cs| ==> WellFormed(cs[k])
    ensures forall k :: 0 <= k < |Padded(cs)| ==> ';' !in Padded(cs)[k]
  {
    if cs != [] {
      NoSemicolonInPadded(cs[1..]);
      assert ';' !in Text(cs[0]);
      assert ';' !in " " + Text(cs[0]);
    }
  }

  lemma JarPieces(cs: seq<Cookie>)
    requires |cs| >= 1 && forall k :: 0 <= k < |cs| ==> WellFormed(cs[k])
    ensures Split(Jar(cs), ';') == [Text(cs[0])] + Padded(cs[1..])
  {
    var pieces := [Text(cs[0])] + Padded(cs[1..]);
    NoSemicolonInPadded(cs[1..]);
    assert ';' !in Text(cs[0]);
    forall k | 0 <= k < |pieces| ensures ';' !in pieces[k] {
      if k > 0 {
        assert pieces[k] == Padded(cs[1..])[k - 1];
      }
    }
    SplitJoin(pieces, ';');
  }

  /** The lookup on a list whose first entry is known to read as (entryName, value). */
  lemma LookupCons(e: string, rest: seq<string>, name: string, read: string -> (string, CookieValue),
                   entryName: string, value: CookieValue)
    requires read(e) == (entryName, value)
    ensures LookupBy([e] + rest, name, read) == if entryName == name then value else LookupBy(rest, name, read)
  {
    assert ([e] + rest)[1..] == rest;
  }

  lemma PiecesLookup(cs: seq<Cookie>, name: string, pieces: seq<string>, read: string -> (string, CookieValue))
    requires |cs| >= 1 && ReadsBack(cs, read)
    requires pieces == [Text(cs[0])] + Padded(cs[1..])
    ensures LookupBy(pieces, name, read) == FirstValue(cs, name)
  {
    LookupCons(Text(cs[0]), Padded(cs[1..]), name, read, cs[0].name, Valued(cs[0].value));
    assert ReadsBack(cs[1..], read) by {
      forall k | 0 <= k < |cs| - 1 ensures cs[1..][k] == cs[k + 1] { }
    }
    PaddedLookup(cs[1..], name, read);
  }

  /** Reading back what the browser lists: the lookup finds the value of the first
      cookie with the name, or reports none. */
  lemma JarLookup(cs: seq<Cookie>, name: string)
    requires |cs| >= 1 && forall k :: 0 <= k < |cs| ==> WellFormed(cs[k])
    ensures CookieLookup(Split(Jar(cs), ';'), name) == FirstValue(cs, name)
  {
    var pieces := Split(Jar(cs), ';');
    JarPieces(cs);
    forall k | 0 <= k < |cs|
      ensures ReadEntry(Text(cs[k])) == (cs[k].name, Valued(cs[k].value))
      ensures ReadEntry(" " + Text(cs[k])) == (cs[k].name, Valued(cs[k].value))
    {
      ReadText(cs[k]);
    }
    PiecesLookup(cs, name, pieces, ReadEntry);
  }

  lemma ReadTrimmed(e: string, parts: seq<string>)
    requires IsTrimmed(e) && parts == Split(e, '=') && |parts| >= 2
    ensures ReadEntry(e) == (parts[0], Valued(parts[1]))
  {
    TrimOfTrimmed(e);
  }

  /** A value holding '=' is cut at it: only the second '='-separated piece is read. */
  lemma ValueStopsAtEquals(name: string, value: string, rest: string)
    requires '=' !in name && '=' !in value && IsTrimmed(name + "=" + value + "=" + rest)
    ensures ReadEntry(name + "=" + value + "=" + rest) == (name, Valued(value))
  {
    var tail := value + ['='] + rest;
    var s := name + ['='] + tail;
    assert name + "=" + value + "=" + rest == s;
    var parts := Split(s, '=');
    var tailParts := Split(tail, '=');
    SplitAfter(name, tail, '=');
    SplitAfter(value, rest, '=');
    assert parts == [name] + tailParts;
    assert tailParts[0] == value;
    ReadTrimmed(s, parts);
  }

  lemma SplitPair(a: string, b: string, c: char)
    requires c !in a && c !in b
    ensures Split(a + [c] + b, c) == [a, b]
  {
    SplitAfter(a, b, c);
  }

  lemma SplitAfter(a: string, b: string, c: char)
    requires c !in a
    ensures Split(a + [c] + b, c) == [a] + Split(b, c)
  {
    var s := a + [c] + b;
    assert s[|a|] == c;
    assert s[..|a|] == a;
    assert IndexOf(s, c) == |a|;
    assert s[|a| + 1..] == b;
  }

  // ---------------------------------------------------------------------------
  // Search parameters

  /** A price field after parseFloat: left empty, not a number, or a number. */
  datatype FormNumber = Undefined | NaN | Number(hundredths: int)

  predicate Sendable(n: FormNumber) {
    n.Number? && n.hundredths >= 0
  }

  /** The value of the first parameter with the key. */
  function ParamValue(params: seq<(string, string)>, key: string): Option<string> {
    if params == [] then None
    else if params[0].0 == key then Some(params[0].1)
    else ParamValue(params[1..], key)
  }

  lemma {:induction false} ParamValueAppend(params: seq<(string, string)>, key: string, value: string, k: string)
    ensures ParamValue(params + [(key, value)], k)
         == if ParamValue(params, k).Some? then ParamValue(params, k) else if k == key then Some(value) else None
  {
    if params != [] {
      assert (params + [(key, value)])[1..] == params[1..] + [(key, value)];
      ParamValueAppend(params[1..], key, value, k);
    }
  }

  /** URLSearchParams.append, when cond holds: a later parameter does not shadow an
      earlier one with the same key. */
  function AppendIf(params: seq<(string, string)>, cond: bool, key: string, value: string): (r: seq<(string, string)>)
    ensures |r| <= |params| + 1
    ensures forall k :: (ParamValue(r, k)
         == if ParamValue(params, k).Some? then ParamValue(params, k) else if cond && k == key then Some(value) else None)
  {
    if cond then
      forall k ensures ParamValue(params + [(key, value)], k)
          == if ParamValue(params, k).Some? then ParamValue(params, k) else if k == key then Some(value) else None {
        ParamValueAppend(params, key, value, k);
      }
      params + [(key, value)]
    else params
  }

  /** The query handleSearch sends, in append order: the trimmed name unless it is
      blank, the category unless it is empty, and each price bound that is a number
      of at least 0, written by format (JavaScript's number-to-string). */
  function SearchParams(name: string, category: string, min: FormNumber, max: FormNumber, format: int -> string)
    : (params: seq<(string, string)>)
    ensures |params| <= 4
    ensures ParamValue(params, "name") == if Trim(name) != "" then Some(Trim(name)) else None
    ensures ParamValue(params, "category") == if category != "" then Some(category) else None
    ensures ParamValue(params, "minPrice") == if Sendable(min) then Some(format(min.hundredths)) else None
    ensures ParamValue(params, "maxPrice") == if Sendable(max) then Some(format(max.hundredths)) else None
  {
    var minText := if min.Number? then format(min.hundredths) else "";
    var maxText := if max.Number? then format(max.hundredths) else "";
    KeysDiffer();
    FourAppends(Trim(name) != "", "name", Trim(name), category != "", "category", category,
                Sendable(min), "minPrice", minText, Sendable(max), "maxPrice", maxText);
    AppendIf(AppendIf(AppendIf(AppendIf([], Trim(name) != "", "name", Trim(name)),
                               category != "", "category", category),
                      Sendable(min), "minPrice", minText),
             Sendable(max), "maxPrice", maxText)
  }

  /** Four appends under distinct keys: each key reads back its own value, if it was appended. */
  lemma FourAppends(c1: bool, k1: string, v1: string, c2: bool, k2: string, v2: string,
                    c3: bool, k3: string, v3: string, c4: bool, k4: string, v4: string)
    requires k1 != k2 && k1 != k3 && k1 != k4 && k2 != k3 && k2 != k4 && k3 != k4
    ensures var ps := AppendIf(AppendIf(AppendIf(AppendIf([], c1, k1, v1), c2, k2, v2), c3, k3, v3), c4, k4, v4);
      && |ps| <= 4
      && ParamValue(ps, k1) == (if c1 then Some(v1) else None)
      && ParamValue(ps, k2) == (if c2 then Some(v2) else None)
      && ParamValue(ps, k3) == (if c3 then Some(v3) else None)
      && ParamValue(ps, k4) == (if c4 then Some(v4) else None)
  {
  }

  lemma KeysDiffer()
    ensures "name" != "category" && "name" != "minPrice" && "name" != "maxPrice"
    ensures "category" != "minPrice" && "category" != "maxPrice" && "minPrice" != "maxPrice"
  {
    assert "category"[0] != "minPrice"[0] && "category"[0] != "maxPrice"[0] && "minPrice"[1] != "maxPrice"[1];
  }

  /** handleSearch's appends to URLSearchParams. */
  method BuildSearchParams(name: string, category: string, min: FormNumber, max: FormNumber, format: int -> string)
    returns (params: seq<(string, string)>)
    ensures params == SearchParams(name, category, min, max, format)
  {
    params := [];
    if name != "" && Trim(name) != "" {
      params := params + [("name", Trim(name))];
    }
    if category != "" {
      params := params + [("category", category)];
    }
    if min.Number? && min.hundredths >= 0 {
      params := params + [("minPrice", format(min.hundredths))];
    }
    if max.Number? && max.hundredths >= 0 {
      params := params + [("maxPrice", format(max.hundredths))];
    }
  }

  /** The server's view of a query string, given how it reads a number. */
  function ServerQuery(params: seq<(string, string)>, parse: string -> Inventory.QueryNum): Inventory.SearchQuery {
    var min := ParamValue(params, "minPrice");
    var max := ParamValue(params, "maxPrice");
    Inventory.SearchQuery(
      ParamValue(params, "name"),
      ParamValue(params, "category"),
      if min.Some? then Some(parse(min.value)) else None,
      if max.Some? then Some(parse(max.value)) else None)
  }

  /** Whatever the form holds, the query the page sends passes the server's search
      rules, and the server filters on exactly the trimmed name, the category and
      the non-negative bounds the page sent (given the server reads back the numbers
      the page writes). */
  lemma SentQueryIsAccepted(name: string, category: string, min: FormNumber, max: FormNumber,
                            format: int -> string, parse: string -> Inventory.QueryNum)
    requires forall h :: h >= 0 ==> parse(format(h)) == Inventory.Numeric(h)
    ensures var q := ServerQuery(SearchParams(name, category, min, max, format), parse);
      && Inventory.SearchErrors(q) == []
      && Inventory.FilterOf(q) == Inventory.Filter(
           if Trim(name) != "" then Some(Trim(name)) else None,
           if category != "" then Some(category) else None,
           if Sendable(min) then Some(min.hundredths) else None,
           if Sendable(max) then Some(max.hundredths) else None)
  {
  }

  // ---------------------------------------------------------------------------
  // Sorting

  /** The comparator of the sort menu. localeCompare is represented by the difference
      of an abstract collation rank of the two names. */
  function Compare(sortBy: string, a: Product, b: Product, rank: string -> int): (c: int)
    ensures c == SortKey(sortBy, a, rank) - SortKey(sortBy, b, rank)
  {
    if sortBy == "name" then rank(a.name) - rank(b.name)
    else if sortBy == "price-low" then a.price - b.price
    else if sortBy == "price-high" then b.price - a.price
    else if sortBy == "quantity" then b.quantity - a.quantity
    else 0
  }

  /** The key the comparator orders by (ascending). */
  function SortKey(sortBy: string, p: Product, rank: string -> int): int {
    if sortBy == "name" then rank(p.name)
    else if sortBy == "price-low" then p.price
    else if sortBy == "price-high" then -p.price
    else if sortBy == "quantity" then -p.quantity
    else 0
  }

  /** The sort key of a menu entry, as a function. */
  function MenuKey(sortBy: string, rank: string -> int): (key: Product -> int)
    ensures forall p :: key(p) == SortKey(sortBy, p, rank)
  {
    p => SortKey(sortBy, p, rank)
  }

  /** Every element's key is at most the key of each one after it. */
  predicate Ordered(xs: seq<Product>, key: Product -> int) {
    forall i, j :: 0 <= i < j < |xs| ==> key(xs[i]) <= key(xs[j])
  }

  /** The tail of an ordered list is ordered, and its head's key bounds it. */
  lemma OrderedTail(ys: seq<Product>, key: Product -> int)
    requires Ordered(ys, key) && ys != []
    ensures Ordered(ys[1..], key)
    ensures forall y :: y in ys[1..] ==> key(ys[0]) <= key(y)
  {
    forall y | y in ys[1..] ensures key(ys[0]) <= key(y) {
      var j :| 0 <= j < |ys[1..]| && ys[1..][j] == y;
      assert ys[j + 1] == y;
    }
  }

  /** An element whose key bounds an ordered list can go in front of it. */
  lemma OrderedCons(h: Product, t: seq<Product>, key: Product -> int)
    requires Ordered(t, key) && forall y :: y in t ==> key(h) <= key(y)
    ensures Ordered([h] + t, key)
  {
    var r := [h] + t;
    forall i, j | 0 <= i < j < |r| ensures key(r[i]) <= key(r[j]) {
      assert r[j] == t[j - 1];
      if i > 0 {
        assert r[i] == t[i - 1];
      } else {
        assert t[j - 1] in t;
      }
    }
  }

  /** Places x before the first element it does not compare above, so x stays ahead
      of the elements that compare equal to it. */
  function Insert(x: Product, ys: seq<Product>, key: Product -> int): (r: seq<Product>)
    requires Ordered(ys, key)
    ensures Ordered(r, key)
    ensures multiset(r) == multiset(ys) + multiset{x}
  {
    if ys == [] then [x]
    else
      OrderedTail(ys, key);
      if key(x) <= key(ys[0]) then
        OrderedCons(x, ys, key);
        [x] + ys
      else
        var rest := Insert(x, ys[1..], key);
        BoundKept(ys[0], x, ys[1..], rest, key);
        OrderedCons(ys[0], rest, key);
        assert ys == [ys[0]] + ys[1..];
        assert multiset(ys) == multiset{ys[0]} + multiset(ys[1..]);
        [ys[0]] + rest
  }

  /** A lower bound on every element of t, and on x, bounds every element of a
      permutation of t with x added. */
  lemma BoundKept(h: Product, x: Product, t: seq<Product>, rest: seq<Product>, key: Product -> int)
    requires forall y :: y in t ==> key(h) <= key(y)
    requires key(h) <= key(x)
    requires multiset(rest) == multiset(t) + multiset{x}
    ensures forall y :: y in rest ==> key(h) <= key(y)
  {
    forall y | y in rest ensures key(h) <= key(y) {
      assert y in multiset(rest);
      if y != x {
        assert y in multiset(t);
      }
    }
  }

  /** Array.prototype.sort with a comparator whose sign is that of the key
      difference: a stable sort. */
  function Sort(xs: seq<Product>, key: Product -> int): (r: seq<Product>)
    ensures Ordered(r, key)
    ensures multiset(r) == multiset(xs)
  {
    if xs == [] then []
    else
      assert xs == [xs[0]] + xs[1..];
      Insert(xs[0], Sort(xs[1..], key), key)
  }

  /** The elements whose key is k, in their order in xs. */
  function WithKey(xs: seq<Product>, key: Product -> int, k: int): (r: seq<Product>)
    ensures |r| <= |xs|
  {
    if xs == [] then [] else (if key(xs[0]) == k then [xs[0]] else []) + WithKey(xs[1..], key, k)
  }

  lemma WithKeyCons(h: Product, t: seq<Product>, key: Product -> int, k: int)
    ensures WithKey([h] + t, key, k) == (if key(h) == k then [h] else []) + WithKey(t, key, k)
  {
    assert ([h] + t)[1..] == t;
  }

  /** Inserting x adds it in front of the elements with its own key and leaves every
      other key's elements as they were. */
  lemma {:induction false} InsertWithKey(x: Product, ys: seq<Product>, key: Product -> int, k: int)
    requires Ordered(ys, key)
    ensures WithKey(Insert(x, ys, key), key, k) == (if key(x) == k then [x] else []) + WithKey(ys, key, k)
  {
    if ys == [] {
      WithKeyCons(x, [], key, k);
    } else if key(x) <= key(ys[0]) {
      WithKeyCons(x, ys, key, k);
    } else {
      OrderedTail(ys, key);
      InsertWithKey(x, ys[1..], key, k);
      assert Insert(x, ys, key) == [ys[0]] + Insert(x, ys[1..], key);
      assert ys == [ys[0]] + ys[1..];
      PassedWithKey(ys[0], x, ys[1..], Insert(x, ys[1..], key), key, k);
    }
  }

  /** The step where x passes an element h of smaller key: h keeps its place among
      the elements of its own key, which cannot be x's. */
  lemma PassedWithKey(h: Product, x: Product, t: seq<Product>, rest: seq<Product>, key: Product -> int, k: int)
    requires key(h) < key(x)
    requires WithKey(rest, key, k) == (if key(x) == k then [x] else []) + WithKey(t, key, k)
    ensures WithKey([h] + rest, key, k) == (if key(x) == k then [x] else []) + WithKey([h] + t, key, k)
  {
    WithKeyCons(h, rest, key, k);
    WithKeyCons(h, t, key, k);
    if key(x) == k {
      assert key(h) != k;
    } else {
      assert (if key(h) == k then [h] else []) + ([] + WithKey(t, key, k))
          == [] + ((if key(h) == k then [h] else []) + WithKey(t, key, k));
    }
  }

  /** The sort is stable: for every key, the elements with that key come out in the
      order they went in. */
  lemma {:induction false} SortIsStable(xs: seq<Product>, key: Product -> int, k: int)
    ensures WithKey(Sort(xs, key), key, k) == WithKey(xs, key, k)
  {
    if xs != [] {
      SortIsStable(xs[1..], key, k);
      InsertWithKey(xs[0], Sort(xs[1..], key), key, k);
      assert xs == [xs[0]] + xs[1..];
      WithKeyCons(xs[0], xs[1..], key, k);
    }
  }

  /** What each menu entry gives: ascending name rank, ascending price, descending
      price, descending stock. */
  lemma SortOrders(xs: seq<Product>, sortBy: string, rank: string -> int, i: int, j: int)
    requires 0 <= i < j < |Sort(xs, MenuKey(sortBy, rank))|
    ensures var r := Sort(xs, MenuKey(sortBy, rank));
      && (sortBy == "name" ==> rank(r[i].name) <= rank(r[j].name))
      && (sortBy == "price-low" ==> r[i].price <= r[j].price)
      && (sortBy == "price-high" ==> r[i].price >= r[j].price)
      && (sortBy == "quantity" ==> r[i].quantity >= r[j].quantity)
  {
    var r := Sort(xs, MenuKey(sortBy, rank));
    assert MenuKey(sortBy, rank)(r[i]) <= MenuKey(sortBy, rank)(r[j]);
  }

  /** An unknown menu key compares everything equal, and the sort keeps the order. */
  lemma {:induction false} UnknownKeyKeepsOrder(xs: seq<Product>, sortBy: string, rank: string -> int)
    requires sortBy !in {"name", "price-low", "price-high", "quantity"}
    ensures Sort(xs, MenuKey(sortBy, rank)) == xs
  {
    if xs != [] {
      UnknownKeyKeepsOrder(xs[1..], sortBy, rank);
      assert xs == [xs[0]] + xs[1..];
    }
  }

  // ---------------------------------------------------------------------------
  // Distinct categories

  /** sweets.map(s => s.category).filter(Boolean): the present, non-empty categories. */
  function Categories(ps: seq<Product>): (r: seq<string>)
    ensures forall c :: c in r <==> exists k :: 0 <= k < |ps| && ps[k].category == Some(c) && c != ""
  {
    if ps == [] then []
    else
      var rest := Categories(ps[1..]);
      assert forall k :: 1 <= k < |ps| ==> ps[k] == ps[1..][k - 1];
      if ps[0].category.Some? && ps[0].category.value != "" then [ps[0].category.value] + rest else rest
  }

  predicate Distinct(xs: seq<string>) {
    forall i, j :: 0 <= i < j < |xs| ==> xs[i] != xs[j]
  }

  function FirstIndex(xs: seq<string>, x: string): (i: nat)
    requires x in xs
    ensures i < |xs| && xs[i] == x && x !in xs[..i]
  {
    if xs[0] == x then 0 else 1 + FirstIndex(xs[1..], x)
  }

  /** [...new Set(xs)]: each value once, in order of first occurrence. */
  function Dedup(xs: seq<string>): (r: seq<string>)
    ensures Distinct(r)
    ensures forall x :: x in r <==> x in xs
    ensures forall i, j :: 0 <= i < j < |r| ==> FirstIndex(xs, r[i]) < FirstIndex(xs, r[j])
  {
    if xs == [] then []
    else
      var init := xs[..|xs| - 1];
      var last := xs[|xs| - 1];
      var r := Dedup(init);
      assert xs == init + [last];
      FirstIndexOfPrefix(init, last);
      if last in r then r
      else
        assert last !in init;
        r + [last]
  }

  lemma FirstIndexOfPrefix(init: seq<string>, last: string)
    ensures forall x :: x in init ==> FirstIndex(init + [last], x) == FirstIndex(init, x)
    ensures last !in init ==> FirstIndex(init + [last], last) == |init|
  {
    forall x | x in init ensures FirstIndex(init + [last], x) == FirstIndex(init, x) {
      FirstIndexOfPrefixOne(init, last, x);
    }
    if last !in init {
      assert (init + [last])[..|init|] == init;
    }
  }

  lemma {:induction false} FirstIndexOfPrefixOne(init: seq<string>, last: string, x: string)
    requires x in init
    ensures FirstIndex(init + [last], x) == FirstIndex(init, x)
  {
    if init[0] != x {
      assert (init + [last])[1..] == init[1..] + [last];
      FirstIndexOfPrefixOne(init[1..], last, x);
    }
  }

  /** The category list of the filter menu. */
  function UniqueCategories(ps: seq<Product>): (r: seq<string>)
    ensures Distinct(r)
    ensures forall c :: c in r <==> c in Categories(ps)
    ensures forall c :: c in r <==> exists k :: 0 <= k < |ps| && ps[k].category == Some(c) && c != ""
    ensures forall i, j :: 0 <= i < j < |r| ==> FirstIndex(Categories(ps), r[i]) < FirstIndex(Categories(ps), r[j])
  {
    Dedup(Categories(ps))
  }
}

/** The administrator's page: the greeting name, the add and edit form and the
    request body built from it, and the restock form with its preview. parseFloat
    and the number-to-text conversion of prices are parameters; prices are cents. */
module AdminDashboard {
  import opened Common
  import opened Dashboard
  import Inventory
  import SweetModel

  /** getAdminName: the raw value of the "userName" cookie, "Admin" when there is
      none; None stands for the undefined value of an entry without '='. */
  method AdminName(jar: string) returns (name: Option<string>)
    ensures CookieLookup(Split(jar, ';'), "userName") == NoCookie ==> name == Some("Admin")
    ensures CookieLookup(Split(jar, ';'), "userName") == Bare ==> name == None
    ensures CookieLookup(Split(jar, ';'), "userName").Valued? ==>
      name == Some(CookieLookup(Split(jar, ';'), "userName").value)
  {
    var v := FindCookie(jar, "userName");
    match v
    case NoCookie => name := Some("Admin");
    case Bare => name := None;
    case Valued(value) => name := Some(value);
  }

  // ---------------------------------------------------------------------------
  // The add and edit form

  /** The form's fields, all as typed text. */
  datatype SweetForm = SweetForm(
    name: string,
    price: string,
    quantity: string,
    description: string,
    category: string,
    imageUrl: string)

  /** resetForm: every field empty. */
  const BlankForm := SweetForm("", "", "", "", "", "")

  /** `s.trim() || undefined`: the trimmed text, left out when it is empty. */
  function OptionalText(s: string): (r: Option<string>)
    ensures r.None? <==> AllSpace(s)
    ensures r.Some? ==> r.value == Trim(s) && r.value != ""
  {
    if Trim(s) == "" then None else Some(Trim(s))
  }

  /** The sweetData of the add and the update handlers. parseFloat gives the price
      in cents, None for NaN. JSON sends NaN as null, which the create rules reject
      like a missing value, so None stands for both. */
  function SweetData(form: SweetForm, parseFloat: string -> Option<int>): Inventory.CreateBody {
    Inventory.CreateBody(
      Some(Trim(form.name)),
      OptionalText(form.category),
      match parseFloat(form.price) case Some(cents) => Some(Inventory.Num(cents)) case None => None,
      match ParseInt(form.quantity) case Some(q) => Some(Inventory.Num(q * 100)) case None => None,
      OptionalText(form.description),
      OptionalText(form.imageUrl))
  }

  /** handleAddSweet and handleUpdateSweet up to the request: without a token nothing
      is sent, otherwise the body is sweetData. */
  function SweetRequest(token: Option<string>, form: SweetForm, parseFloat: string -> Option<int>)
    : (r: Option<Inventory.CreateBody>)
    ensures r.None? <==> !HasToken(token)
    ensures r.Some? ==> r.value == SweetData(form, parseFloat)
  {
    if HasToken(token) then Some(SweetData(form, parseFloat)) else None
  }

  /** openEditModal: the form filled from the sweet, missing texts as "". */
  function Prefill(p: Product, formatPrice: int -> string): SweetForm {
    SweetForm(p.name, formatPrice(p.price), IntToString(p.quantity),
              p.description.GetOr(""), p.category.GetOr(""), p.imageUrl.GetOr(""))
  }

  /** The form text the create rules accept once it is turned into sweetData. */
  predicate FormAccepted(form: SweetForm, parseFloat: string -> Option<int>) {
    && !AllSpace(form.name)
    && !AllSpace(form.category) && SweetModel.ParseCategory(Trim(form.category)).Some?
    && parseFloat(form.price).Some? && parseFloat(form.price).value >= 0
    && ParseInt(form.quantity).Some? && ParseInt(form.quantity).value >= 0
  }

  /** The server's create rules pass on sweetData exactly when the name is not blank,
      the category is a known one, the price parses to at least 0 and the quantity
      text begins with a whole number of at least 0. */
  lemma SweetDataAcceptedIff(form: SweetForm, parseFloat: string -> Option<int>)
    ensures Inventory.CreateErrors(SweetData(form, parseFloat)) == [] <==> FormAccepted(form, parseFloat)
  {
    SweetDataFields(form, parseFloat);
  }

  /** Each create rule on sweetData, as a condition on the form's text. */
  lemma SweetDataFields(form: SweetForm, parseFloat: string -> Option<int>)
    ensures var b := SweetData(form, parseFloat);
      && (b.name.Some? && b.name.value != "" <==> !AllSpace(form.name))
      && (b.category.Some? && SweetModel.ParseCategory(b.category.value).Some?
          <==> !AllSpace(form.category) && SweetModel.ParseCategory(Trim(form.category)).Some?)
      && (Inventory.IsFloatAtLeast(b.price, 0) <==> parseFloat(form.price).Some? && parseFloat(form.price).value >= 0)
      && (Inventory.IsIntAtLeast(b.quantity, 0) <==> ParseInt(form.quantity).Some? && ParseInt(form.quantity).value >= 0)
  {
    var b := SweetData(form, parseFloat);
    assert b.name == Some(Trim(form.name));
    assert b.category == OptionalText(form.category);
    PriceNum(parseFloat(form.price));
    QuantityNum(ParseInt(form.quantity));
  }

  /** A price sent as cents passes the price check exactly when it parsed to at least 0. */
  lemma PriceNum(cents: Option<int>)
    ensures var n := match cents case Some(v) => Some(Inventory.Num(v)) case None => None;
      Inventory.IsFloatAtLeast(n, 0) <==> cents.Some? && cents.value >= 0
  {
  }

  /** A whole number sent as hundredths passes an integer check with its own value. */
  lemma QuantityNum(q: Option<int>)
    ensures var n := match q case Some(v) => Some(Inventory.Num(v * 100)) case None => None;
      Inventory.IsIntAtLeast(n, 0) <==> q.Some? && q.value >= 0
  {
    if q.Some? {
      assert (q.value * 100) % 100 == 0 && Inventory.Units(Inventory.Num(q.value * 100)) == q.value;
    }
  }

  /** A text field the form gives back unchanged: trimmed, and not empty when present. */
  predicate KeepsText(t: Option<string>) {
    t.Some? ==> t.value != "" && IsTrimmed(t.value)
  }

  lemma OptionalTextOfPrefill(t: Option<string>)
    requires KeepsText(t)
    ensures OptionalText(t.GetOr("")) == t
  {
    if t.Some? {
      TrimOfTrimmed(t.value);
    }
  }

  /** Opening the edit form on a sweet and saving it untouched sends the sweet's own
      fields back, provided the price text parses back to the price. */
  lemma PrefillRoundTrip(p: Product, formatPrice: int -> string, parseFloat: string -> Option<int>)
    requires IsTrimmed(p.name) && KeepsText(p.description) && KeepsText(p.category) && KeepsText(p.imageUrl)
    requires parseFloat(formatPrice(p.price)) == Some(p.price)
    ensures SweetData(Prefill(p, formatPrice), parseFloat)
         == Inventory.CreateBody(Some(p.name), p.category, Some(Inventory.Num(p.price)),
                                 Some(Inventory.Num(p.quantity * 100)), p.description, p.imageUrl)
  {
    TrimOfTrimmed(p.name);
    ParseIntOfIntToString(p.quantity);
    OptionalTextOfPrefill(p.description);
    OptionalTextOfPrefill(p.category);
    OptionalTextOfPrefill(p.imageUrl);
  }

  /** The blank form is refused by the server's create rules. */
  lemma BlankFormRefused(parseFloat: string -> Option<int>)
    ensures Inventory.CreateErrors(SweetData(BlankForm, parseFloat)) != []
  {
    SweetDataAcceptedIff(BlankForm, parseFloat);
  }

  // ---------------------------------------------------------------------------
  // The restock form

  datatype RestockStep = NoToken | Refused | Post(body: Inventory.QuantityBody)

  /** handleRestock up to the request: no token, the "greater than 0" refusal when
      the text parses to a number of at most 0, otherwise the body { quantity }.
      Text that does not parse (NaN) is not caught; it is sent as null, which the
      quantity rule rejects like a missing value, so the body's quantity is None. */
  function RestockRequest(token: Option<string>, text: string): (r: RestockStep)
    ensures r == NoToken <==> !HasToken(token)
    ensures r == Refused <==> HasToken(token) && ParseInt(text).Some? && ParseInt(text).value <= 0
    ensures r.Post? && ParseInt(text).None? ==> r.body.quantity.None?
    ensures r.Post? && ParseInt(text).Some? ==>
      (r.body.quantity.Some? && r.body.quantity.value.hundredths % 100 == 0
       && Inventory.Units(r.body.quantity.value) == ParseInt(text).value)
    ensures r.Post? ==> (Inventory.QuantityErrors(r.body) == [] <==> ParseInt(text).Some?)
  {
    if !HasToken(token) then NoToken
    else match ParseInt(text)
      case Some(q) =>
        assert (q * 100) % 100 == 0 && Inventory.Units(Inventory.Num(q * 100)) == q;
        if q <= 0 then Refused else Post(Inventory.QuantityBody(Some(Inventory.Num(q * 100))))
      case None => Post(Inventory.QuantityBody(None))
  }

  /** The "New total will be" line: the current stock when the field is empty,
      otherwise the stock plus the parsed text; None stands for NaN. */
  function RestockPreview(current: int, text: string): (r: Option<int>)
    ensures text == "" ==> r == Some(current)
    ensures text != "" ==> (r.Some? <==> ParseInt(text).Some?)
    ensures text != "" && ParseInt(text).Some? ==> r == Some(current + ParseInt(text).value)
  {
    if text == "" then Some(current)
    else match ParseInt(text)
      case Some(q) => Some(current + q)
      case None => None
  }

  /** When the server accepts a restock the page sent, the preview showed exactly the
      stock the server then stores. */
  lemma PreviewIsRestockedStock(current: int, token: Option<string>, text: string)
    requires RestockRequest(token, text).Post?
    requires Inventory.QuantityErrors(RestockRequest(token, text).body) == []
    ensures RestockPreview(current, text) == Some(current + Inventory.Units(RestockRequest(token, text).body.quantity.value))
  {
  }
}

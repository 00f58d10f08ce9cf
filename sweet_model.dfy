/** The sweet record, its schema constraints, and the document methods that change
    its stock in place (isInStock, purchase, restock). */
module SweetModel {
  import opened Common

  datatype Category = Chocolate | Candy | Gum | Lollipop | Other

  function CategoryName(c: Category): string {
    match c
    case Chocolate => "chocolate"
    case Candy => "candy"
    case Gum => "gum"
    case Lollipop => "lollipop"
    case Other => "other"
  }

  /** The category enum check: exactly the five names are accepted. */
  function ParseCategory(s: string): (r: Option<Category>)
    ensures r.Some? ==> CategoryName(r.value) == s
    ensures r.None? ==> forall c: Category :: CategoryName(c) != s
  {
    if s == "chocolate" then Some(Chocolate)
    else if s == "candy" then Some(Candy)
    else if s == "gum" then Some(Gum)
    else if s == "lollipop" then Some(Lollipop)
    else if s == "other" then Some(Other)
    else None
  }

  /** A stored sweet. Prices are integer cents; createdAt and updatedAt are ticks of
      the store's logical clock, stamped by the schema's timestamps option. */
  datatype Sweet = Sweet(
    id: string,
    name: string,
    category: Category,
    price: int,
    quantity: int,
    description: Option<string>,
    imageUrl: Option<string>,
    createdAt: nat,
    updatedAt: nat)

  predicate TrimmedOption(o: Option<string>) {
    o.Some? ==> IsTrimmed(o.value)
  }

  /** The schema: a name is required (and stored trimmed), the category is one of the
      enum values (by its type), price and quantity are at least 0, and the optional
      text fields are stored trimmed. */
  predicate SchemaValid(s: Sweet) {
    && s.name != ""
    && IsTrimmed(s.name)
    && s.price >= 0
    && s.quantity >= 0
    && TrimmedOption(s.description)
    && TrimmedOption(s.imageUrl)
  }

  /** A stored sweet's text is already in the form the schema's trim gives it, so
      saving it again changes no text field, and its name stays non-empty. */
  lemma SchemaTrimIsStable(s: Sweet)
    requires SchemaValid(s)
    ensures Trim(s.name) == s.name != ""
    ensures s.description.Some? ==> Trim(s.description.value) == s.description.value
    ensures s.imageUrl.Some? ==> Trim(s.imageUrl.value) == s.imageUrl.value
  {
    TrimOfTrimmed(s.name);
    if s.description.Some? {
      TrimOfTrimmed(s.description.value);
    }
    if s.imageUrl.Some? {
      TrimOfTrimmed(s.imageUrl.value);
    }
  }

  /** The answer of the purchase method. */
  datatype PurchaseResult = PurchaseResult(success: bool, message: Option<string>)

  function InsufficientStockMessage(available: int, requested: int): string {
    "Insufficient stock. Available: " + IntToString(available) + ", Requested: " + IntToString(requested)
  }

  /** A loaded sweet document. Its methods change quantity in place and then save,
      which stamps updatedAt when the quantity actually changed; writing the document back into the store is the store's
      part of save. */
  class SweetDocument {
    const id: string
    var name: string
    var category: Category
    var price: int
    var quantity: int
    var description: Option<string>
    var imageUrl: Option<string>
    const createdAt: nat
    var updatedAt: nat

    function Snapshot(): Sweet
      reads this
    {
      Sweet(id, name, category, price, quantity, description, imageUrl, createdAt, updatedAt)
    }

    constructor Load(s: Sweet)
      ensures Snapshot() == s
    {
      id := s.id;
      name := s.name;
      category := s.category;
      price := s.price;
      quantity := s.quantity;
      description := s.description;
      imageUrl := s.imageUrl;
      createdAt := s.createdAt;
      updatedAt := s.updatedAt;
    }

    /** In stock exactly when at least one unit is left. */
    function IsInStock(): (r: bool)
      reads this
      ensures r <==> quantity >= 1
    {
      quantity > 0
    }

    /** Fails, changing nothing, when fewer than n units are left; otherwise takes n
        units and saves at time now, so the stamp moves unless n is 0. A non-positive
        n is not rejected here. */
    method Purchase(n: int, now: nat) returns (r: PurchaseResult)
      modifies this
      ensures r.success <==> n <= old(quantity)
      ensures !r.success ==> r.message == Some(InsufficientStockMessage(old(quantity), n))
      ensures !r.success ==> Snapshot() == old(Snapshot())
      ensures r.success ==> r.message.None?
      ensures r.success ==> Snapshot() == old(Snapshot()).(quantity := old(quantity) - n,
                                                            updatedAt := if n != 0 then now else old(updatedAt))
    {
      if quantity < n {
        return PurchaseResult(false, Some(InsufficientStockMessage(quantity, n)));
      }
      quantity := quantity - n;
      if n != 0 {
        updatedAt := now;
      }
      return PurchaseResult(true, None);
    }

    /** Adds n units and saves at time now, which moves the stamp unless n is 0; no
        other field changes. The schema's minimum of 0 makes the save reject a
        negative result ("Quantity cannot be negative"): saved is false and the
        record keeps its old state. */
    method Restock(n: int, now: nat) returns (saved: bool)
      modifies this
      ensures saved <==> old(quantity) + n >= 0
      ensures !saved ==> Snapshot() == old(Snapshot())
      ensures saved ==> Snapshot() == old(Snapshot()).(quantity := old(quantity) + n,
                                                       updatedAt := if n != 0 then now else old(updatedAt))
    {
      if quantity + n < 0 {
        return false;
      }
      quantity := quantity + n;
      if n != 0 {
        updatedAt := now;
      }
      return true;
    }
  }

  /** Purchasing exactly what is left succeeds and empties the stock. */
  method PurchaseAll(doc: SweetDocument, now: nat) returns (r: PurchaseResult)
    modifies doc
    ensures r.success && doc.quantity == 0 && !doc.IsInStock()
  {
    r := doc.Purchase(doc.quantity, now);
  }

  /** From a stock that meets the schema, a purchase of n followed by a restock of n
      saves and gives back the original quantity, whether or not the purchase went
      through. */
  method PurchaseThenRestock(doc: SweetDocument, n: int, now: nat) returns (r: PurchaseResult, saved: bool)
    requires doc.quantity >= 0
    modifies doc
    ensures saved
    ensures r.success ==> doc.Snapshot() == old(doc.Snapshot()).(updatedAt := if n != 0 then now else old(doc.updatedAt))
    ensures !r.success ==> doc.quantity == old(doc.quantity) + n
  {
    r := doc.Purchase(n, now);
    saved := doc.Restock(n, now);
  }

  /** From a non-negative stock, a successful purchase never leaves a negative one,
      and a purchase of a non-positive amount always succeeds. */
  method PurchaseKeepsStockNonNegative(doc: SweetDocument, n: int, now: nat) returns (r: PurchaseResult)
    requires doc.quantity >= 0
    modifies doc
    ensures doc.quantity >= 0
    ensures n <= 0 ==> r.success && doc.quantity >= old(doc.quantity)
  {
    r := doc.Purchase(n, now);
  }
}

/** Products: the three variants (Electronics, Grocery, Clothing) over the
    shared fields id, name, price and quantity in stock; their guarded stock
    changes, their value, and their tagged saved form. */
module Products {
  import opened Errors
  import opened Dates

  /** The variant of a product with the fields only that variant has. */
  datatype Kind =
    | Electronics(brand: string, warrantyYears: int)
    | Grocery(expiryDate: string)
    | Clothing(size: string, material: string)

  /** The value of a product at one moment. */
  datatype ProductState = ProductState(id: string, name: string, price: real, stock: int, kind: Kind)

  /** The discriminator a product is saved under: its class name. */
  function TypeName(k: Kind): (t: string)
    ensures t in {"Electronics", "Grocery", "Clothing"}
  {
    match k
    case Electronics(_, _) => "Electronics"
    case Grocery(_) => "Grocery"
    case Clothing(_, _) => "Clothing"
  }

  /** The variant is determined by its discriminator. */
  lemma TypeNameDistinguishesVariants(a: Kind, b: Kind)
    ensures TypeName(a) == TypeName(b) <==>
      (a.Electronics? && b.Electronics?) || (a.Grocery? && b.Grocery?) || (a.Clothing? && b.Clothing?)
  {
  }

  // ---------------------------------------------------------------------
  // Stock changes and value

  /** Product.restock: at least one unit, otherwise ValueError. */
  function Restocked(p: ProductState, amount: int): (r: Result<ProductState>)
    ensures r.Err? <==> amount < 1
    ensures r.Err? ==> r.error == InvalidArgument
    ensures r.Ok? ==> r.value.stock - p.stock == amount > 0 && r.value.(stock := p.stock) == p
  {
    if amount < 1 then Err(InvalidArgument)
    else Ok(p.(stock := p.stock + amount))
  }

  /** Product.sell: at least one unit and no more than are in stock. */
  function Sold(p: ProductState, quantity: int): (r: Result<ProductState>)
    ensures r.Err? <==> quantity < 1 || quantity > p.stock
    ensures r.Err? ==> r.error == (if quantity < 1 then InvalidArgument else InsufficientStock)
    ensures r.Ok? ==> 0 <= r.value.stock < p.stock && p.stock - r.value.stock == quantity
    ensures r.Ok? ==> r.value.(stock := p.stock) == p
  {
    if quantity < 1 then Err(InvalidArgument)
    else if quantity > p.stock then Err(InsufficientStock)
    else Ok(p.(stock := p.stock - quantity))
  }

  /** Selling what was just restocked gives back the product as it was
      (when the stock was not already negative, the sale is allowed). */
  lemma SellUndoesRestock(p: ProductState, amount: int)
    requires amount >= 1 && p.stock >= 0
    ensures Restocked(p, amount).Ok?
    ensures Sold(Restocked(p, amount).value, amount) == Ok(p)
  {
  }

  /** Restocking what was just sold gives back the product as it was. */
  lemma RestockUndoesSell(p: ProductState, quantity: int)
    requires Sold(p, quantity).Ok?
    ensures Restocked(Sold(p, quantity).value, quantity) == Ok(p)
  {
  }

  /** Product.get_total_value. */
  function Value(p: ProductState): (v: real)
    ensures p.stock == 0 ==> v == 0.0
  {
    p.price * p.stock as real
  }

  /** A sale lowers the product's value by price times quantity, a restock
      raises it by price times amount. */
  lemma ValueAfterStockChange(p: ProductState, n: int)
    ensures Sold(p, n).Ok? ==> Value(Sold(p, n).value) == Value(p) - p.price * n as real
    ensures Restocked(p, n).Ok? ==> Value(Restocked(p, n).value) == Value(p) + p.price * n as real
  {
  }

  // ---------------------------------------------------------------------
  // The saved form

  /** A JSON value as it appears in a saved record. */
  datatype Field = Text(s: string) | Number(r: real) | Count(n: int)

  /** A saved record: a JSON object. */
  type Record = map<string, Field>

  /** The keys a record of the given variant must hold, in the order the
      decoder reads them. */
  function RequiredKeys(tag: string): (ks: seq<string>)
    ensures |ks| >= 4 && ks[..4] == ["product_id", "name", "price", "quantity_in_stock"]
  {
    ["product_id", "name", "price", "quantity_in_stock"] +
    if tag == "Electronics" then ["brand", "warranty_years"]
    else if tag == "Grocery" then ["expiry_date"]
    else if tag == "Clothing" then ["size", "material"]
    else []
  }

  /** The to_dict methods: the discriminator, the base fields and the
      variant's own fields. */
  function ToRecord(p: ProductState): (rec: Record)
    ensures "type" in rec && rec["type"] == Text(TypeName(p.kind))
    ensures forall k :: k in RequiredKeys(TypeName(p.kind)) ==> k in rec
  {
    var base := map[
      "type" := Text(TypeName(p.kind)),
      "product_id" := Text(p.id),
      "name" := Text(p.name),
      "price" := Number(p.price),
      "quantity_in_stock" := Count(p.stock)];
    match p.kind
    case Electronics(brand, years) => base["brand" := Text(brand)]["warranty_years" := Count(years)]
    case Grocery(expiry) => base["expiry_date" := Text(expiry)]
    case Clothing(size, material) => base["size" := Text(size)]["material" := Text(material)]
  }

  /** The first of `keys` that `rec` lacks, if any. */
  function FirstMissing(rec: Record, keys: seq<string>): (m: Option<string>)
    ensures m.None? <==> forall k :: k in keys ==> k in rec
    ensures m.Some? ==> m.value in keys && m.value !in rec
    ensures m.Some? ==> exists i :: 0 <= i < |keys| && keys[i] == m.value && forall j :: 0 <= j < i ==> keys[j] in rec
  {
    if keys == [] then None
    else if keys[0] !in rec then Some(keys[0])
    else FirstMissing(rec, keys[1..])
  }

  function TextAt(rec: Record, key: string): (r: Result<string>)
    requires key in rec
    ensures r.Ok? <==> rec[key].Text?
    ensures r.Err? ==> r.error == WrongFieldType(key)
  {
    if rec[key].Text? then Ok(rec[key].s) else Err(WrongFieldType(key))
  }

  function CountAt(rec: Record, key: string): (r: Result<int>)
    requires key in rec
    ensures r.Ok? <==> rec[key].Count?
    ensures r.Err? ==> r.error == WrongFieldType(key)
  {
    if rec[key].Count? then Ok(rec[key].n) else Err(WrongFieldType(key))
  }

  /** A price may be saved as a JSON integer or a JSON number. */
  function PriceAt(rec: Record, key: string): (r: Result<real>)
    requires key in rec
    ensures r.Ok? <==> !rec[key].Text?
    ensures r.Err? ==> r.error == WrongFieldType(key)
  {
    match rec[key]
    case Number(r) => Ok(r)
    case Count(n) => Ok(n as real)
    case Text(_) => Err(WrongFieldType(key))
  }

  /** One step of load_from_file: Ok(None) when the record is skipped for
      an unknown discriminator, Ok(Some(p)) for the product it describes,
      and Err on a missing key (KeyError) or a field of the wrong type. */
  function FromRecord(rec: Record): (r: Result<Option<ProductState>>)
    ensures "type" !in rec ==> r == Err(MissingField("type"))
    ensures r.Ok? && r.value.Some? ==>
      "type" in rec && rec["type"] == Text(TypeName(r.value.value.kind))
  {
    if "type" !in rec then Err(MissingField("type"))
    else if !rec["type"].Text? then Ok(None)
    else
      var tag := rec["type"].s;
      if tag != "Electronics" && tag != "Grocery" && tag != "Clothing" then Ok(None)
      else match FirstMissing(rec, RequiredKeys(tag))
        case Some(k) => Err(MissingField(k))
        case None =>
          var id :- TextAt(rec, "product_id");
          var name :- TextAt(rec, "name");
          var price :- PriceAt(rec, "price");
          var stock :- CountAt(rec, "quantity_in_stock");
          var kind :- KindFrom(rec, tag);
          Ok(Some(ProductState(id, name, price, stock, kind)))
  }

  function KindFrom(rec: Record, tag: string): (r: Result<Kind>)
    requires tag in {"Electronics", "Grocery", "Clothing"}
    requires forall k :: k in RequiredKeys(tag) ==> k in rec
    ensures r.Ok? ==> TypeName(r.value) == tag
  {
    if tag == "Electronics" then
      var brand :- TextAt(rec, "brand");
      var years :- CountAt(rec, "warranty_years");
      Ok(Electronics(brand, years))
    else if tag == "Grocery" then
      var expiry :- TextAt(rec, "expiry_date");
      Ok(Grocery(expiry))
    else
      var size :- TextAt(rec, "size");
      var material :- TextAt(rec, "material");
      Ok(Clothing(size, material))
  }

  /** Decoding the saved form of any product gives back that product: same
      variant, same fields. */
  lemma DecodeSavedProduct(p: ProductState)
    ensures FromRecord(ToRecord(p)) == Ok(Some(p))
  {
    var rec := ToRecord(p);
    assert FirstMissing(rec, RequiredKeys(TypeName(p.kind))).None?;
  }

  /** A record whose discriminator is not one of the three class names is
      skipped, whatever else it holds. */
  lemma UnknownTypeSkipped(rec: Record)
    requires "type" in rec
    requires !rec["type"].Text? || rec["type"].s !in {"Electronics", "Grocery", "Clothing"}
    ensures FromRecord(rec) == Ok(None)
  {
  }

  // ---------------------------------------------------------------------
  // Expiry

  /** Whether remove_expired_products drops this product: only groceries
      are ever tested, and a grocery whose date does not parse raises. */
  function ExpiredGrocery(p: ProductState, now: Instant): (r: Result<bool>)
    ensures !p.kind.Grocery? ==> r == Ok(false)
    ensures p.kind.Grocery? ==> r == IsExpired(p.kind.expiryDate, now)
  {
    if p.kind.Grocery? then IsExpired(p.kind.expiryDate, now) else Ok(false)
  }

  // ---------------------------------------------------------------------
  // The mutable product object

  /** A product object. Only its stock changes after construction. */
  class Product {
    const id: string
    const name: string
    const price: real
    const kind: Kind
    var stock: int

    function State(): ProductState
      reads this
    {
      ProductState(id, name, price, stock, kind)
    }

    constructor (s: ProductState)
      ensures State() == s
    {
      id, name, price, kind := s.id, s.name, s.price, s.kind;
      stock := s.stock;
    }

    /** Product.restock: on success the stock grows by `amount`; on failure
        nothing changes. */
    method Restock(amount: int) returns (r: Outcome)
      modifies this
      ensures r == Status(Restocked(old(State()), amount))
      ensures State() == if r.Pass? then Restocked(old(State()), amount).value else old(State())
    {
      if amount < 1 {
        return Fail(InvalidArgument);
      }
      stock := stock + amount;
      r := Pass;
    }

    /** Product.sell: on success the stock shrinks by `quantity` and stays
        non-negative; on failure nothing changes. */
    method Sell(quantity: int) returns (r: Outcome)
      modifies this
      ensures r == Status(Sold(old(State()), quantity))
      ensures State() == if r.Pass? then Sold(old(State()), quantity).value else old(State())
      ensures r.Pass? ==> 0 <= stock
    {
      if quantity < 1 {
        return Fail(InvalidArgument);
      }
      if quantity > stock {
        return Fail(InsufficientStock);
      }
      stock := stock - quantity;
      r := Pass;
    }
  }
}

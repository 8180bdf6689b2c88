/** The Inventory object: a mutable mapping from product id to product
    object. The Python dict also remembers insertion order; `order` keeps it.
    Every method is specified by a Catalogs function applied to the
    inventory's value, Model(), and by what happens to the stored objects. */
module Inventories {
  import opened Errors
  import opened Dates
  import opened Products
  import Catalogs

  /** Each id is listed once in `order`, and each key is the id of the
      product object stored under it (so no object is stored twice). */
  ghost predicate Coherent(order: seq<string>, products: map<string, Product>) {
    && Catalogs.Distinct(order)
    && (forall k :: k in order <==> k in products)
    && (forall k :: k in products ==> products[k].id == k)
  }

  /** The current state of each stored product. */
  function States(products: map<string, Product>): (m: map<string, ProductState>)
    reads products.Values
    ensures m.Keys == products.Keys
  {
    map k | k in products :: products[k].State()
  }

  lemma CoherentDelete(order: seq<string>, products: map<string, Product>, id: string)
    requires Coherent(order, products)
    ensures Coherent(Catalogs.Omit(order, {id}), products - {id})
  {
  }

  lemma CoherentPut(order: seq<string>, products: map<string, Product>, p: Product)
    requires Coherent(order, products)
    ensures Coherent(if p.id in products then order else order + [p.id], products[p.id := p])
  {
  }

  lemma StatesDelete(products: map<string, Product>, id: string)
    ensures States(products - {id}) == States(products) - {id}
  {
  }

  lemma StatesPut(products: map<string, Product>, p: Product)
    ensures States(products[p.id := p]) == States(products)[p.id := p.State()]
  {
  }

  /** States only depend on the products themselves. */
  twostate lemma StatesFramed(m: map<string, Product>)
    requires forall k :: k in m ==> unchanged(m[k])
    ensures States(m) == old(States(m))
  {
  }

  /** Deleting one more of `ids` from a mapping. */
  lemma DeleteOneMore(m: map<string, Product>, ids: seq<string>, i: nat)
    requires i < |ids|
    ensures (m - Catalogs.KeySet(ids[..i])) - {ids[i]} == m - Catalogs.KeySet(ids[..i + 1])
  {
    assert ids[..i + 1] == ids[..i] + [ids[i]];
    Catalogs.KeySetLast(ids[..i], ids[i]);
  }

  class Inventory {
    var products: map<string, Product>
    var order: seq<string>

    ghost predicate Valid()
      reads this
    {
      Coherent(order, products)
    }

    /** The current value of the inventory. */
    function Model(): (c: Catalogs.Catalog)
      reads this, products.Values
      ensures Valid() ==> Catalogs.Valid(c)
    {
      Catalogs.Catalog(order, States(products))
    }

    constructor ()
      ensures Valid() && Model() == Catalogs.Empty
    {
      products := map[];
      order := [];
    }

    /** Inventory.add_product: stores the object itself under its id. */
    method AddProduct(p: Product) returns (r: Outcome)
      requires Valid()
      modifies this
      ensures Valid()
      ensures r == Status(Catalogs.Add(old(Model()), p.State()))
      ensures Model() == if r.Pass? then Catalogs.Add(old(Model()), p.State()).value else old(Model())
      ensures products == if r.Pass? then old(products)[p.id := p] else old(products)
    {
      if p.id == "" {
        return Fail(InvalidArgument);
      }
      if p.id in products {
        return Fail(DuplicateId);
      }
      CoherentPut(order, products, p);
      StatesPut(products, p);
      products := products[p.id := p];
      order := order + [p.id];
      r := Pass;
    }

    /** Inventory.remove_product. */
    method RemoveProduct(id: string) returns (r: Outcome)
      requires Valid()
      modifies this
      ensures Valid()
      ensures r == Status(Catalogs.Remove(old(Model()), id))
      ensures Model() == if r.Pass? then Catalogs.Remove(old(Model()), id).value else old(Model())
      ensures products == if r.Pass? then old(products) - {id} else old(products)
    {
      if id !in products {
        return Fail(NotFound);
      }
      Delete(id);
      r := Pass;
    }

    /** The statement `del self._products[id]` on a present id. */
    method Delete(id: string)
      requires Valid() && id in products
      modifies this
      ensures Valid()
      ensures products == old(products) - {id}
      ensures Model() == Catalogs.Without(old(Model()), id)
    {
      CoherentDelete(order, products, id);
      StatesDelete(products, id);
      products := products - {id};
      order := Catalogs.Omit(order, {id});
      StatesFramed(products);
    }

    /** Inventory.sell_product: only the product under `id` changes. */
    method SellProduct(id: string, quantity: int) returns (r: Outcome)
      requires Valid()
      modifies if id in products then {products[id]} else {}
      ensures Valid()
      ensures r == Status(Catalogs.Sell(old(Model()), id, quantity))
      ensures Model() == if r.Pass? then Catalogs.Sell(old(Model()), id, quantity).value else old(Model())
    {
      if id !in products {
        return Fail(NotFound);
      }
      ghost var before := Model();
      var p := products[id];
      r := p.Sell(quantity);
      assert States(products) == before.items[id := p.State()];
    }

    /** Inventory.restock_product: only the product under `id` changes. */
    method RestockProduct(id: string, amount: int) returns (r: Outcome)
      requires Valid()
      modifies if id in products then {products[id]} else {}
      ensures Valid()
      ensures r == Status(Catalogs.Restock(old(Model()), id, amount))
      ensures Model() == if r.Pass? then Catalogs.Restock(old(Model()), id, amount).value else old(Model())
    {
      if id !in products {
        return Fail(NotFound);
      }
      ghost var before := Model();
      var p := products[id];
      r := p.Restock(amount);
      assert States(products) == before.items[id := p.State()];
    }

    /** Inventory.remove_expired_products, with `now` standing for the
        local clock: collect the expired groceries' ids, then delete them
        one at a time. */
    method RemoveExpiredProducts(now: Instant) returns (r: Outcome)
      requires Valid()
      modifies this
      ensures Valid()
      ensures r == Status(Catalogs.RemoveExpired(old(Model()), now))
      ensures Model() == if r.Pass? then Catalogs.RemoveExpired(old(Model()), now).value else old(Model())
      ensures products == if r.Pass? then old(products) - Catalogs.ExpiredKeys(old(Model()), now) else old(products)
    {
      ghost var before := Model();
      var expired := Catalogs.ExpiredIds(order, States(products), now);
      if expired.Err? {
        return Fail(expired.error);
      }
      Catalogs.ExpiredIdsDistinct(order, States(products), now);
      Catalogs.ExpiredIdsAreExpiredKeys(before, now);
      DeleteAll(expired.value);
      r := Pass;
    }

    /** The deletion loop of remove_expired_products over ids collected
        beforehand. */
    method DeleteAll(ids: seq<string>)
      requires Valid() && Catalogs.Distinct(ids)
      requires forall k :: k in ids ==> k in products
      modifies this
      ensures Valid()
      ensures Model() == Catalogs.RemoveAll(old(Model()), ids)
      ensures products == old(products) - Catalogs.KeySet(ids)
    {
      ghost var before := Model();
      var i := 0;
      while i < |ids|
        invariant 0 <= i <= |ids|
        invariant Valid()
        invariant Model() == Catalogs.RemoveAll(before, ids[..i])
        invariant forall j :: i <= j < |ids| ==> ids[j] in products
        invariant products == old(products) - Catalogs.KeySet(ids[..i])
      {
        Catalogs.RemoveAllNext(before, ids, i);
        Delete(ids[i]);
        DeleteOneMore(old(products), ids, i);
        i := i + 1;
      }
      assert ids[..i] == ids;
    }

    /** The decoding loop of Inventory.load_from_file over the records the
        file held: clear the mapping, then store each decoded product under
        its id, skipping unknown types; a record that raises stops the loop
        and leaves what was stored so far. */
    method LoadRecords(data: seq<Record>) returns (r: Outcome)
      requires Valid()
      modifies this
      ensures Valid()
      ensures Model() == Catalogs.Load(data).catalog
      ensures r == if Catalogs.Load(data).error.Some? then Fail(Catalogs.Load(data).error.value) else Pass
    {
      products := map[];
      order := [];
      var i := 0;
      while i < |data|
        invariant 0 <= i <= |data|
        invariant Valid()
        invariant Catalogs.Load(data[..i]).error.None?
        invariant Model() == Catalogs.Load(data[..i]).catalog
      {
        Catalogs.LoadNext(data, i);
        var error := LoadOne(data[i]);
        if error.Some? {
          Catalogs.LoadStopsAtError(data, i + 1);
          return Fail(error.value);
        }
        i := i + 1;
      }
      assert data[..i] == data;
      r := Pass;
    }

    /** One iteration of the load loop: decode the record, then store the
        product it describes, if any. */
    method LoadOne(rec: Record) returns (error: Option<Error>)
      requires Valid()
      modifies this
      ensures Valid()
      ensures Catalogs.Loaded(Model(), error) == Catalogs.Step(old(Model()), rec)
      ensures forall k :: k in products ==> fresh(products[k]) || (k in old(products) && products[k] == old(products)[k])
    {
      var decoded := FromRecord(rec);
      if decoded.Err? {
        return Some(decoded.error);
      }
      if decoded.value.Some? {
        Store(decoded.value.value);
      }
      error := None;
    }

    /** `self._products[p.id] = p` for a freshly built product object. */
    method Store(s: ProductState)
      requires Valid()
      modifies this
      ensures Valid()
      ensures Model() == Catalogs.Put(old(Model()), s)
      ensures s.id in products && fresh(products[s.id])
      ensures products == old(products)[s.id := products[s.id]]
    {
      ghost var was := products;
      var p := new Product(s);
      CoherentPut(order, products, p);
      order := if s.id in products then order else order + [s.id];
      products := products[s.id := p];
      StatesFramed(was);
      StatesPut(was, p);
    }
  }
}

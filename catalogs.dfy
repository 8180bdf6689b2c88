/** The value of an inventory: its products by id, with the order in which
    the ids were first inserted (the iteration order of the Python dict).
    Every Inventory operation is specified here as a function of this value. */
module Catalogs {
  import opened Errors
  import opened Dates
  import opened Products

  datatype Catalog = Catalog(order: seq<string>, items: map<string, ProductState>)

  const Empty := Catalog([], map[])

  predicate Distinct(ks: seq<string>) {
    forall i, j :: 0 <= i < j < |ks| ==> ks[i] != ks[j]
  }

  /** The inventory invariant: the order lists each key once, and every key
      is the id of the product stored under it. */
  ghost predicate Valid(c: Catalog) {
    && Distinct(c.order)
    && (forall k :: k in c.order <==> k in c.items)
    && (forall k :: k in c.items ==> c.items[k].id == k)
  }

  /** No product has negative stock. */
  predicate StockNonNegative(c: Catalog) {
    forall k :: k in c.items ==> c.items[k].stock >= 0
  }

  // ---------------------------------------------------------------------
  // Deleting keys from the order

  /** `ks` without the keys in `drop`, order kept. */
  function Omit(ks: seq<string>, drop: set<string>): (r: seq<string>)
    ensures forall k :: k in r <==> k in ks && k !in drop
    ensures Distinct(ks) ==> Distinct(r)
  {
    if ks == [] then []
    else (if ks[0] in drop then [] else [ks[0]]) + Omit(ks[1..], drop)
  }

  lemma {:induction false} OmitNothing(ks: seq<string>, drop: set<string>)
    requires forall k :: k in ks ==> k !in drop
    ensures Omit(ks, drop) == ks
  {
    if ks != [] {
      OmitNothing(ks[1..], drop);
    }
  }

  lemma {:induction false} OmitAppend(ks: seq<string>, k: string, drop: set<string>)
    ensures Omit(ks + [k], drop) == Omit(ks, drop) + (if k in drop then [] else [k])
  {
    if ks == [] {
      assert ks + [k] == [k];
    } else {
      assert (ks + [k])[1..] == ks[1..] + [k];
      OmitAppend(ks[1..], k, drop);
    }
  }

  lemma OmitLast(ks: seq<string>, k: string)
    requires k !in ks
    ensures Omit(ks + [k], {k}) == ks
  {
    OmitAppend(ks, k, {k});
    OmitNothing(ks, {k});
  }

  lemma {:induction false} OmitTwice(ks: seq<string>, a: set<string>, b: set<string>)
    ensures Omit(Omit(ks, a), b) == Omit(ks, a + b)
  {
    if ks != [] {
      OmitTwice(ks[1..], a, b);
      if ks[0] in a {
        assert Omit(ks, a) == Omit(ks[1..], a);
        assert Omit(ks, a + b) == Omit(ks[1..], a + b);
      } else {
        var once := Omit(ks, a);
        assert once == [ks[0]] + Omit(ks[1..], a);
        assert once[0] == ks[0] && once[1..] == Omit(ks[1..], a);
        assert Omit(once, b) == (if ks[0] in b then [] else [ks[0]]) + Omit(once[1..], b);
      }
    }
  }

  /** The del statement: drop one key from the mapping and from the order. */
  function Without(c: Catalog, id: string): (r: Catalog)
    ensures r.items.Keys == c.items.Keys - {id}
    ensures forall k :: k in r.items ==> r.items[k] == c.items[k]
    ensures Valid(c) ==> Valid(r)
  {
    Catalog(Omit(c.order, {id}), c.items - {id})
  }

  // ---------------------------------------------------------------------
  // add_product, remove_product, sell_product, restock_product

  /** Inventory.add_product. */
  function Add(c: Catalog, p: ProductState): (r: Result<Catalog>)
    ensures r.Err? <==> p.id == "" || p.id in c.items
    ensures r.Err? ==> r.error == (if p.id == "" then InvalidArgument else DuplicateId)
    ensures r.Ok? ==> r.value.items.Keys == c.items.Keys + {p.id} && r.value.items[p.id] == p
    ensures r.Ok? ==> forall k :: k in c.items ==> r.value.items[k] == c.items[k]
    ensures r.Ok? && Valid(c) ==> Valid(r.value)
  {
    if p.id == "" then Err(InvalidArgument)
    else if p.id in c.items then Err(DuplicateId)
    else Ok(Catalog(c.order + [p.id], c.items[p.id := p]))
  }

  /** Inventory.remove_product. */
  function Remove(c: Catalog, id: string): (r: Result<Catalog>)
    ensures r.Err? <==> id !in c.items
    ensures r.Err? ==> r.error == NotFound
    ensures r.Ok? ==> r.value.items.Keys == c.items.Keys - {id}
    ensures r.Ok? ==> forall k :: k in r.value.items ==> r.value.items[k] == c.items[k]
    ensures r.Ok? && Valid(c) ==> Valid(r.value)
  {
    if id in c.items then Ok(Without(c, id)) else Err(NotFound)
  }

  lemma PutThenDelete(items: map<string, ProductState>, p: ProductState)
    requires p.id !in items
    ensures items[p.id := p] - {p.id} == items
  {
    assert (items[p.id := p] - {p.id}).Keys == items.Keys;
  }

  /** Adding a product and then removing its id gives back the inventory
      as it was, insertion order included. */
  lemma AddThenRemove(c: Catalog, p: ProductState)
    requires Valid(c) && Add(c, p).Ok?
    ensures Remove(Add(c, p).value, p.id) == Ok(c)
  {
    var added := Catalog(c.order + [p.id], c.items[p.id := p]);
    assert Add(c, p) == Ok(added);
    assert Remove(added, p.id) == Ok(Without(added, p.id));
    OmitLast(c.order, p.id);
    PutThenDelete(c.items, p);
  }

  /** Adding an id that is already present fails and leaves exactly one
      product under that id. */
  lemma AddTwiceRejected(c: Catalog, p: ProductState, q: ProductState)
    requires Add(c, p).Ok? && q.id == p.id
    ensures Add(Add(c, p).value, q) == Err(DuplicateId)
    ensures Add(c, p).value.items[p.id] == p
  {
  }

  /** Inventory.sell_product: look the id up, then Product.sell. */
  function Sell(c: Catalog, id: string, quantity: int): (r: Result<Catalog>)
    ensures r.Err? <==> id !in c.items || Sold(c.items[id], quantity).Err?
    ensures r.Err? ==> r.error == if id !in c.items then NotFound else Sold(c.items[id], quantity).error
    ensures r.Ok? ==> r.value.order == c.order && r.value.items.Keys == c.items.Keys
    ensures r.Ok? ==> r.value.items[id] == Sold(c.items[id], quantity).value
    ensures r.Ok? ==> forall k :: k in c.items && k != id ==> r.value.items[k] == c.items[k]
    ensures r.Ok? && Valid(c) ==> Valid(r.value)
  {
    if id !in c.items then Err(NotFound)
    else match Sold(c.items[id], quantity)
      case Err(e) => Err(e)
      case Ok(p) => Ok(Catalog(c.order, c.items[id := p]))
  }

  /** Inventory.restock_product: look the id up, then Product.restock. */
  function Restock(c: Catalog, id: string, amount: int): (r: Result<Catalog>)
    ensures r.Err? <==> id !in c.items || amount < 1
    ensures r.Err? ==> r.error == if id !in c.items then NotFound else InvalidArgument
    ensures r.Ok? ==> r.value.order == c.order && r.value.items.Keys == c.items.Keys
    ensures r.Ok? ==> r.value.items[id] == Restocked(c.items[id], amount).value
    ensures r.Ok? ==> forall k :: k in c.items && k != id ==> r.value.items[k] == c.items[k]
    ensures r.Ok? && Valid(c) ==> Valid(r.value)
  {
    if id !in c.items then Err(NotFound)
    else match Restocked(c.items[id], amount)
      case Err(e) => Err(e)
      case Ok(p) => Ok(Catalog(c.order, c.items[id := p]))
  }

  // ---------------------------------------------------------------------
  // total_inventory_value

  /** Sum of price times stock over the products under `ks`. */
  function SumOver(ks: seq<string>, items: map<string, ProductState>): (r: real)
    requires forall k :: k in ks ==> k in items
  {
    if ks == [] then 0.0 else Value(items[ks[0]]) + SumOver(ks[1..], items)
  }

  /** Inventory.total_inventory_value: every product counted once. */
  function Total(c: Catalog): (t: real)
    requires Valid(c)
    ensures c.items == map[] ==> t == 0.0
  {
    SumOver(c.order, c.items)
  }

  lemma {:induction false} SumOverNonNegative(ks: seq<string>, items: map<string, ProductState>)
    requires forall k :: k in ks ==> k in items && Value(items[k]) >= 0.0
    ensures SumOver(ks, items) >= 0.0
  {
    if ks != [] {
      SumOverNonNegative(ks[1..], items);
    }
  }

  /** An inventory in which no product has negative price or negative
      stock is worth at least 0. */
  lemma TotalNonNegative(c: Catalog)
    requires Valid(c)
    requires forall k :: k in c.items ==> c.items[k].price >= 0.0 && c.items[k].stock >= 0
    ensures Total(c) >= 0.0
  {
    SumOverNonNegative(c.order, c.items);
  }

  lemma {:induction false} SumOverAppend(ks: seq<string>, k: string, items: map<string, ProductState>)
    requires forall j :: j in ks ==> j in items
    requires k in items
    ensures SumOver(ks + [k], items) == SumOver(ks, items) + Value(items[k])
  {
    if ks == [] {
      assert ks + [k] == [k];
    } else {
      assert (ks + [k])[1..] == ks[1..] + [k];
      SumOverAppend(ks[1..], k, items);
    }
  }

  /** Entries outside `ks` do not contribute. */
  lemma {:induction false} SumOverAgree(ks: seq<string>, a: map<string, ProductState>, b: map<string, ProductState>)
    requires forall k :: k in ks ==> k in a && k in b && a[k] == b[k]
    ensures SumOver(ks, a) == SumOver(ks, b)
  {
    if ks != [] {
      SumOverAgree(ks[1..], a, b);
    }
  }

  /** Replacing the product under one listed key changes the sum by the
      difference of the two values. */
  lemma {:induction false} SumOverUpdate(ks: seq<string>, items: map<string, ProductState>, id: string, p: ProductState)
    requires Distinct(ks) && id in ks
    requires forall k :: k in ks ==> k in items
    ensures SumOver(ks, items[id := p]) == SumOver(ks, items) - Value(items[id]) + Value(p)
  {
    if ks[0] == id {
      assert id !in ks[1..];
      SumOverAgree(ks[1..], items, items[id := p]);
    } else {
      SumOverUpdate(ks[1..], items, id, p);
    }
  }

  /** Dropping one listed key removes exactly its value from the sum. */
  lemma {:induction false} SumOverOmit(ks: seq<string>, items: map<string, ProductState>, id: string)
    requires Distinct(ks) && id in ks
    requires forall k :: k in ks ==> k in items
    ensures SumOver(Omit(ks, {id}), items) == SumOver(ks, items) - Value(items[id])
  {
    if ks[0] == id {
      assert id !in ks[1..];
      OmitNothing(ks[1..], {id});
      assert Omit(ks, {id}) == Omit(ks[1..], {id});
    } else {
      assert Omit(ks, {id}) == [ks[0]] + Omit(ks[1..], {id});
      assert Omit(ks, {id})[1..] == Omit(ks[1..], {id});
      SumOverOmit(ks[1..], items, id);
    }
  }

  /** The empty inventory is worth nothing. */
  lemma TotalOfEmpty()
    ensures Valid(Empty) && Total(Empty) == 0.0
  {
  }

  /** Adding a product adds its value; removing one subtracts its value. */
  lemma TotalAfterAddAndRemove(c: Catalog, p: ProductState, id: string)
    requires Valid(c)
    ensures Add(c, p).Ok? ==> Total(Add(c, p).value) == Total(c) + Value(p)
    ensures Remove(c, id).Ok? ==> Total(Remove(c, id).value) == Total(c) - Value(c.items[id])
  {
    if Add(c, p).Ok? {
      SumOverAgree(c.order, c.items, c.items[p.id := p]);
      SumOverAppend(c.order, p.id, c.items[p.id := p]);
    }
    if Remove(c, id).Ok? {
      SumOverOmit(c.order, c.items, id);
      SumOverAgree(Omit(c.order, {id}), c.items, c.items - {id});
    }
  }

  /** Replacing the product under an id changes the total by the
      difference of the two values. */
  lemma TotalAfterReplace(c: Catalog, p: ProductState)
    requires Valid(c) && p.id in c.items
    ensures Valid(Catalog(c.order, c.items[p.id := p]))
    ensures Total(Catalog(c.order, c.items[p.id := p])) == Total(c) - Value(c.items[p.id]) + Value(p)
  {
    SumOverUpdate(c.order, c.items, p.id, p);
  }

  lemma SellReplaces(c: Catalog, id: string, quantity: int)
    requires Sell(c, id, quantity).Ok?
    ensures Sell(c, id, quantity).value == Catalog(c.order, c.items[id := Sold(c.items[id], quantity).value])
  {
  }

  lemma RestockReplaces(c: Catalog, id: string, amount: int)
    requires Restock(c, id, amount).Ok?
    ensures Restock(c, id, amount).value == Catalog(c.order, c.items[id := Restocked(c.items[id], amount).value])
  {
  }

  /** A sale lowers the total by price times quantity. */
  lemma TotalAfterSell(c: Catalog, id: string, quantity: int)
    requires Valid(c) && Sell(c, id, quantity).Ok?
    ensures Total(Sell(c, id, quantity).value) == Total(c) - c.items[id].price * quantity as real
  {
    var p := Sold(c.items[id], quantity).value;
    SellReplaces(c, id, quantity);
    ValueAfterStockChange(c.items[id], quantity);
    TotalAfterReplace(c, p);
  }

  /** A restock raises the total by price times amount. */
  lemma TotalAfterRestock(c: Catalog, id: string, amount: int)
    requires Valid(c) && Restock(c, id, amount).Ok?
    ensures Total(Restock(c, id, amount).value) == Total(c) + c.items[id].price * amount as real
  {
    var p := Restocked(c.items[id], amount).value;
    RestockReplaces(c, id, amount);
    ValueAfterStockChange(c.items[id], amount);
    TotalAfterReplace(c, p);
  }

  // ---------------------------------------------------------------------
  // search_by_name, search_by_type

  function LowerChar(ch: char): char {
    if 'A' <= ch <= 'Z' then (ch as int - 'A' as int + 'a' as int) as char else ch
  }

  /** Lower-casing, on ASCII letters only. */
  function Lower(s: string): (r: string)
    ensures |r| == |s| && forall i :: 0 <= i < |s| ==> r[i] == LowerChar(s[i])
  {
    seq(|s|, i requires 0 <= i < |s| => LowerChar(s[i]))
  }

  /** Whether `needle` occurs in `hay` starting at index `i`. */
  predicate OccursAt(hay: string, needle: string, i: int) {
    0 <= i <= |hay| - |needle| && hay[i..i + |needle|] == needle
  }

  /** Python's `needle in hay` on strings. */
  predicate Contains(hay: string, needle: string): (b: bool)
    ensures b ==> |needle| <= |hay|
    ensures |needle| <= |hay| && hay[..|needle|] == needle ==> b
  {
    assert |needle| <= |hay| ==> (OccursAt(hay, needle, 0) <==> hay[..|needle|] == needle);
    exists i :: 0 <= i <= |hay| - |needle| && OccursAt(hay, needle, i)
  }

  predicate NameMatches(p: ProductState, needle: string) {
    Contains(Lower(p.name), Lower(needle))
  }

  predicate TypeMatches(p: ProductState, typeName: string) {
    Lower(TypeName(p.kind)) == Lower(typeName)
  }

  /** The products under `ks` that `keep` accepts, in the order of `ks`. */
  function Select(ks: seq<string>, items: map<string, ProductState>, keep: ProductState -> bool): (r: seq<ProductState>)
    requires forall k :: k in ks ==> k in items
    ensures forall p :: p in r ==> keep(p) && p in items.Values
    ensures forall k :: k in ks && keep(items[k]) ==> items[k] in r
    ensures |r| <= |ks|
  {
    if ks == [] then []
    else (if keep(items[ks[0]]) then [items[ks[0]]] else []) + Select(ks[1..], items, keep)
  }

  /** Inventory.search_by_name: case-insensitive substring match on names. */
  function SearchByName(c: Catalog, needle: string): (r: seq<ProductState>)
    requires Valid(c)
    ensures forall p :: p in r ==> p in c.items.Values && NameMatches(p, needle)
    ensures forall k :: k in c.items && NameMatches(c.items[k], needle) ==> c.items[k] in r
  {
    Select(c.order, c.items, p => NameMatches(p, needle))
  }

  /** Inventory.search_by_type: case-insensitive match on the class name. */
  function SearchByType(c: Catalog, typeName: string): (r: seq<ProductState>)
    requires Valid(c)
    ensures forall p :: p in r ==> p in c.items.Values && TypeMatches(p, typeName)
    ensures forall k :: k in c.items && TypeMatches(c.items[k], typeName) ==> c.items[k] in r
  {
    Select(c.order, c.items, p => TypeMatches(p, typeName))
  }

  /** The empty search string matches every name. */
  lemma EmptyNeedleMatchesAll(p: ProductState)
    ensures NameMatches(p, "")
  {
    assert OccursAt(Lower(p.name), Lower(""), 0);
  }

  /** A type search never mixes variants. */
  lemma SearchByTypeIsOneVariant(c: Catalog, typeName: string, p: ProductState, q: ProductState)
    requires Valid(c)
    requires p in SearchByType(c, typeName) && q in SearchByType(c, typeName)
    ensures TypeName(p.kind) == TypeName(q.kind)
  {
    assert Lower(TypeName(p.kind)) == Lower(TypeName(q.kind));
  }

  // ---------------------------------------------------------------------
  // remove_expired_products

  /** The ids of the expired groceries among `ks`, in order; the first
      grocery whose date does not parse raises. */
  function ExpiredIds(ks: seq<string>, items: map<string, ProductState>, now: Instant): (r: Result<seq<string>>)
    requires forall k :: k in ks ==> k in items
    ensures r.Err? <==> exists k :: k in ks && ExpiredGrocery(items[k], now).Err?
    ensures r.Err? ==> r.error == BadDate
    ensures r.Ok? ==> forall k :: k in r.value <==> k in ks && ExpiredGrocery(items[k], now) == Ok(true)
  {
    if ks == [] then Ok([])
    else
      match ExpiredGrocery(items[ks[0]], now)
      case Err(e) => Err(e)
      case Ok(expired) =>
        var rest :- ExpiredIds(ks[1..], items, now);
        Ok((if expired then [ks[0]] else []) + rest)
  }

  /** Each expired id is collected once. */
  lemma {:induction false} ExpiredIdsDistinct(ks: seq<string>, items: map<string, ProductState>, now: Instant)
    requires forall k :: k in ks ==> k in items
    requires Distinct(ks) && ExpiredIds(ks, items, now).Ok?
    ensures Distinct(ExpiredIds(ks, items, now).value)
  {
    if ks != [] {
      ExpiredIdsDistinct(ks[1..], items, now);
      assert ks[0] !in ks[1..];
    }
  }

  /** Deletes `ids` one after another, as the loop of
      remove_expired_products does. */
  function RemoveAll(c: Catalog, ids: seq<string>): (r: Catalog)
    ensures forall k :: k in r.items <==> k in c.items && k !in ids
    ensures forall k :: k in r.items ==> r.items[k] == c.items[k]
    ensures Valid(c) ==> Valid(r)
  {
    if ids == [] then c else Without(RemoveAll(c, ids[..|ids| - 1]), ids[|ids| - 1])
  }

  /** Deleting one more id of `ids`. */
  lemma RemoveAllNext(c: Catalog, ids: seq<string>, i: nat)
    requires i < |ids|
    ensures RemoveAll(c, ids[..i + 1]) == Without(RemoveAll(c, ids[..i]), ids[i])
  {
    assert ids[..i + 1][..i] == ids[..i];
  }

  /** The keys listed in `ids`. */
  function KeySet(ids: seq<string>): (s: set<string>)
    ensures forall k :: k in s <==> k in ids
  {
    set k | k in ids
  }

  lemma KeySetLast(init: seq<string>, last: string)
    ensures KeySet(init + [last]) == KeySet(init) + {last}
  {
  }

  /** Deleting one key after a set of keys deletes both at once. */
  lemma WithoutAfterOmit(c: Catalog, drop: set<string>, k: string)
    ensures Without(Catalog(Omit(c.order, drop), c.items - drop), k)
         == Catalog(Omit(c.order, drop + {k}), c.items - (drop + {k}))
  {
    OmitTwice(c.order, drop, {k});
    assert (c.items - drop) - {k} == c.items - (drop + {k});
  }

  /** Deleting keys one after another deletes all of them at once. */
  lemma {:induction false} RemoveAllDeletes(c: Catalog, ids: seq<string>)
    ensures RemoveAll(c, ids) == Catalog(Omit(c.order, KeySet(ids)), c.items - KeySet(ids))
  {
    if ids == [] {
      assert KeySet(ids) == {};
      OmitNothing(c.order, {});
      assert c.items - {} == c.items;
    } else {
      var init, last := ids[..|ids| - 1], ids[|ids| - 1];
      assert ids == init + [last];
      KeySetLast(init, last);
      RemoveAllDeletes(c, init);
      WithoutAfterOmit(c, KeySet(init), last);
    }
  }

  /** Inventory.remove_expired_products against the clock reading `now`. */
  function RemoveExpired(c: Catalog, now: Instant): (r: Result<Catalog>)
    requires Valid(c)
    ensures r.Err? ==> r.error == BadDate
    ensures r.Ok? ==> Valid(r.value)
    ensures r.Ok? ==> forall k :: k in r.value.items ==> k in c.items && r.value.items[k] == c.items[k]
  {
    var ids :- ExpiredIds(c.order, c.items, now);
    Ok(RemoveAll(c, ids))
  }

  /** The sweep raises exactly when some grocery's date does not parse;
      otherwise it removes exactly the expired groceries, keeps the order
      of the rest and leaves each of them unchanged. */
  lemma RemoveExpiredFails(c: Catalog, now: Instant)
    requires Valid(c)
    ensures RemoveExpired(c, now).Err? <==> exists k :: k in c.items && ExpiredGrocery(c.items[k], now).Err?
    ensures RemoveExpired(c, now).Err? ==> RemoveExpired(c, now).error == BadDate
  {
  }

  /** The ids of the groceries that have expired at `now`. */
  ghost function ExpiredKeys(c: Catalog, now: Instant): set<string> {
    set k | k in c.items && ExpiredGrocery(c.items[k], now) == Ok(true)
  }

  /** A sweep that does not raise deletes exactly the expired groceries. */
  lemma RemoveExpiredDeletes(c: Catalog, now: Instant)
    requires Valid(c) && RemoveExpired(c, now).Ok?
    ensures RemoveExpired(c, now).value
         == Catalog(Omit(c.order, ExpiredKeys(c, now)), c.items - ExpiredKeys(c, now))
  {
    var ids := ExpiredIds(c.order, c.items, now).value;
    RemoveAllDeletes(c, ids);
    ExpiredIdsAreExpiredKeys(c, now);
  }

  /** The ids the sweep collects are exactly the expired groceries' ids. */
  lemma ExpiredIdsAreExpiredKeys(c: Catalog, now: Instant)
    requires Valid(c) && ExpiredIds(c.order, c.items, now).Ok?
    ensures KeySet(ExpiredIds(c.order, c.items, now).value) == ExpiredKeys(c, now)
  {
  }

  /** After a sweep, what is left is exactly the groceries that have not
      expired and every other product, each unchanged. */
  lemma RemoveExpiredSpec(c: Catalog, now: Instant)
    requires Valid(c) && RemoveExpired(c, now).Ok?
    ensures var r := RemoveExpired(c, now).value;
      && Valid(r)
      && (forall k :: k in r.items <==> k in c.items && ExpiredGrocery(c.items[k], now) == Ok(false))
      && (forall k :: k in r.items ==> r.items[k] == c.items[k])
  {
    RemoveExpiredFails(c, now);
    RemoveExpiredDeletes(c, now);
  }

  /** Electronics and clothing survive any expiry sweep unchanged. */
  lemma OnlyGroceriesExpire(c: Catalog, now: Instant, k: string)
    requires Valid(c) && RemoveExpired(c, now).Ok?
    requires k in c.items && !c.items[k].kind.Grocery?
    ensures k in RemoveExpired(c, now).value.items
    ensures RemoveExpired(c, now).value.items[k] == c.items[k]
  {
    RemoveExpiredSpec(c, now);
  }

  // A shelf for the example below: two groceries and an electronics item.
  const Bread := ProductState("g1", "Bread", 2.5, 10, Grocery("2024-12-31"))
  const Milk := ProductState("g2", "Milk", 1.0, 4, Grocery("2025-06-01"))
  const Radio := ProductState("e1", "Radio", 30.0, 2, Electronics("Acme", 2))
  const Shelf := Catalog(["g1", "g2", "e1"], map["g1" := Bread, "g2" := Milk, "e1" := Radio])

  lemma ShelfRadioKept(now: Instant)
    ensures ExpiredIds(["e1"], Shelf.items, now) == Ok([])
  {
    var ks, none: seq<string> := ["e1"], [];
    assert ks[1..] == none && Shelf.items[ks[0]] == Radio;
    assert none + none == none;
  }

  lemma ShelfTailKept(micros: nat)
    ensures ExpiredIds(["g2", "e1"], Shelf.items, Instant(Date(2025, 1, 1), micros)) == Ok([])
  {
    var now := Instant(Date(2025, 1, 1), micros);
    ExpiryExamples(micros);
    ShelfRadioKept(now);
    assert Shelf.items["g2"] == Milk;
    assert ["g2", "e1"][1..] == ["e1"];
  }

  lemma ShelfExpiredIds(micros: nat)
    ensures ExpiredIds(Shelf.order, Shelf.items, Instant(Date(2025, 1, 1), micros)) == Ok(["g1"])
  {
    var now := Instant(Date(2025, 1, 1), micros);
    ExpiryExamples(micros);
    ShelfTailKept(micros);
    assert Shelf.order[0] == "g1" && Shelf.order[1..] == ["g2", "e1"];
    assert ExpiredGrocery(Shelf.items["g1"], now) == Ok(true);
    assert ["g1"] + [] == ["g1"];
  }

  lemma ShelfOrderWithoutBread()
    ensures Omit(Shelf.order, {"g1"}) == ["g2", "e1"]
  {
    assert Omit(["e1"], {"g1"}) == ["e1"] by {
      assert ["e1"][1..] == [];
    }
    assert Omit(["g2", "e1"], {"g1"}) == ["g2", "e1"] by {
      assert ["g2", "e1"][1..] == ["e1"];
    }
    assert Shelf.order[1..] == ["g2", "e1"];
  }

  lemma ShelfItemsWithoutBread()
    ensures Shelf.items - {"g1"} == map["g2" := Milk, "e1" := Radio]
  {
    assert (Shelf.items - {"g1"}).Keys == {"g2", "e1"};
  }

  /** With the clock on 2025-01-01, a sweep removes the grocery dated
      2024-12-31 and keeps the one dated 2025-06-01 and the electronics. */
  lemma SweepExample(micros: nat)
    ensures Valid(Shelf)
    ensures RemoveExpired(Shelf, Instant(Date(2025, 1, 1), micros))
         == Ok(Catalog(["g2", "e1"], map["g2" := Milk, "e1" := Radio]))
  {
    assert Valid(Shelf);
    ShelfExpiredIds(micros);
    assert RemoveAll(Shelf, ["g1"]) == Without(Shelf, "g1") by {
      assert ["g1"][..0] == [];
    }
    ShelfOrderWithoutBread();
    ShelfItemsWithoutBread();
  }

  // ---------------------------------------------------------------------
  // save_to_file and the decoding loop of load_from_file

  /** The records of the products under `ks`, in order. */
  function Records(ks: seq<string>, items: map<string, ProductState>): (r: seq<Record>)
    requires forall k :: k in ks ==> k in items
    ensures |r| == |ks|
    ensures forall i :: 0 <= i < |ks| ==> r[i] == ToRecord(items[ks[i]])
  {
    if ks == [] then [] else Records(ks[..|ks| - 1], items) + [ToRecord(items[ks[|ks| - 1]])]
  }

  /** The list save_to_file writes: one record per product, in order. */
  function Save(c: Catalog): (r: seq<Record>)
    requires Valid(c)
    ensures |r| == |c.items|
  {
    assert c.items.Keys == set k | k in c.order;
    DistinctCard(c.order);
    Records(c.order, c.items)
  }

  lemma {:induction false} DistinctCard(ks: seq<string>)
    requires Distinct(ks)
    ensures |set k | k in ks| == |ks|
  {
    if ks != [] {
      var init := ks[..|ks| - 1];
      DistinctCard(init);
      assert (set k | k in ks) == (set k | k in init) + {ks[|ks| - 1]} by {
        assert ks == init + [ks[|ks| - 1]];
      }
    }
  }

  /** What the load loop has built when it stops: the mapping so far, and
      the error that stopped it, if any. */
  datatype Loaded = Loaded(catalog: Catalog, error: Option<Error>)

  /** `self._products[p._product_id] = p`: a new id goes to the end of the
      order, an existing one keeps its place and gets the new product. */
  function Put(c: Catalog, p: ProductState): (r: Catalog)
    ensures r.items == c.items[p.id := p]
    ensures Valid(c) ==> Valid(r)
  {
    Catalog(if p.id in c.items then c.order else c.order + [p.id], c.items[p.id := p])
  }

  /** The decoding loop of load_from_file over `recs`, starting from the
      cleared mapping; it stops at the first record that raises. */
  function Load(recs: seq<Record>): (r: Loaded)
    ensures Valid(r.catalog)
    ensures |r.catalog.items| <= |recs|
  {
    if recs == [] then Loaded(Empty, None)
    else
      var prev := Load(recs[..|recs| - 1]);
      if prev.error.Some? then prev else Step(prev.catalog, recs[|recs| - 1])
  }

  /** One iteration of the load loop on a record. */
  function Step(c: Catalog, rec: Record): (r: Loaded)
    ensures Valid(c) ==> Valid(r.catalog)
    ensures |r.catalog.items| <= |c.items| + 1
  {
    match FromRecord(rec)
    case Err(e) => Loaded(c, Some(e))
    case Ok(None) => Loaded(c, None)
    case Ok(Some(p)) => Loaded(Put(c, p), None)
  }

  /** The load of one more record, while nothing has raised yet. */
  lemma LoadNext(recs: seq<Record>, i: nat)
    requires i < |recs| && Load(recs[..i]).error.None?
    ensures Load(recs[..i + 1]) == Step(Load(recs[..i]).catalog, recs[i])
  {
    assert recs[..i + 1][..i] == recs[..i];
  }

  /** The load of one more record at the end, while nothing has raised. */
  lemma LoadAppend(recs: seq<Record>, rec: Record)
    requires Load(recs).error.None?
    ensures Load(recs + [rec]) == Step(Load(recs).catalog, rec)
  {
    assert (recs + [rec])[..|recs|] == recs;
  }

  /** Once a record raises, the records after it are never looked at. */
  lemma {:induction false} LoadStopsAtError(recs: seq<Record>, n: nat)
    requires n <= |recs| && Load(recs[..n]).error.Some?
    ensures Load(recs) == Load(recs[..n])
  {
    if n < |recs| {
      assert recs[..|recs| - 1][..n] == recs[..n];
      LoadStopsAtError(recs[..|recs| - 1], n);
    } else {
      assert recs[..n] == recs;
    }
  }

  /** A record with an unknown discriminator is skipped. */
  lemma LoadSkipsUnknown(recs: seq<Record>, rec: Record)
    requires "type" in rec
    requires !rec["type"].Text? || rec["type"].s !in {"Electronics", "Grocery", "Clothing"}
    ensures Load(recs + [rec]) == Load(recs)
  {
    UnknownTypeSkipped(rec);
    assert (recs + [rec])[..|recs|] == recs;
  }

  /** A later record for an id replaces the earlier product without error,
      and leaves every other id and the order of ids as they were. */
  lemma LoadLaterRecordWins(recs: seq<Record>, p: ProductState)
    requires Load(recs).error.None?
    ensures Load(recs + [ToRecord(p)]).error.None?
    ensures Load(recs + [ToRecord(p)]).catalog.items == Load(recs).catalog.items[p.id := p]
    ensures p.id in Load(recs).catalog.items ==>
      Load(recs + [ToRecord(p)]).catalog.order == Load(recs).catalog.order
  {
    DecodeSavedProduct(p);
    assert (recs + [ToRecord(p)])[..|recs|] == recs;
  }

  /** The products under `ks`, as a mapping. */
  function Collect(ks: seq<string>, items: map<string, ProductState>): (m: map<string, ProductState>)
    requires forall k :: k in ks ==> k in items
    ensures forall k :: k in m <==> k in ks
    ensures forall k :: k in m ==> m[k] == items[k]
  {
    if ks == [] then map[] else Collect(ks[..|ks| - 1], items)[ks[|ks| - 1] := items[ks[|ks| - 1]]]
  }

  /** The load loop meeting the saved form of a product with a new id. */
  lemma LoadStepNew(c: Catalog, p: ProductState)
    requires p.id !in c.items
    ensures Step(c, ToRecord(p)) == Loaded(Catalog(c.order + [p.id], c.items[p.id := p]), None)
  {
    DecodeSavedProduct(p);
  }

  lemma SplitLast(ks: seq<string>)
    requires ks != []
    ensures ks[..|ks| - 1] + [ks[|ks| - 1]] == ks
  {
  }

  /** Loading the records of the products under `ks` builds exactly those
      products, in that order. */
  lemma {:induction false} LoadRecords(ks: seq<string>, items: map<string, ProductState>)
    requires Distinct(ks)
    requires forall k :: k in ks ==> k in items && items[k].id == k
    ensures Load(Records(ks, items)) == Loaded(Catalog(ks, Collect(ks, items)), None)
  {
    if ks != [] {
      var init, last := ks[..|ks| - 1], ks[|ks| - 1];
      var prev, rec := Records(init, items), ToRecord(items[last]);
      assert Records(ks, items) == prev + [rec];
      LoadRecords(init, items);
      LoadAppend(prev, rec);
      assert last !in init;
      LoadStepNew(Catalog(init, Collect(init, items)), items[last]);
      assert Collect(ks, items) == Collect(init, items)[last := items[last]];
      SplitLast(ks);
    }
  }

  /** Saving and then loading gives back the same products, in the same
      order. */
  lemma LoadSaved(c: Catalog)
    requires Valid(c)
    ensures Load(Save(c)) == Loaded(c, None)
  {
    assert Save(c) == Records(c.order, c.items);
    LoadRecords(c.order, c.items);
    CollectAll(c);
  }

  lemma CollectAll(c: Catalog)
    requires Valid(c)
    ensures Collect(c.order, c.items) == c.items
  {
    assert Collect(c.order, c.items).Keys == c.items.Keys;
  }

  // ---------------------------------------------------------------------
  // Stock never goes negative

  /** Only an added or loaded product can bring negative stock in: selling,
      restocking and removing keep every stock non-negative. */
  lemma StockStaysNonNegative(c: Catalog, id: string, n: int)
    requires Valid(c) && StockNonNegative(c)
    ensures Sell(c, id, n).Ok? ==> StockNonNegative(Sell(c, id, n).value)
    ensures Restock(c, id, n).Ok? ==> StockNonNegative(Restock(c, id, n).value)
    ensures Remove(c, id).Ok? ==> StockNonNegative(Remove(c, id).value)
  {
  }

  /** So do expiry sweeps. */
  lemma SweepKeepsStockNonNegative(c: Catalog, now: Instant)
    requires Valid(c) && StockNonNegative(c) && RemoveExpired(c, now).Ok?
    ensures StockNonNegative(RemoveExpired(c, now).value)
  {
    RemoveExpiredDeletes(c, now);
  }
}

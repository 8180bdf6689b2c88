# Inventory core, modelled in Dafny

This project models the domain layer of a small inventory system, `main.py` lines 7–151. It covers:

- three kinds of product (`Electronics`, `Grocery`, `Clothing`);
- the guarded stock changes on a product, its value, and its tagged saved form;
- the `Inventory` object, a mapping from product id to product object.

Five modules, one file each:

| module | file | what it holds |
|---|---|---|
| `Errors` | `errors.dfy` | the error kinds standing for the exceptions raised; `Result` (a value or an error) and `Outcome` (pass or an error) |
| `Dates` | `dates.dfy` | calendar dates, the `YYYY-MM-DD` text form read by `strptime`, and the grocery expiry test against a clock reading |
| `Products` | `products.dfy` | the product value `ProductState`, its operations as functions, the saved record form and its decoder, and the mutable `Product` class whose `Restock`/`Sell` methods update `stock` in place |
| `Catalogs` | `catalogs.dfy` | the value of an inventory (`Catalog`: the ids in insertion order plus the products by id), every inventory operation as a function of that value, and the lemmas about them |
| `Inventories` | `inventories.dfy` | the mutable `Inventory` class: a `map<string, Product>` of object references plus the dict's insertion order. Each method is proved to give the outcome and the new value that a `Catalogs` function gives on the inventory's value `Model()` (`AddProduct` follows `Add`, `Delete` follows `Without`, `DeleteAll` follows `RemoveAll`, `Store` follows `Put`, `LoadRecords` follows `Load`, and so on), and to keep the product objects under the untouched ids |

Exceptions become `Err`/`Fail` results carrying one of these `Error` values:

| `Error` | Python exception |
|---|---|
| `InvalidArgument` | `ValueError` |
| `InsufficientStock`, `DuplicateId`, `NotFound` | the three bare `Exception`s |
| `MissingField(key)` | the `KeyError` raised while decoding a record |
| `WrongFieldType(key)` | none: a record field of the wrong JSON type (see "## Left out") |
| `BadDate` | the `ValueError` raised by `strptime` |

Except in `load_from_file`, a method that raises leaves the state as it was, as the Python code does: every `raise` comes before the mutation it guards. `load_from_file` clears the mapping first and keeps what it stored before the record that raised.

## Model

| member | source | states |
|---|---|---|
| Products.Restocked | main.py:18-21 | fails with `InvalidArgument` exactly when the amount is below 1; otherwise the stock grows by exactly that amount and every other field is unchanged |
| Products.Sold | main.py:23-28 | fails exactly when the quantity is below 1 (`InvalidArgument`) or above the stock (`InsufficientStock`), the first check winning; otherwise the stock falls by exactly the quantity, stays non-negative, and nothing else changes |
| Products.Product.Restock | main.py:18-21 | the object's new state is `Restocked` of its old state on success and its old state on failure; the outcome is the status of `Restocked` |
| Products.Product.Sell | main.py:23-28 | likewise for `Sold`, and after a successful sale the stock is non-negative |
| Products.Product.constructor | main.py:8-12 | a new product object holds exactly the given id, name, price, stock and variant fields |
| Products.SellUndoesRestock | main.py:18-28 | restocking a product with non-negative stock and then selling the same amount gives back the product as it was |
| Products.RestockUndoesSell | main.py:18-28 | a successful sale followed by a restock of the same amount gives back the product as it was |
| Products.Value | main.py:30-31 | a product without stock is worth 0 |
| Products.ValueAfterStockChange | main.py:30-31 | a sale lowers `price * stock` by price times quantity; a restock raises it by price times amount |
| Products.TypeName | main.py:35 | the discriminator is one of the three class names |
| Products.TypeNameDistinguishesVariants | main.py:35 | two products share a discriminator exactly when they are the same variant |
| Products.RequiredKeys | main.py:142-148 | the keys the decoder reads begin with the four base keys, in the order the constructors read them |
| Products.ToRecord | main.py:33-40 | the saved record holds the `type` discriminator and every key the decoder will read for that variant |
| Products.FirstMissing | main.py:144-148 | reports no key exactly when all the keys are present; otherwise it reports the first absent key in the order the constructor arguments are read, which is the key the `KeyError` names |
| Products.FromRecord | main.py:141-150 | a record without `type` raises `MissingField("type")`; a decoded product's discriminator is the record's `type` |
| Products.KindFrom | main.py:143-148 | the variant built for a tag is the variant that tag names |
| Products.DecodeSavedProduct | main.py:52-55 | decoding the saved form of any product (`to_dict` of each subclass, lines 33-40, 52-55, 68-71, 82-85) gives back exactly that product |
| Products.UnknownTypeSkipped | main.py:149-150 | a record whose `type` is not one of the three class names is skipped, not an error |
| Products.ExpiredGrocery | main.py:128 | only groceries are tested, so other products are never expired; for a grocery the result is `is_expired` on its stored date |
| Dates.DaysInMonth | main.py:63 | every month has 28 to 31 days, and February has 29 exactly in leap years |
| Dates.BeforeTrichotomy | main.py:63 | date order is strict and total |
| Dates.NumberOf | main.py:63 | a string of `w` decimal digits denotes a number below 10^w |
| Dates.Digits | main.py:63 | the zero-padded form of a number has the requested width and only digits |
| Dates.NumberOfDigits | main.py:63 | reading back the zero-padded digits of a number below 10^w gives the number |
| Dates.DigitsOfNumber | main.py:63 | writing out the number a digit string denotes gives back the string |
| Dates.FormatDate | main.py:63 | the text form of a date has ten characters |
| Dates.ParseDate | main.py:63 | every date that `%Y-%m-%d` accepts is a valid calendar date within years 1 to 9999 |
| Dates.ParseFormattedDate | main.py:63 | every valid date parses back from its text form |
| Dates.ParsedDateIsFormatted | main.py:63 | the only texts that parse are the text forms of the dates they denote |
| Dates.ExpiredAt | main.py:63 | an item whose expiry day is before today has expired; one whose expiry day is after today has not; on the expiry day itself it has expired exactly when the clock is past midnight |
| Dates.IsExpired | main.py:62-63 | raises `BadDate` exactly when the stored text does not parse |
| Dates.ExpiredFromExpiryDay | main.py:62-63 | after midnight, an item counts as expired on its expiry day itself and on every later day, and on no earlier day |
| Dates.ExpiredAtMidnight | main.py:62-63 | exactly at midnight, expiry is the strict date comparison |
| Dates.ExpiryExamples | main.py:62-63 | on 2025-01-01 an item dated 2024-12-31 has expired and one dated 2025-06-01 has not |
| Catalogs.Omit | main.py:101 | deleting keys from the order keeps exactly the other keys, and keeps them distinct |
| Catalogs.Without | main.py:101 | `del` on an id removes exactly that key; every other product stays unchanged, and the invariant holds |
| Catalogs.Add | main.py:92-97 | fails exactly on an empty id (`InvalidArgument`) or a present id (`DuplicateId`); otherwise the keys grow by exactly the new id, which maps to the product, the other products are unchanged, and the invariant holds |
| Catalogs.Remove | main.py:99-103 | fails with `NotFound` exactly on an absent id; otherwise exactly that key goes, the others are unchanged, and the invariant holds |
| Catalogs.AddThenRemove | main.py:92-103 | adding a product and removing its id gives back the inventory as it was, insertion order included |
| Catalogs.AddTwiceRejected | main.py:95-96 | a second add under an id already present fails with `DuplicateId`, and the first product stays stored under it |
| Catalogs.Sell | main.py:114-117 | fails with `NotFound` on an absent id and otherwise exactly when `sell` fails; on success only the product under the id changes, as `sell` says, and the order and the keys stay |
| Catalogs.Restock | main.py:119-122 | the same for `restock` |
| Catalogs.Total | main.py:124-125 | an inventory with no products is worth 0 |
| Catalogs.TotalNonNegative | main.py:124-125 | when no product has negative price or negative stock, the total is not negative |
| Catalogs.TotalOfEmpty | main.py:124-125 | the empty inventory is worth 0 |
| Catalogs.TotalAfterAddAndRemove | main.py:124-125 | adding a product raises the total by its value; removing one lowers it by its value |
| Catalogs.TotalAfterReplace | main.py:124-125 | replacing the product under an id changes the total by the difference of the two values |
| Catalogs.TotalAfterSell | main.py:124-125 | a sale lowers the total by price times quantity |
| Catalogs.TotalAfterRestock | main.py:124-125 | a restock raises the total by price times amount |
| Catalogs.Lower | main.py:109 | lower-casing keeps the length and maps each character on its own |
| Catalogs.Select | main.py:108-112 | the selected products are exactly the stored products the test accepts |
| Catalogs.SearchByName | main.py:108-109 | the results are stored products whose lower-cased name contains the lower-cased search text, and every such product is among them |
| Catalogs.SearchByType | main.py:111-112 | the results are stored products whose lower-cased class name equals the lower-cased type name, and every such product is among them |
| Catalogs.Contains | main.py:109 | Python's `in` on strings: a match needs the search text to fit in the name, and a prefix always matches |
| Catalogs.EmptyNeedleMatchesAll | main.py:109 | the empty search text matches every name |
| Catalogs.SearchByTypeIsOneVariant | main.py:111-112 | a type search never returns two different variants |
| Catalogs.ExpiredIds | main.py:128 | the first grocery whose date does not parse raises `BadDate`; otherwise the collected ids are exactly the listed groceries that have expired |
| Catalogs.ExpiredIdsDistinct | main.py:128 | each expired id is collected once |
| Catalogs.RemoveAll | main.py:129-130 | deleting the collected ids leaves exactly the products whose ids were not collected, each unchanged, and keeps the invariant |
| Catalogs.RemoveAllNext | main.py:129-130 | deleting one more collected id is one more `del` |
| Catalogs.WithoutAfterOmit | main.py:129-130 | deleting a key after a set of keys deletes both at once |
| Catalogs.RemoveAllDeletes | main.py:129-130 | deleting ids one after another deletes all of them at once, from the mapping and from the order |
| Catalogs.RemoveExpired | main.py:127-130 | the only error is `BadDate`; after a sweep every remaining product is an earlier product, unchanged, and the invariant holds |
| Catalogs.ExpiredIdsAreExpiredKeys | main.py:128 | the collected ids are exactly the ids of the expired groceries |
| Catalogs.RemoveExpiredFails | main.py:127-130 | the sweep raises `BadDate` exactly when some grocery's date does not parse, and then nothing is deleted |
| Catalogs.RemoveExpiredDeletes | main.py:127-130 | a sweep that does not raise deletes exactly the expired groceries, from the mapping and from the order |
| Catalogs.RemoveExpiredSpec | main.py:127-130 | after a sweep, exactly the unexpired groceries and all other products remain, each unchanged, and the invariant holds |
| Catalogs.OnlyGroceriesExpire | main.py:128 | electronics and clothing survive every sweep unchanged |
| Catalogs.SweepExample | main.py:127-130 | on 2025-01-01 a sweep removes a grocery dated 2024-12-31 and keeps one dated 2025-06-01 and an electronics item |
| Catalogs.Records | main.py:133 | one record per listed product, in order, each the product's saved form |
| Catalogs.Save | main.py:132-133 | the saved list has one record per stored product |
| Catalogs.Put | main.py:151 | storing a product maps its id to it and keeps the invariant |
| Catalogs.Load | main.py:140-151 | the loop starts from the cleared mapping; what it builds keeps the invariant and has at most one product per record |
| Catalogs.Step | main.py:142-151 | one iteration keeps the invariant and adds at most one product |
| Catalogs.LoadNext | main.py:141-151 | while nothing has raised, loading one more record is one more iteration |
| Catalogs.LoadStopsAtError | main.py:141-151 | once a record raises, the later records are never looked at and what was stored so far stays |
| Catalogs.LoadSkipsUnknown | main.py:149-150 | a record with an unknown discriminator changes nothing |
| Catalogs.LoadLaterRecordWins | main.py:151 | a later record for an id replaces the earlier product without error; every other id stays, and so does the order when the id was present |
| Catalogs.LoadStepNew | main.py:141-151 | the saved form of a product with a new id is appended and stored |
| Catalogs.LoadRecords | main.py:141-151 | loading the records of distinct products builds exactly those products, in that order |
| Catalogs.LoadSaved | main.py:132-151 | saving and then loading gives back the same inventory, order included, without error |
| Catalogs.CollectAll | main.py:141-151 | collecting every listed product gives back the whole mapping |
| Catalogs.StockStaysNonNegative | main.py:23-28 | sell, restock and remove keep every stock non-negative |
| Catalogs.SweepKeepsStockNonNegative | main.py:127-130 | so do expiry sweeps |
| Inventories.Inventory.Model | main.py:88-90 | the value of a coherent inventory object satisfies the inventory invariant |
| Inventories.Inventory.constructor | main.py:89-90 | a new inventory is empty and coherent |
| Inventories.Inventory.AddProduct | main.py:92-97 | the outcome and the new value are those of `Catalogs.Add`; on success the very object passed in is stored under its id, and every other id keeps its object; on failure the mapping is untouched |
| Inventories.Inventory.RemoveProduct | main.py:99-103 | the outcome and the new value are those of `Catalogs.Remove`; every other id keeps its object |
| Inventories.Inventory.Delete | main.py:101 | `del` on a present id removes exactly that key from the mapping and from the order; every other id keeps its object |
| Inventories.Inventory.SellProduct | main.py:114-117 | the outcome and the new value are those of `Catalogs.Sell`; only the product object under the id may change |
| Inventories.Inventory.RestockProduct | main.py:119-122 | the outcome and the new value are those of `Catalogs.Restock`; only the product object under the id may change |
| Inventories.Inventory.RemoveExpiredProducts | main.py:127-130 | the outcome and the new value are those of `Catalogs.RemoveExpired`; a sweep removes exactly the expired groceries' ids from the mapping and keeps the objects under every other id |
| Inventories.Inventory.DeleteAll | main.py:129-130 | the deletion loop over distinct present ids ends in `Catalogs.RemoveAll` of the old value, with exactly those ids gone from the mapping and the other objects kept |
| Inventories.Inventory.LoadRecords | main.py:140-151 | clears the mapping, then the new value and the outcome are those of `Catalogs.Load` on the decoded records |
| Inventories.Inventory.LoadOne | main.py:142-151 | one iteration of the load loop: the new value and the error, if any, are those of `Catalogs.Step`, and every stored object is either newly built or the object already stored under its id |
| Inventories.Inventory.Store | main.py:151 | storing a freshly built product object is `Catalogs.Put` on the value; only the entry under its id changes |

## Behaviour worth knowing

- **Expiry day.** `is_expired` compares the parsed expiry date, at midnight, with the current date and time. An item therefore counts as expired during its own expiry day, from just after midnight. A strict date-only comparison would keep it until the next day. See `Dates.ExpiredFromExpiryDay` and `Dates.ExpiredAtMidnight`.
- **Load is not atomic.** `load_from_file` clears the mapping before decoding the records. If a record then raises, the products stored so far stay and the earlier contents are lost. See `Catalogs.LoadStopsAtError`.
- **Unknown discriminators.** A record with an unknown discriminator is skipped silently. This includes a `type` that is not a string. See `Catalogs.LoadSkipsUnknown`.
- **Negative stock.** Neither the constructors nor the decoder check that stock is non-negative, so a product can be added or loaded with negative stock. The model proves only that `sell`, `restock`, `remove` and expiry sweeps never produce negative stock (`Catalogs.StockStaysNonNegative`, `Catalogs.SweepKeepsStockNonNegative`).

## Left out

- The Streamlit user interface (line 153 onwards), `__str__` of the products, and `list_all_products`: these are display strings only.
- JSON text, `json.dump`/`json.load` and file I/O: the model starts from the list of decoded JSON objects, and `Catalogs.Save` ends at the list handed to `json.dump`. File-not-found and malformed-JSON errors are therefore not modelled. The mapping is cleared only after the file has been read.
- The clock: `datetime.today()` is the `now` parameter, an `Instant`. It is a date plus the microseconds since that date's midnight, in local time.
- Inventories.Inventory.RemoveExpiredProducts: one clock reading serves the whole sweep. `is_expired` reads the clock once per grocery, so a sweep running across midnight may judge groceries against two different days; the model does not capture that.
- Prices are `real`, so floating-point rounding is not modelled, in `get_total_value` or in the sum.
- Integer fields are unbounded `int`, as in Python.
- Catalogs.Lower: lower-cases ASCII letters only; the Unicode case mappings of `str.lower` are not modelled.
- Dates.ParseDate: accepts exactly the zero-padded `YYYY-MM-DD` form. `strptime` also accepts some unpadded forms, such as `2024-1-5`, which the model rejects with `BadDate`.
- Products.FromRecord: adds an error Python does not raise. A field whose JSON type does not match (a number where text is expected, say) is reported as `WrongFieldType`; Python would store the value as it is. Prices may be saved as JSON integers or numbers.
- Products.SellUndoesRestock: requires non-negative stock. With negative stock the restocked amount may still exceed the stock, and the sale then fails.
- Search results are product values taken at the time of the search, not references to the stored objects. `search_by_name`, `search_by_type` and `total_inventory_value` only read the mapping, so they are the `Catalogs` functions `SearchByName`, `SearchByType` and `Total` applied to `Inventory.Model()`.
- Dynamic typing: the `Product` argument of `add_product` is assumed to be one of the three variants, and ids, names and other text fields are strings. Only falsy string ids (the empty string) are rejected.

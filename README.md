# Product registry: the record operations of `ProductoManager`

This project models the record-operations layer of the product registry in
`main.py`. A product record has an `id`, a name (`nombre`), a description
(`descripcion`), a price (`precio`) and a quantity (`cantidad`). The manager keeps
an ordered list of records in a backing file. Every operation reloads the whole
list. A mutating operation changes its copy and writes the whole list back.

The model is split into five modules:

- `Text` (text.dfy): the string primitives the manager relies on. These are
  Python's `str.strip()`, `str.lower()` and the substring test `needle in hay`,
  for characters below U+0100.
- `Money` (money.dfy): `round(price, 2)` as round-half-to-even to whole cents,
  on exact rationals.
- `Products` (products.dfy): the record datatype, the field validation, and
  lookup by id.
  - `HasId` is `_producto_existe`. `UniqueIds` says that no two records share an
    id. `WellFormed` and `AllWellFormed` say what every record written through
    the validating operations satisfies.
  - It also holds the lemmas about how appending, replacing and removing one
    record change lookup, uniqueness and well-formedness.
- `Queries` (queries.dfy): the read-only computations. These are the
  name search, the unit and value sums, the first most expensive and first
  cheapest record, and the statistics with their zero-guarded average.
- `Inventory` (inventory.dfy): the manager itself.
  - The class `ProductManager` holds the contents of the backing file in its
    field `records`.
  - Each CRUD operation is a method with the same scan loop, checks and early
    exits as the source. Each is specified against the pure functions above.
  - The outcome of `_guardar_productos` is the parameter `writeOk`. When it is
    false the method leaves `records` as it was.
  - The result strings are replaced by the `Status` datatype, with the values
    `Ok`, `DuplicateKey`, `NotFound`, `InvalidInput(field)` and `StorageFailure`.

The two compatibility variants behave differently from the main operations:

- `modificar` (`Modify`) neither strips nor rounds. It only requires the name
  to be non-empty, and it reports every failure as `NotFound`. This includes a
  failed write.
- `eliminar` (`Delete`) does not look at the outcome of the write. It reports a
  present id as removed even when the file kept its old contents. The model
  keeps this as the code has it.

## Model

| member | source | states |
|---|---|---|
| Text.SkipSpaces | main.py:78 | the returned position is the first one at or after the start that is not whitespace; everything skipped is whitespace |
| Text.SkipSpacesBack | main.py:78 | walking back from the end, everything skipped is whitespace and the character before the returned end is not |
| Text.Strip | main.py:78-79 | `strip()` returns an infix of the input whose removed prefix and suffix are all whitespace. The result neither starts nor ends with whitespace. It is empty exactly when the input is blank |
| Text.StripIdempotent | main.py:78-79 | stripping a stripped string changes nothing |
| Text.StripPlain | main.py:78-79 | a non-empty string with no whitespace at either end is its own strip |
| Text.LowerChar | main.py:206 | lower-casing one character leaves no capital; a capital moves 32 code points up, anything else is unchanged |
| Text.Lower | main.py:206 | `lower()` keeps the length and leaves no capital; each position is unchanged or the small form of a capital |
| Text.LowerIdempotent | main.py:206 | lower-casing twice equals lower-casing once |
| Text.Contains | main.py:206 | `needle in hay` holds exactly when the needle occurs at some position of the hay |
| Text.NoOccurrence | main.py:206 | a needle whose first character is at no candidate position is not contained |
| Money.CentsOf | main.py:80 | the cent count is within half a cent of the price, and a tie goes to the even count |
| Money.RoundCents | main.py:80 | `round(p, 2)` is the cent count of `CentsOf` divided by 100, so ties go to the even cent. It is a whole number of cents, at most half a cent from `p`, never negative for a non-negative `p`, and `p` itself when `p` already is whole cents |
| Money.RoundCentsIdempotent | main.py:131 | rounding an already rounded price changes nothing, so an update that re-stores a stored price keeps it |
| Money.RoundCentsExample | tests.py:187-192 | 1234.567 is stored as 1234.57 |
| Products.Validate | main.py:34-48 | the checks run in source order: a blank name fails first, then a negative price, then a negative quantity. The result is Valid exactly when none of these holds (four if-and-only-if clauses) |
| Products.ValidFields | main.py:34-48 | a passing validation guarantees a non-empty stripped name and a price and quantity that are not negative |
| Products.HasId | main.py:50-53 | `_producto_existe`: some position of the list holds a record with the id. FindIndex and Lookup tie their answers to it |
| Products.FindIndex | main.py:55-61 | the scan returns the first position holding the id, or None exactly when no record has the id |
| Products.Lookup | main.py:55-61 | `_obtener_producto_por_id` finds a record exactly when `_producto_existe` holds, and what it finds is a stored record with that id. No earlier record has that id, so it is the first match of the scan |
| Products.LookupUnique | main.py:50-61 | with unique ids, looking up the id of the record at any position returns that record |
| Products.AppendFresh | main.py:84 | appending a record with a new id keeps ids unique, makes the new record the answer for its id, and leaves the answer for every other id unchanged |
| Products.AppendWellFormed | main.py:84 | appending a well-formed record keeps all records well-formed |
| Products.ReplaceKeepsIds | main.py:126-134 | replacing one record by one with the same id keeps every position's id, keeps uniqueness (both directions) and keeps every lookup position |
| Products.SameIdsFind | main.py:58-61 | the lookup position depends on the ids only |
| Products.ReplaceWellFormed | main.py:126-134 | replacing a record by a well-formed one keeps all records well-formed |
| Products.RemoveAt | main.py:155 | `pop(i)` shortens the list by one, keeps the records before `i`, and shifts the ones after it down by one |
| Products.RemoveAtIds | main.py:152-156 | removing one record keeps ids unique and keeps well-formedness. With unique ids the removed id is no longer found. Every other id is present after the removal exactly when it was before |
| Queries.MatchesEdges | main.py:206 | the empty query matches every record, and a query longer than the name matches none |
| Queries.Search | main.py:206 | the result is no longer than the store, and a record is in it exactly when it is stored and its lower-cased name contains the lower-cased query |
| Queries.SearchConcat | main.py:206 | search keeps stored order: searching a concatenation concatenates the searches |
| Queries.SearchIgnoresQueryCase | main.py:206 | a query and its lower-cased form find the same records |
| Queries.SearchEmptyQuery | main.py:206 | the empty query finds every record, in order |
| Queries.SearchLatinExample | tests.py:150-156 | "LÁPIZ PROFESIONAL" matches the query "lápiz" |
| Queries.SearchExamples | tests.py:131-148 | "profesional" finds exactly the pencil and not the eraser; "cuaderno" finds nothing |
| Queries.ProfesionalMatches | tests.py:131-139 | "Lápiz profesional" matches "profesional" |
| Queries.ProfesionalMisses | tests.py:131-140 | "Borrador pequeño" does not match "profesional" |
| Queries.WorthSign | main.py:183 | one record's `precio * cantidad` is not negative for a well-formed record, and is 0 when it has no units |
| Queries.TotalUnits | main.py:233 | the sum of the quantities is not negative when every record is well-formed |
| Queries.InventoryValue | main.py:234 | the sum of price times quantity is not negative when every record is well-formed |
| Queries.SumsConcat | main.py:233-234 | both sums distribute over concatenation; with a one-record tail this is the step by which the sums grow record by record |
| Queries.SumsRemoveAt | main.py:152-156 | removing a record takes exactly its quantity and its worth off the sums |
| Queries.SumsReplace | main.py:126-134 | replacing a record swaps its quantity and worth in the sums for the new record's |
| Queries.ValueAtLeast | main.py:234 | with every price at least `lo`, the value is at least `lo` times the units |
| Queries.ValueAtMost | main.py:234 | with every price at most `hi`, the value is at most `hi` times the units |
| Queries.MaxPriceIndex | main.py:236 | `max(..., key=precio)` picks a record no other record is more expensive than, and every earlier record is strictly cheaper: the first maximum |
| Queries.MinPriceIndex | main.py:237 | `min(..., key=precio)` picks a record no other record is cheaper than, and every earlier record is strictly more expensive: the first minimum |
| Queries.AveragePrice | main.py:235 | with positive units the average times the units is the value; otherwise the average is 0 |
| Queries.Statistics | main.py:225-237 | NoData exactly for an empty store. Otherwise it gives the record count, the two sums and the guarded average, the first most expensive and the first cheapest record, and every price lies between the cheapest and the most expensive |
| Queries.AverageBetweenExtremes | main.py:233-237 | with well-formed records and at least one unit, the average lies between the cheapest and the most expensive price |
| Queries.AverageWithin | main.py:233-235 | an average over records priced within [lo, hi] lies within [lo, hi] |
| Queries.StatisticsExample | tests.py:163-173 | prices 1000 and 2000 with 10 and 5 units give 2 records, 15 units, value 20000, an average of 20000/15, and the two records as the extremes |
| Queries.ExtremesExample | tests.py:176-185 | among prices 500, 5000 and 2000 the most expensive is the 5000 one and the cheapest the 500 one |
| Inventory.NewRecord | main.py:76-82 | the stored record keeps the id and quantity. Its name and description are the stripped inputs. Its price is `round(p, 2)`, a whole number of cents. It is well-formed whenever validation passed |
| Inventory.Revised | main.py:128-133 | an updated record equals the record a create with its id and the new fields would store |
| Inventory.ProductManager.constructor | main.py:10-11 | the manager starts over the given file contents |
| Inventory.ProductManager.GetById | main.py:55-61 | the scan loop returns the first stored record with the id, or None (equals Lookup) |
| Inventory.ProductManager.Create | main.py:65-94 | a duplicate id is reported before validation. Otherwise the first failing field is reported. Otherwise the write outcome is reported. Only on success is the new record appended at the end. All other lookups are unchanged. Unique ids and well-formedness are preserved |
| Inventory.ProductManager.Update | main.py:115-144 | NotFound comes before validation. On success only the first record with the id is replaced, by its revised form. Length and the id at every position are unchanged. Unique ids and well-formedness are preserved. Failure leaves the file unchanged |
| Inventory.ProductManager.Remove | main.py:146-169 | NotFound for an absent id. The removed record is the first with the id. On success exactly that position is removed. With unique ids the id is gone afterwards. Other ids are present exactly as before. Failure leaves the file unchanged |
| Inventory.ProductManager.Modify | main.py:268-294 | the result is Ok exactly when the id exists, the name is non-empty, price and quantity are not negative and the write succeeds; then the first record with the id gets the raw fields; every failure is NotFound and changes nothing |
| Inventory.ProductManager.Delete | main.py:296-306 | the result is Ok exactly when the id exists, whatever the write outcome; the file loses that first record only when the write succeeds |
| Inventory.ProductManager.ListInventory | main.py:171-197 | NoRecords exactly for an empty file; otherwise the records in stored order, their count, and a loop-accumulated total equal to InventoryValue |
| Inventory.CrudFlow | tests.py:197-221 | create, read, update, read, delete, read on an empty store all behave as the integration test expects: the read returns "Producto Test", the re-read "Producto Modificado" at 2000 with 75 units, and the final read nothing |
| Inventory.ConsistencyFlow | tests.py:223-242 | removing the middle of three records leaves the other two findable, the removed one gone, and the listing in order |

## Left out

- Reading and writing the JSON file (`_cargar_productos`, `_guardar_productos`) is I/O. The file is the field `records`. A failed write is the parameter `writeOk`. The fail-soft load that turns an unreadable file into an empty list is not modelled.
- Each source operation reloads the file several times: the existence check reads it once and the update reads it again. The model assumes nothing changes the file in between, and it does not model concurrent writers or partially written files.
- Money.RoundCents: rounds the exact rational price, while Python rounds the nearest binary float. A price such as 2.675, whose float lies just below the half cent, rounds down in Python and up here. Float arithmetic in the sums and the average is exact here as well.
- Text.Strip: whitespace is classified only below U+0100. Other Unicode spaces are not modelled.
- Text.Lower: lower-cases only A-Z and the Latin-1 capitals. Other scripts and special cases are not modelled.
- The `isinstance` checks of the validation are not modelled, because the Dafny types already rule out a name, description, price or quantity of the wrong kind. Python's acceptance of `True` as an integer and of NaN prices are outside the model.
- The result strings, emoji, `:,.2f` formatting and `print` logging are presentation and are not modelled. The statistics return numbers and records, and the listing returns records and totals.
- `leer_producto` and `consultar` are the lookup (`GetById`) plus formatting. `agregar` is a direct call of `crear_producto`. Neither gets its own member.
- The `_manager_global` singleton, the module-level wrapper functions and `demostrar_sistema` are glue and demo code.
- The unexpected-exception branches (`except Exception`) of every operation are not modelled. In the model every step on typed inputs succeeds.
- The double range is not modelled, nor the OverflowError it causes. `float(precio)` raises for an int price beyond the double range (main.py:80, main.py:131), so Python's create and update then fail without storing, while the model's Create and Update store the price. A product `precio * cantidad` or a sum beyond the double range (main.py:183, main.py:234) gives inf or raises in Python, while the model's ListInventory and Statistics return exact figures.
- Inventory.ConsistencyFlow: uses three records where the test uses five, and removes one where the test removes two. It starts from a store that already holds the records instead of creating them one by one; creation is covered by CrudFlow.

# X_Three_PL inventory records, modelled in Dafny

This project models the core of a small inventory service. The service keeps one table of stock
rows, `X_Three_PL`. Each row holds:

- a product barcode (`shk`) and name;
- a storage cell barcode (`wr_shk`) and cell name (`wr_name`);
- a quantity (`kolvo`);
- a condition, a reason and an executor (`ispolnitel`);
- a creation time and an update time.

The model follows the program's three layers, one module each:

- `X3plModel` (`x3pl_model.dfy`): the `X3PLModel` record built from a request body. It covers the
  record's defaults and `parseInt` coercion, its `validate()` and its `toDbObject()`.
- `X3plRepository` (`x3pl_repository.dfy`): what each SQL statement means on an in-memory table.
  - Read statements are functions of the rows: the placed and unplaced listings, the cell search,
    the substring search, the oldest/newest lookups for removal and inventory, and pagination
    with the row count.
  - Writing statements are methods of the class `Store`, which holds the rows and the
    `IDENTITY(1,1)` counter and is changed in place. Each method is proved to give exactly the
    result and table of an effect function.
- `X3plService` (`x3pl_service.dfy`): the four request validators, and the operations that
  validate, resolve the cell name and then write. The operations are `addRecord`,
  `addMinimalRecord`, `removeItems`, `performInventory` and the effective `updateRecord`.
  - Each operation is a method over a `Store`. It is proved to reach exactly the result and the
    table of a specification function composed from the repository's effect functions.
  - Lemmas about those specification functions state what the operations promise. These are:
    - no write on any error path;
    - exactly one row affected;
    - a partial removal leaves at least 1;
    - inventory deletes on 0 and otherwise overwrites only quantity, condition and reason;
    - an insert assigns a fresh identity;
    - placed and unplaced listings are disjoint;
    - no stored quantity becomes negative.
  - The searches and the pagination parameters are functions.

Three shared modules complete the project:

- `JsValues` (`js_values.dfy`) models the JavaScript values in a request and the language
  operations the code relies on:
  - truthiness and `||`;
  - `typeof`;
  - `trim` over the ECMAScript white-space set;
  - `parseInt(v, 10)`, `Number(v)` and `String(n)`.
- `FieldChecks` (`field_checks.dfy`) holds the field tests, the failure messages, and the
  "push one message per failing test, in order" reporting shared by every validator.
- `Tables` (`tables.dfy`) holds the row, the object handed to the insert, and the listed item.

The model makes these assumptions:

- **Cell names.** The table of cell names (`x_Storage_Scklads`) is a `map<string, string>`
  parameter.
- **Clock.** The clock is a `nat` parameter `now`.
- **Typed parameters.** The SQL driver's typed parameters are modelled by `IntParam`,
  `TextParam` and `DateParam`:
  - `sql.Int` converts its value with `Number()` and refuses `NaN` and values outside `INT`;
  - `sql.NVarChar` takes strings;
  - undefined and null bind `NULL`.
- **Missing repository methods.** The service calls three repository methods that
  `repositories/x3plRepository.js` does not define. The model gives them these meanings:
  - `findRecordById` is a lookup by identity (`FindRecordById`);
  - `insertMinimal` inserts an unplaced row with quantity 0 and empty cell fields
    (`InsertMinimalEffect`);
  - `updateRecordExtended` overwrites the listed columns and `date_upd`, then returns the updated
    row (`UpdateExtendedEffect`).
- **`updateRecord`.** `services/x3plService.js` defines `updateRecord` twice. The later
  definition (line 564) is the one in effect, and it is the one modelled.

`removeItems` compares the request's quantity with the stored one as it was sent (a string stays
a string), while its validator checked a `parseInt` copy. The model keeps that behaviour and
records it under "Findings".

The model's own `validate()` (models/x3plModel.js:33) has no `isNaN` test, unlike the service
validators. A quantity like `"abc"` becomes `NaN` and passes it (`UnparsableQuantityBecomesNaN`,
`ModelAcceptsNaNQuantity`). The insert's `INT` parameter then refuses it, so `addRecord` still
stores nothing.

The contracts of `CoerceQuantity` and `FromRequest` say only that a text quantity becomes a
number or NaN. Which number is pinned by the lemmas: `ParseInt` is NaN exactly when no digit
follows the white space and sign, `ParseIntOfIntToString` and `FromRequestReadsDecimalQuantity`
read the decimal text of an integer back as that integer, and `ParseIntAgreesWithNumber` ties
`parseInt` to `Number()`.

## Model

| member | source | states |
|---|---|---|
| JsValues.TrimStartSpec | models/x3plModel.js:21 | the start of `trim` drops exactly the leading run of white space and stops at the first other character |
| JsValues.TrimEndSpec | models/x3plModel.js:21 | the end of `trim` drops exactly the trailing run of white space and stops at the last other character |
| JsValues.BlankIffAllWhiteSpace | models/x3plModel.js:21 | `s.trim() === ''` holds exactly when every character of `s` is white space |
| JsValues.ParseInt | models/x3plModel.js:9 | `parseInt(s, 10)` is always a number, and it is `NaN` exactly when no digit follows the leading white space and optional sign |
| JsValues.ParseIntOfIntToString | models/x3plModel.js:9 | `parseInt` reads the decimal text of any integer back as that integer |
| JsValues.StringToNumberOfIntToString | services/x3plService.js:203 | `Number()` (the conversion behind `-` and the `INT` parameter) reads the decimal text of any integer back as that integer |
| JsValues.ParseIntAgreesWithNumber | services/x3plService.js:243 | when both the validator's `parseInt` and the driver's `Number()` read a text quantity as a number, it is the same number |
| FieldChecks.MissingStringIffNotFilled | models/x3plModel.js:21 | a required string fails its test exactly when it is not a string holding a character other than white space |
| FieldChecks.BadOptionalStringIffPresentUnfilled | services/x3plService.js:653 | an optional string fails its test exactly when it is present (not undefined or null) and not a filled string |
| FieldChecks.CoerceQuantity | services/x3plService.js:243 | the coerced quantity is never a string: text becomes its `parseInt` number (possibly NaN), anything else is kept |
| X3plModel.FromRequest | models/x3plModel.js:3-15 | the constructor copies the strings, turns a text quantity into a number and keeps any other quantity, nulls a falsy cell name, reason and update time, and defaults a falsy date to `now` |
| X3plModel.FromRequestReadsDecimalQuantity | models/x3plModel.js:9 | a quantity sent as the decimal text of an integer is held as that integer |
| X3plModel.UnparsableQuantityBecomesNaN | models/x3plModel.js:9 | a quantity sent as any text in which no digit follows the leading white space and sign (such as `"abc"`) is held as NaN |
| X3plModel.Validate | models/x3plModel.js:18-46 | the failures come in field order shk, name, wr_shk, kolvo, condition, ispolnitel; the list is empty exactly when every field passes |
| X3plModel.ValidateReportsEachField | models/x3plModel.js:21-43 | each failure is reported exactly when its own field fails its test |
| X3plModel.ModelAcceptsNaNQuantity | models/x3plModel.js:33 | with filled strings and a NaN quantity, the model validates without a failure |
| X3plModel.ToDbObject | models/x3plModel.js:49-62 | the object for the insert carries the ten stored fields unchanged |
| X3plRepository.IntParam | repositories/x3plRepository.js:43 | an `INT` parameter binds NULL for undefined and null, binds the `Number()` reading when it is a number within `INT`, and is refused otherwise |
| X3plRepository.BindRow | repositories/x3plRepository.js:38-53 | the insert stores a row exactly when every value binds and no NOT NULL column (shk, name, kolvo, date) is NULL; the row carries the new identity and an `INT` quantity |
| X3plRepository.SortByDateDesc | repositories/x3plRepository.js:116 | `ORDER BY date DESC` gives a permutation of the rows with dates non-increasing |
| X3plRepository.GetRazmeshennye | repositories/x3plRepository.js:97-124 | exactly the rows with kolvo > 0 and a cell barcode and cell name that are neither NULL nor empty, each as often as stored, latest first |
| X3plRepository.GetNerazmeshennye | repositories/x3plRepository.js:130-155 | exactly the rows with kolvo = 0 and a cell barcode and cell name each NULL or empty, latest first |
| X3plRepository.PlacedRowIsListed | repositories/x3plRepository.js:111-115 | a stored row that is placed is listed among the placed items and not among the unplaced ones |
| X3plRepository.PlacedAndUnplacedDisjoint | repositories/x3plRepository.js:111-146 | no item is listed both as placed and as unplaced |
| X3plRepository.SearchByWrShk | repositories/x3plRepository.js:253-277 | exactly the rows whose cell barcode equals the argument, latest first |
| X3plRepository.SearchWithLike | repositories/x3plRepository.js:288-342 | nothing when no parameter is supplied; otherwise exactly the rows where some supplied parameter occurs in its column (OR-combined), latest first |
| X3plRepository.FindRecordForRemoval | repositories/x3plRepository.js:162-188 | a stored row equal on barcode, cell and condition holding at least the quantity asked, with no qualifying row dated earlier; none exactly when no row qualifies (and always none for a NULL quantity) |
| X3plRepository.FindRecordForInventory | repositories/x3plRepository.js:349-373 | a stored row equal on barcode, cell and condition, whatever its quantity, with no matching row dated later; none exactly when no row matches |
| X3plRepository.FindRecordById | services/x3plService.js:573 | the stored row carrying the identity, none exactly when no row carries it |
| X3plRepository.Page | repositories/x3plRepository.js:474-475 | `OFFSET … FETCH NEXT` gives at most `limit` rows, namely the ones starting at position `offset` |
| X3plRepository.PagesConcatenate | repositories/x3plRepository.js:474-475 | two consecutive pages put together are the page spanning both |
| X3plRepository.GetAllRecords | repositories/x3plRepository.js:450-483 | a limit of 0 becomes 1000; the page of the date-descending rows at the offset; refused exactly when the fetch count is not positive or either value is outside `INT` |
| X3plRepository.TotalRecordsCount | repositories/x3plRepository.js:489-503 | the count is the table size: the least number of rows that, fetched from the start, returns every row |
| X3plRepository.Apply | repositories/x3plRepository.js:204-206 | an update writes the listed columns with the given values (quantity; condition and reason for inventory; cell, cell name, executor, condition and reason for placement) and `date_upd`; every other column keeps its value, and identity, barcode, name and creation date never change |
| X3plRepository.UpdateByIdRewritesOneRow | repositories/x3plRepository.js:204-206 | with distinct identities, an update by id rewrites exactly the one row carrying it and nothing else |
| X3plRepository.DeleteByIdKeepsOthers | repositories/x3plRepository.js:232-233 | a delete by id keeps exactly the rows carrying another identity |
| X3plRepository.DeleteByIdRemovesOneRow | repositories/x3plRepository.js:232-233 | with distinct identities, a delete by id removes exactly the one row carrying it, keeping the others in order |
| X3plRepository.DeleteByIdKeepsAll | repositories/x3plRepository.js:232-233 | a delete by an identity no row carries leaves the table unchanged |
| X3plRepository.DeleteKeepsValid | repositories/x3plRepository.js:232-233 | deleting a stored row keeps identities distinct, positive and below the counter |
| X3plRepository.DeleteKeepsQuantitiesNonNegative | repositories/x3plRepository.js:232-233 | a delete keeps every stored quantity non-negative |
| X3plRepository.InsertEffect | repositories/x3plRepository.js:35-69 | an insert succeeds exactly when the identity range is not exhausted and the row binds; it appends one row under the next identity and returns that identity with the object echoed; on failure nothing changes |
| X3plRepository.InsertAssignsFreshId | repositories/x3plRepository.js:55-62 | the identity an insert returns is carried by no row stored before, and the appended row carries it |
| X3plRepository.InsertMinimalEffect | services/x3plService.js:71 | the minimal insert appends one row under the next identity, with quantity 0 and an empty cell, so it is unplaced and not placed; on failure nothing changes |
| X3plRepository.DeleteEffect | repositories/x3plRepository.js:226-246 | `deleteRecord` succeeds exactly when some row carries the identity and removes those rows; otherwise it reports an error and changes nothing |
| X3plRepository.UpdateQuantityEffect | repositories/x3plRepository.js:196-219 | `updateRecordQuantity` succeeds exactly when the quantity binds as an `INT` and a row carries the identity, writing only that quantity and `date_upd`; otherwise nothing changes |
| X3plRepository.UpdateInventoryEffect | repositories/x3plRepository.js:381-409 | `updateRecordForInventory` succeeds exactly when the values bind and a row carries the identity, writing only quantity, condition, reason and `date_upd`; otherwise nothing changes |
| X3plRepository.UpdateExtendedEffect | services/x3plService.js:602 | the extended update writes cell, cell name, quantity, executor, condition, reason and `date_upd` of the row, returning the row as updated; otherwise nothing changes |
| X3plRepository.Store.constructor | repositories/x3plRepository.js:421-433 | a new table is empty, valid, and its identity counter starts at 1 |
| X3plRepository.Store.Insert | repositories/x3plRepository.js:35-69 | the insert method reaches exactly the result and table of `InsertEffect` and keeps the table valid |
| X3plRepository.Store.InsertMinimal | services/x3plService.js:71 | the minimal insert method reaches exactly the result and table of `InsertMinimalEffect` |
| X3plRepository.Store.DeleteRecord | repositories/x3plRepository.js:226-246 | the delete method reaches exactly the result and table of `DeleteEffect` |
| X3plRepository.Store.UpdateRecordQuantity | repositories/x3plRepository.js:196-219 | the quantity update method reaches exactly the result and table of `UpdateQuantityEffect` |
| X3plRepository.Store.UpdateRecordForInventory | repositories/x3plRepository.js:381-409 | the inventory update method reaches exactly the result and table of `UpdateInventoryEffect` |
| X3plRepository.Store.UpdateRecordExtended | services/x3plService.js:602 | the extended update method reaches exactly the result and table of `UpdateExtendedEffect` |
| X3plService.ResolveWarehouse | services/x3plService.js:22-26 | a cell resolves exactly when the storage table lists it with a non-empty name, and then to that name |
| X3plService.ValidateMinimalData | services/x3plService.js:100-112 | failures in the order shk, name; each reported exactly when its field fails; none exactly when both pass |
| X3plService.MinimalDataAcceptedIff | services/x3plService.js:100-112 | a minimal request passes exactly when barcode and name are both filled strings |
| X3plService.ValidateRemovalData | services/x3plService.js:227-249 | failures in the order shk, wr_shk, condition, kolvo; none exactly when the strings pass and the parsed quantity is a number of at least 1 |
| X3plService.RemovalReportsEachField | services/x3plService.js:230-246 | each removal failure is reported exactly when its own field fails its test |
| X3plService.RemovalDataAcceptedIff | services/x3plService.js:227-249 | a removal request passes exactly when shk, wr_shk and condition are filled strings and the quantity (parsed when text) is a number ≥ 1, not NaN |
| X3plService.ValidateInventoryData | services/x3plService.js:411-436 | the request is returned with a text quantity replaced by its `parseInt` reading; failures in the order shk, wr_shk, condition, kolvo; none exactly when all pass with quantity ≥ 0 |
| X3plService.InventoryReportsEachField | services/x3plService.js:414-433 | each inventory failure is reported exactly when its own field fails its test |
| X3plService.InventoryDataAcceptedIff | services/x3plService.js:411-436 | an inventory request passes exactly when the three strings are filled and the parsed quantity is a number ≥ 0 |
| X3plService.ValidateUpdateData | services/x3plService.js:635-666 | failures in the order id, wr_shk, kolvo, ispolnitel, condition, reason; none exactly when every test passes |
| X3plService.UpdateReportsEachField | services/x3plService.js:638-663 | each update failure is reported exactly when its own field fails its test |
| X3plService.UpdateDataAcceptedIff | services/x3plService.js:635-666 | an update request passes exactly when the id is a positive number, the cell a filled string, the parsed quantity ≥ 0, and each optional string absent or filled |
| X3plService.AddRecordSpec | services/x3plService.js:10-55 | `addRecord` keeps the table valid and writes nothing whenever it fails |
| X3plService.AddRecord | services/x3plService.js:10-55 | the method reaches exactly the result and table of `AddRecordSpec` |
| X3plService.AddRecordNeedsValidDataAndCell | services/x3plService.js:13-26 | nothing is stored unless the model validates and its cell resolves; a validation failure and an unknown cell each give their message with the table unchanged |
| X3plService.AddRecordAppendsOneRow | services/x3plService.js:28-39 | a successful add appends one row under a fresh identity, keeping the old rows, with the request's fields, the resolved cell name, kolvo ≥ 1, creation time `now` and no update time |
| X3plService.AddRecordAppendsPlaced | services/x3plService.js:22-39 | the row a successful add appends is placed: listed among the placed items and not among the unplaced ones |
| X3plService.AddMinimalRecordSpec | services/x3plService.js:62-93 | `addMinimalRecord` keeps the table valid and writes nothing whenever it fails |
| X3plService.AddMinimalRecord | services/x3plService.js:62-93 | the method reaches exactly the result and table of `AddMinimalRecordSpec` |
| X3plService.AddMinimalRecordAppendsUnplaced | services/x3plService.js:71-83 | a successful minimal add appends one row under a fresh identity, listed as unplaced and not as placed, and reports its identity, barcode, name and date |
| X3plService.RemovalStep | services/x3plService.js:197-204 | the found row is deleted exactly when the request's quantity, as sent, is the stored quantity as a number |
| X3plService.RemoveItemsSpec | services/x3plService.js:173-220 | `removeItems` keeps the table valid and writes nothing whenever it fails |
| X3plService.RemoveItems | services/x3plService.js:173-220 | the method reaches exactly the result and table of `RemoveItemsSpec` |
| X3plService.RemovalStepSucceeds | services/x3plService.js:197-204 | the delete or decrement of a stored row holding at least the quantity taken cannot fail |
| X3plService.RemoveItemsSucceedsWhenFound | services/x3plService.js:182-210 | once the lookup finds a row, the removal succeeds |
| X3plService.RemoveItemsNotFound | services/x3plService.js:182-194 | a valid removal answers the combined "not enough or not found" error with no write exactly when no row has the barcode, cell, condition and at least the quantity |
| X3plService.RemoveItemsDeletesExactMatch | services/x3plService.js:197-200 | taking exactly the found row's quantity deletes that row and only it |
| X3plService.RemoveItemsDecrementsPartialMatch | services/x3plService.js:201-205 | when the quantity sent is not the stored number itself, only the found row changes: its quantity becomes the stored one minus the amount the `INT` parameter read (never below 0, and at least 1 for a quantity sent as a number) and its update time `now` |
| X3plService.RemovalQuantityFits | services/x3plService.js:201-205 | for a validated quantity the `INT` parameter takes, the `-` of the decrement reads the same number, at least 1, and the difference from a stored quantity holding as much is again an `INT` |
| X3plService.RemoveItemsKeepsQuantitiesNonNegative | services/x3plService.js:197-205 | a removal never makes a stored quantity negative |
| X3plService.RemovalStepOnDecimalText | services/x3plService.js:197-204 | a quantity sent as the decimal text of the stored quantity never equals it, so the row is decremented to 0 |
| X3plService.RemoveItemsTextQuantityLeavesEmptyRow | services/x3plService.js:197-205 | taking all of a row as text keeps the row with quantity 0 and its cell set, so it is listed neither as placed nor as unplaced |
| X3plService.RemovalStepIntended | services/x3plService.js:197-204 | on the quantity as a number: delete exactly when it takes the whole stored quantity, otherwise leave stored − requested ≥ 1 |
| X3plService.RemovalStepMatchesIntendedOnNumbers | services/x3plService.js:197-204 | a numeric quantity gets exactly the intended step; the decimal text of the full quantity does not get the intended delete |
| X3plService.PerformInventorySpec | services/x3plService.js:355-404 | `performInventory` keeps the table valid and writes nothing whenever it fails |
| X3plService.PerformInventory | services/x3plService.js:355-404 | the method reaches exactly the result and table of `PerformInventorySpec` |
| X3plService.PerformInventoryNotFound | services/x3plService.js:364-375 | a valid inventory answers "record not found" with no write exactly when no row has the barcode, cell and condition |
| X3plService.PerformInventoryDeletesOnZero | services/x3plService.js:377-381 | a count of 0 deletes the found row and only it |
| X3plService.PerformInventoryOverwrites | services/x3plService.js:382-390 | a positive count changes only the found row's quantity, condition, reason (NULL when absent) and update time |
| X3plService.PerformInventoryKeepsQuantitiesNonNegative | services/x3plService.js:377-390 | an inventory never makes a stored quantity negative |
| X3plService.UpdateRecordSpec | services/x3plService.js:564-628 | `updateRecord` keeps the table valid and writes nothing whenever it fails |
| X3plService.UpdateRecord | services/x3plService.js:564-628 | the method reaches exactly the result and table of `UpdateRecordSpec` |
| X3plService.UpdateRecordRejectsMissingRowOrCell | services/x3plService.js:572-589 | a valid update of a missing row reports it with no write, before the cell is looked up; an unknown cell is reported with no write |
| X3plService.UpdateRecordSetsFields | services/x3plService.js:591-618 | a valid update changes only the row: cell, resolved name, the quantity the validator read (never negative), executor, condition and reason or NULL, update time; the result shows the row as updated |
| X3plService.UpdateRecordKeepsQuantitiesNonNegative | services/x3plService.js:591-602 | an update never makes a stored quantity negative |
| X3plService.SearchByWrShk | services/x3plService.js:256-285 | a blank cell barcode is refused with its message; otherwise exactly the rows of the trimmed barcode, latest first |
| X3plService.SearchParam | services/x3plService.js:302-320 | a parameter is forwarded exactly when it is a non-blank string, and then trimmed |
| X3plService.SearchWithLike | services/x3plService.js:296-348 | refused with its message, or the substring search over the forwarded parameters, latest first |
| X3plService.SearchWithLikeAcceptedIff | services/x3plService.js:298-330 | a search runs exactly when some parameter is a filled string; a filled parameter is forwarded trimmed, any other is left out |
| X3plService.EffectiveLimit | services/x3plService.js:462 | the limit is never above 10000, is 1000 when absent or 0, and is otherwise the smaller of the given limit and 10000 |
| X3plService.EffectiveOffset | services/x3plService.js:463 | the offset is never negative, is 0 when absent, and is otherwise the larger of the given offset and 0 |
| X3plService.GetAllRecords | services/x3plService.js:458-494 | answers exactly when the effective limit is positive and the offset fits `INT`; the page of the date-descending rows, the table size as total, and at most limit ≤ 10000 rows |
| X3plService.HasMoreIffRowsFollow | services/x3plService.js:482 | `hasMore` is set exactly when a row follows the page |
| X3plService.NegativeLimitIsRefused | services/x3plService.js:462 | a negative limit is not raised, reaches the query and is refused |

## Left out

- Express routes, controllers, OpenAPI documentation, the connection pool and application startup are not part of this model. They are framework plumbing and I/O.
- The `X3PLService` wrappers around `getRazmeshennye` and `getNerazmeshennye` are not modelled. They only pass the repository result on. Their repository statements are modelled.
- `createTableIfNotExists` and `checkTableExists` are left out. Only what the table definition implies is kept: nullable cell, condition, reason and executor columns; NOT NULL barcode, name, quantity and date; an identity starting at 1.
- Logging (`console.*`) is left out.
- Driver error texts are left out. A repository failure is modelled by its "Failed to …" prefix, without the driver's message after the colon.
- Concurrency is left out. Each operation is atomic, so the race between a lookup and the following write cannot occur in the model.
- Wall-clock time is a `nat` parameter `now`. Date objects carry such a reading.
- The `x_Storage_Scklads` lookup is a `map<string, string>` parameter. A cell listed with a NULL name is modelled as not listed, since `!warehouseName` treats both alike.
- The SQL driver's typed-parameter conversion is an assumption stated in `IntParam`, `TextParam` and `DateParam`. The driver's source is not part of this model.
- `findRecordById`, `insertMinimal` and `updateRecordExtended` are assumed store operations. The repository does not define them, so their meaning comes from their call sites and the route documentation.
- The first `updateRecord` (services/x3plService.js:501) is shadowed by the second definition and is not modelled.
- Numbers are integers or NaN. Fractions, Infinity, `-0` and the hexadecimal, exponent and fractional forms `Number()` accepts are not modelled: `Number()` of such text is modelled as NaN.
- Strings are sequences of Unicode scalar values, not of UTF-16 code units. A character outside the Basic Multilingual Plane is one `char` here but two code units in JavaScript, and a lone surrogate, which a JSON request body may carry, cannot be represented. Every white-space character `trim` removes lies in the Basic Multilingual Plane, so trimming, blank tests and digit reading are unaffected; only string lengths would differ.
- SQL collation, LIKE wildcards in user input and NVARCHAR length truncation are not modelled. Equality is exact string equality, and LIKE is plain substring containment.
- `getAllRecords` receives its limit and offset as `Option<int>`. A value that is absent or not a number is `None`.
- `X3plRepository.SortByDateDesc`: rows of equal date are put in one fixed order. SQL leaves their order open. The lookups are specified without fixing tie-breaking ("no qualifying row dated earlier/later").
- `X3plService.UpdateRecordSetsFields`: this lemma covers quantities the `INT` parameter takes. A quantity the parameter refuses is covered by `UpdateExtendedEffect`, which reports an error and writes nothing.
- `X3plService.UpdateRecordSpec`: an id at or above 2^31 is reported as "not found" by the lookup instead of failing inside the driver.
- A failing store (a lost connection, a driver time-out) is not modelled. The service's `catch` blocks turn such a failure into an error result with no write; `RemovalStepSucceeds`, `RemoveItemsSucceedsWhenFound` and the other "succeeds" statements hold only for a store that answers.

## Findings

| source | as written | input that shows it | evidently intended | confidence | as-written member | corrected member |
|---|---|---|---|---|---|---|
| services/x3plService.js:197-204 | `removeItems` validates with the `parseInt` reading of a text quantity (line 243) and looks up with the `Number()` reading of the `INT` parameter (repositories/x3plRepository.js:169). The delete-or-decrement choice compares the raw request value with `===`. | a stored row with kolvo 5, and a removal request with kolvo `"5"` (text): the row is updated to kolvo 0 instead of deleted, and it then appears in neither the placed nor the unplaced listing | delete the row when the request takes its whole quantity, whatever the type of the quantity sent | not executed | X3plService.RemoveItemsTextQuantityLeavesEmptyRow | X3plService.RemovalStepIntended |

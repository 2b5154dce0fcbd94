# Product API and ITO classification script: a Dafny model

The repository has two unrelated parts, and this project models the logic of both.

- **The ITO classification script** (`Oneclass.py`). It collects the `description` texts of every `.csv` file under a directory tree into a training corpus. It loads a test table, labels each test row `ITO` or `Non-ITO` from the classifier's predictions, and splits the rows into the two groups it writes out.
- **The product API** (`Crud.py`, `Routes.py`, `Schema.py`, with the record shape of `Models.py`): product records in a table keyed by `id`, the HTTP handlers over them, and the validation of request bodies.

Modules:

- `Wrappers`: `Option` and `Result`.
- `Seqs`: order-preserving filtering (`Filter`), subsequences, first index and flat-map, with the lemmas every query and partition relies on.
- `Schema`: the category enum, request bodies and their field constraints, the two validators, and `Validate`. Validation follows pydantic v1: each field's constraint is checked first, and a `@validator` runs only on a value the constraint accepted.
- `Crud`: the `Product` row, functions that specify each query, and the class `ProductTable`. The table is a sequence of rows in storage order, and each CRUD function is a method on it. `Valid()` holds the primary key, the schema constraints on every row, and that every row is available. Every mutating method keeps it.
- `Routes`: the query dispatch of `read_products` (`Select`), the response-building loop, and each handler's statuses (200, 201, 204, 400, 404, 422, and 500 when computing the discounted price raises).
- `Oneclass`: the directory walk as a sequence of steps, each file as its name and read outcome. It covers the nested collection loop, test loading, labelling and the two-way split.

Facts of the code that the model follows:

- `astype(str)` turns a missing test description into the text `"nan"`, not an empty string.
- A label is `ITO` exactly when the prediction equals 1; any other value gives `Non-ITO`.
- Nothing in `load_ito_descriptions` rejects an empty corpus.
- The update route takes a full `ProductBase`, so name, price, category and stock are always overwritten. Only description, image URL and discount can be left out of an update.
- No request body has an `is_available` field. New rows start available, and no update changes that.
- A `"discount": null` in a create body stores the column default 0.0, because SQLAlchemy leaves a None attribute out of the INSERT for a column with a default. In an update body it is written as NULL. The handler then computes `price * (1 - None)`, which raises, so the reply is 500 after the change has been committed. Every later read that returns that row also answers 500.
- An omitted `skip` is 0, and an omitted `limit` is 10.
- `crud.create_product` always returns a row, so the 400 branch of the create route is never taken.
- The pydantic validators `price_must_be_positive` and `stock_must_be_non_negative` never reject anything: the `gt=0` and `ge=0` constraints reject those values first.
- `Models.py` uses `Enum` at line 6 without importing it. As written, importing `models` raises `NameError`, so the application cannot start at all. The model takes the intended `enum.Enum` category type.

## Model

| member | source | states |
|---|---|---|
| `Seqs.Filter` | Crud.py:41-45 | the rows passing a test, in order: the `filter(...)` queries and the comprehension of Routes.py:29; never longer than its input, and `Seqs.FilterMembers` states which rows it keeps |
| `Seqs.FilterMembers` | Crud.py:41-45 | a filter keeps exactly the passing elements: each kept element is from the input and passes, and each passing element of the input is kept |
| `Seqs.FilterAppend` | Crud.py:41-45 | filtering distributes over concatenation, so selected rows keep table order |
| `Seqs.FilterIsSubsequence` | Oneclass.py:45-46 | a filter's result is an order-preserving subsequence of its input |
| `Seqs.FilterFilter` | Routes.py:28-29 | filtering by category and then by availability equals one filter by the conjunction |
| `Seqs.FilterSplit` | Oneclass.py:45-46 | two tests that disagree on every element split a sequence: the multisets add up to the input's and the sizes to its length |
| `Seqs.FilterDropsOne` | Crud.py:37 | filtering out exactly one position removes just that element |
| `Seqs.IndexOf` | Oneclass.py:15 | the first position of a column name, or the length when the name is absent |
| `Seqs.FilterFromAligned` | Oneclass.py:43-46 | when a row test agrees position by position with a test on the predictions, each selected row sits at a position whose prediction passes |
| `Seqs.FlatMapAppend` | Oneclass.py:17 | extending by per-file lists concatenates them in order across any split |
| `Schema.ParseCategory` | Schema.py:6-12 | an enum lookup that succeeds only for a member's own value |
| `Schema.CategoryRoundTrip` | Schema.py:6-12 | parsing a member's value gives the member back; exactly six distinct strings are accepted |
| `Schema.PriceMustBePositive` | Schema.py:23-27 | the validator accepts exactly prices above 0 and returns them unchanged; otherwise it raises "Price must be positive" |
| `Schema.StockMustBeNonNegative` | Schema.py:29-33 | the validator accepts exactly stock >= 0 and returns it unchanged; otherwise it raises "Stock cannot be negative" |
| `Schema.Valid` | Schema.py:14-21 | the `ProductBase` field constraints as one predicate: name length 1..100, description null or at most 500, price > 0, stock >= 0, discount null or in [0,1]; a definition whose meaning `Schema.ErrorsSound` and `Schema.Validate` state |
| `Schema.Validate` | Schema.py:14-21 | a body validates iff name length is 1..100, description null or at most 500, price > 0, category an enum value, stock >= 0, discount null or in [0,1]; the instance carries the given values; each reported error names a broken constraint |
| `Schema.Errors` | Schema.py:14-33 | pydantic's error list: one entry per field whose constraint or validator fails, in field order; a definition whose meaning `Schema.ErrorsSound` states |
| `Schema.ErrorsSound` | Schema.py:14-33 | the error list is empty exactly when every constraint holds, and each listed error names a constraint the body breaks |
| `Schema.ValidatorsNeverReject` | Schema.py:17-33 | with the field constraints checked first, neither validator's error ever appears |
| `Schema.DiscountDefaultsToZero` | Schema.py:21 | an omitted discount reads as 0, which lies in [0,1] |
| `Crud.FirstIndex` | Crud.py:5-6 | the position of the first row with the key (no earlier row has it), or the table length when none has it |
| `Crud.Page` | Crud.py:8-9 | offset/limit: the result has min(limit, max(0, rows - skip)) rows, row i being table row skip + i |
| `Crud.NewRecord` | Crud.py:12 | `ProductDB(**product.dict())` with the column defaults applied; a definition whose meaning `Crud.NewRecordValid` states |
| `Crud.NewRecordValid` | Crud.py:11-16 | a new row carries the request's values under the new key, starts available, is stamped with the given time, has the given discount or 0 when the discount was omitted or null, and meets the schema constraints |
| `Crud.CreatedAtFixedAtImport` | Models.py:24-25 | under the import-time column default, rows inserted at different times t1 != t2 share `created_at` and `updated_at`; rows stamped with their insert time do not |
| `Crud.Patched` | Crud.py:23-27 | the `setattr` loop over the fields the body set, then the new `updated_at`; a definition whose meaning `Crud.PatchedFrame` states |
| `Crud.PatchedFrame` | Crud.py:23-27 | an update sets `updated_at`, overwrites the fields it sets, keeps the key, availability, creation time and every omitted field; applying it twice equals applying it once; it keeps the schema constraints |
| `Crud.RemoveAtKeyed` | Crud.py:36-39 | removing one row keeps the primary key and leaves no row with the removed key |
| `Crud.RemoveAtKey` | Crud.py:32-39 | deleting by key in a keyed table is filtering that key out: one row fewer, the rest in order, the key gone |
| `Crud.ProductTable.GetProduct` | Crud.py:5-6 | None exactly when no row has the key; otherwise a row with that key, and no earlier row has it |
| `Crud.ProductTable.GetProducts` | Crud.py:8-9 | the offset/limit page of the table |
| `Crud.ProductTable.CreateProduct` | Crud.py:11-16 | appends exactly one row built from the request under the fresh key, stamped with the insert time; earlier rows unchanged; the table stays valid |
| `Crud.ProductTable.UpdateProduct` | Crud.py:18-30 | None and no change for a missing key; otherwise only the first matching row is replaced by its patched copy, which is returned |
| `Crud.ProductTable.DeleteProduct` | Crud.py:32-39 | False and no change for a missing key; otherwise True, the first matching row removed, and no row with the key left |
| `Crud.ProductTable.GetProductsByCategory` | Crud.py:41-42 | exactly the rows of the category, in table order |
| `Crud.ProductTable.GetAvailableProducts` | Crud.py:44-45 | exactly the available rows, in table order |
| `Routes.ToResponse` | Routes.py:39 | `ProductResponse.from_orm`: every column of the row, with `discounted_price` left None; `Routes.ResponseRoundTrip` states that no column is lost |
| `Routes.ResponseRoundTrip` | Routes.py:39 | a response body keeps every column of its row; only `discounted_price` is not a column |
| `Routes.Respond` | Routes.py:39-40 | building a body fails exactly when the row breaks a `ProductBase` constraint (`from_orm` validates it) or its discount is NULL, and on a row within the constraints exactly when the discount is NULL; otherwise the body holds the row and `discounted_price` = price * (1 - discount) |
| `Routes.DiscountedPriceWithinPrice` | Routes.py:40 | on a row meeting the schema constraints, the discounted price lies between 0 and the price |
| `Routes.Select` | Routes.py:27-35 | the rows returned come from the table, match the category when one is given, are available when `available_only` holds, and are no more than the table |
| `Routes.SelectBothFilters` | Routes.py:27-29 | with both filters: exactly the available rows of the category, in table order, in either filter order |
| `Routes.SelectFilteredIgnoresPaging` | Routes.py:30-33 | with a filter the result ignores `skip` and `limit` and holds every matching row |
| `Routes.SelectUnfilteredPage` | Routes.py:34-35 | without a filter the result is the page at `skip` of at most `limit` rows |
| `Routes.AvailableOnlyOnAvailableRows` | Routes.py:27-33 | on available rows, which every valid table holds, `available_only` removes nothing |
| `Routes.BuildResponses` | Routes.py:37-43 | fails exactly when some fetched row breaks a constraint or has a NULL discount; otherwise one body per row, same length and order |
| `Routes.ReadProducts` | Routes.py:19-43 | an omitted skip is 0 and an omitted limit 10; 422 when the limit is above 100; otherwise 500 when a selected row breaks a constraint or has a NULL discount, else 200 with the bodies of the selected rows in order; an unfiltered query without a limit returns at most 10 rows |
| `Routes.ReadAvailableProducts` | Routes.py:72-80 | 200 with the bodies of the available rows, in order, exactly when each meets the constraints and has a discount; otherwise 500 |
| `Routes.ReadProduct` | Routes.py:45-53 | 404 "Product not found" exactly when no row has the key; 500 when that row breaks a constraint or its discount is NULL; otherwise 200 with the row's body |
| `Routes.CreationReply` | Routes.py:11-17 | a missing creation result gives 400 and only then; a row gives 201 with its body, or 500 when it breaks a constraint or its discount is NULL |
| `Routes.CreateProduct` | Routes.py:9-17 | 422 and no change for an invalid body; otherwise 201 with the one appended row; never 400, and never 500 for values the columns can hold |
| `Routes.UpdateProduct` | Routes.py:55-63 | 422 for an invalid body, 404 and no change for a missing key; otherwise the patched row replaces the old one in place, and the reply is 200 with its body, or 500 when it cannot be answered, which on a valid table means its discount is NULL, in particular for `"discount": null` |
| `Routes.DeleteProduct` | Routes.py:65-70 | 404 and no change exactly for a missing key; otherwise 204 and the key is gone |
| `Oneclass.NonNullTexts` | Oneclass.py:16 | `dropna().astype(str).tolist()` on a column: the texts of the non-null cells, in order; `Oneclass.NonNullTextsExact` states which |
| `Oneclass.NonNullTextsExact` | Oneclass.py:16 | dropping nulls gives one text per non-null cell, each from a cell, and keeps every non-null cell's text |
| `Oneclass.LoadItoDescriptions` | Oneclass.py:7-20 | the walk loop returns the in-order concatenation of every file's contribution across all directories, and a warning for each `.csv` file that failed to parse |
| `Oneclass.VisitDirectory` | Oneclass.py:10-19 | the loop over one directory's files appends exactly that directory's descriptions and warnings, in file order |
| `Oneclass.VisitFile` | Oneclass.py:11-19 | one file appends exactly its contribution to the corpus and its warning, if any, to the warnings |
| `Oneclass.FileStepped` | Oneclass.py:11-19 | a non-`.csv` file adds nothing; a failed `.csv` adds only a warning naming its path; a parsed one adds its non-null descriptions, or nothing without a `description` column |
| `Oneclass.SkippedFileAddsNothing` | Oneclass.py:13-19 | an unusable file contributes nothing and the files after it are still collected |
| `Oneclass.Contribution` | Oneclass.py:11-17 | what one file adds to the corpus: nothing for a non-`.csv` file, an unreadable one or one without a `description` column, otherwise the non-null descriptions; `Oneclass.FileStepped` and `Oneclass.SkippedFileAddsNothing` state it case by case |
| `Oneclass.FilesOnlyCsvContribute` | Oneclass.py:10-11 | removing every non-`.csv` file of a directory leaves its descriptions unchanged |
| `Oneclass.FilesCollectedLength` | Oneclass.py:10-17 | a directory yields as many descriptions as its usable files have non-null ones |
| `Oneclass.CollectWalk` | Oneclass.py:9-20 | the corpus of a whole walk, directory by directory in walk order; `Oneclass.LoadItoDescriptions` is proved to return it, and `Oneclass.CollectedLength` and `Oneclass.OnlyCsvContributes` state its properties |
| `Oneclass.WalkCollectsItsFiles` | Oneclass.py:9-10 | the walk's corpus is the collection of all the files the walk finds, in walk order |
| `Oneclass.OnlyCsvContributes` | Oneclass.py:9-20 | removing every non-`.csv` file from the whole walk leaves the returned corpus unchanged |
| `Oneclass.CollectedLength` | Oneclass.py:9-20 | the returned corpus has as many entries as all usable files of the walk have non-null descriptions |
| `Oneclass.AsText` | Oneclass.py:37 | `astype(str)` on one cell: a missing value becomes "nan", a value its text; used by `Oneclass.LoadTestData` |
| `Oneclass.LoadTestData` | Oneclass.py:35-39 | a read failure or a missing `description` column is an error; otherwise every row is kept, one text per row, the description rendered as text ("nan" for missing) |
| `Oneclass.Label` | Oneclass.py:43 | "ITO" exactly when the prediction is 1, "Non-ITO" for every other value |
| `Oneclass.WithColumn` | Oneclass.py:43 | assigning the label column gives every row its value there; a new column is appended after the original cells, an existing one is overwritten |
| `Oneclass.Where` | Oneclass.py:45-46 | a selection keeps the columns and filters the rows |
| `Oneclass.SavePredictions` | Oneclass.py:42-46 | fails exactly when the number of predictions differs from the number of rows |
| `Oneclass.LabelledRows` | Oneclass.py:43 | each labelled row holds the label of its own prediction and all its original cells |
| `Oneclass.LabelsAligned` | Oneclass.py:43-46 | the groups are the two selections of the labelled rows; a labelled row is selected as ITO exactly when its prediction is 1, as Non-ITO exactly when it is not |
| `Oneclass.PartitionCounts` | Oneclass.py:43-46 | the two groups hold every labelled row exactly once between them; their sizes add up to the test rows; the ITO group has one row per prediction equal to 1 |
| `Oneclass.GroupsDisjoint` | Oneclass.py:45-46 | no row is in both groups |
| `Oneclass.GroupsOrdered` | Oneclass.py:45-46 | each group is a subsequence of the labelled rows in their original order |
| `Oneclass.GroupsFromPredictions` | Oneclass.py:43-46 | each ITO row is the labelled copy of a row predicted 1; each Non-ITO row of a row predicted otherwise |
| `Oneclass.GroupsFromLabels` | Oneclass.py:45-46 | selecting by a label cell that follows the predictions puts in each group only rows whose prediction gave that label |
| `Oneclass.LoadedRowsCanBeSaved` | Oneclass.py:65-69 | one prediction per loaded text is one per test row, so saving cannot fail on length |

## Left out

- TF-IDF vectorizing and the one-class SVM (Oneclass.py:22-32, 38, 66): foreign library code and floating point. The predictions are an input `seq<int>`, and the texts are what is passed to `transform`.
- File system and CSV I/O (`os.walk`, `pd.read_csv`, `to_csv`, `print`): each file is its name plus an abstract read outcome, and the walk is a given sequence of directories. Warnings come back as a sequence, the two output files are the two group frames, and the printed counts are their row counts.
- The script's top-level code (Oneclass.py:54-69) is only composition. `LoadedRowsCanBeSaved` states how its steps fit together.
- The in-place column assignment on `test_df` (Oneclass.py:43): `SavePredictions` returns the labelled frame instead of mutating one.
- Floating-point rounding in `discounted_price` (Routes.py:16, 40, 52, 62, 78): prices and discounts are exact `real`s, with no NaN, infinity or rounding. The NULL-discount error is modelled.
- SQLAlchemy sessions (`add`, `commit`, `refresh`), FastAPI `Depends`, routing and `orm_mode`: framework plumbing. Rows without `ORDER BY` come back in storage order.
- Time and id generation: the clock is not modelled. `now` is a parameter, and the new id is a parameter that must not already be in the table. `Crud.ProductTable.CreateProduct` stamps a new row with `now` as the intended insert time. For the program as written, `now` stands for the import time (`Crud.NewRecordAsWritten`, see Findings). `update_product`'s `now` is the update time in both.
- Routes.CreateProduct: promises 201 for every valid body, because column widths belong to the database engine, which is not part of this model. `id` and `in_stock` are `Integer` columns (Models.py:17, 22), and an `in_stock` above the engine's integer range passes validation but makes the INSERT raise, giving 500 with no row inserted. `price` and `discount` are `Float` columns.
- Routes.UpdateProduct: the same holds for an update: a stock value too wide for the column makes the commit raise, giving 500 with the row unchanged, which the model does not capture.
- Negative `skip` or `limit`: the model takes both as natural numbers, because their effect depends on the database engine, which is not part of this model.
- Pydantic's type coercion, and bodies missing a required field: a `ProductInput` always has the required fields. Validation errors carry one fixed detail string, not pydantic's error list.
- Main.py and _init__.py: application and package wiring with no logic.
- Schema.Validate: on failure it states that every reported error names a constraint the body breaks, not that every broken field is reported.

## Findings

| source | as written | input that shows it | evidently intended | confidence | as-written member | corrected member |
|---|---|---|---|---|---|---|
| Models.py:24-25 | `default=datetime.utcnow().isoformat()` is evaluated once, when the model module is imported, so every inserted row gets that same string as `created_at` and `updated_at` | two products created at different times t1 != t2 while the app runs: both rows get the import time | each row stamped with the time of its own insert (a callable default) | high; not executed | `Crud.NewRecordAsWritten`, shown by `Crud.CreatedAtFixedAtImport` | `Crud.NewRecord` (used by `Crud.ProductTable.CreateProduct`; its timestamps are the insert time, `Crud.CreatedAtFixedAtImport` and `Crud.NewRecordValid`) |

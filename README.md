# siyam-display: a verified model of the catalog's logic

siyam-display is a Next.js catalog of radiator and touch-screen parts kept
in MongoDB. This project models in Dafny the parts of it that hold real
logic, and proves properties of that model:

- **CSV part importer** (`GET /api/config/upload_parts`). It does a
  case-insensitive, trimmed header lookup and maps each row to a part
  payload: the OEM list split on `" / "` and the `details` bag of the
  other columns. It upserts each payload on `siyam_ref`, where the first
  match is updated and otherwise a part is created. Each row yields one
  processed entry or one `Row N: ...` error.
- **Product listing** (`GET /api/products`). It filters by category (whole
  field, any case) and by free text (substring of five fields, any case),
  then sorts by `siyam_ref`.
- **Autocomplete search** (`GET /api/search`). An empty query gives an
  empty answer. The full-text index answers when it can; when it throws, a
  substring search over `siyam_ref`, `model` and `oem` takes over, capped
  at 50 results.
- **Contact form** (`POST /api/contact`) and its collection. It checks
  the required fields and the email pattern, turns falsy optional fields
  into absent ones, and saves one contact.
- **Bulk image upload** (`POST /api/config/upload_images`). It selects the
  image files, looks up their MIME types, builds keys and URLs, and splits
  the settled uploads into `successful` and `failed`.
- **Product card**. It builds the product URL, the automotive title rule
  and the "first three OEMs +N more" line. The image falls back from png to
  jpg to jpeg, then to the placeholder; this is modelled as a class whose
  methods are the `onload`/`onerror` callbacks.
- **OEM list** (`PartNumbers`). It shows five numbers and a Show All /
  Show Less toggle.

Modules:

| module | file |
|---|---|
| `Wrappers` | `wrappers.dfy` |
| `Strings` | `strings.dfy` |
| `Sequences` | `sequences.dfy` |
| `Cloudflare` | `cloudflare.dfy` |
| `PartModel` | `part.dfy` |
| `PartStore` | `part_store.dfy` |
| `CsvImport` | `csv_import.dfy` |
| `Catalog` | `catalog.dfy` |
| `Search` | `search.dfy` |
| `ContactForm` | `contact.dfy` |
| `ProductCard` | `product_card.dfy` |
| `PartNumbers` | `part_numbers.dfy` |
| `ImageUpload` | `image_upload.dfy` |

`Wrappers` and `Strings` hold JavaScript's vocabulary:

- `undefined` as `Option`;
- the values a `catch` block receives, as `Thrown`;
- `trim` and `\s`;
- ASCII `toLowerCase`;
- `split`/`join`;
- `indexOf`;
- digit strings;
- MongoDB's string order.

The two document collections are classes. `PartStore.PartCollection` and
`ContactForm.ContactCollection` each hold a `seq` of documents and an `_id`
counter. The CSV import loop is a method over `PartCollection`. It is
proved equal to `CsvImport.Import`, a function of the rows, and the report
and idempotence lemmas are stated about that function.

Everything outside the program is a parameter: the database connection, a
failing write, the clock, the directory listing, and whether an image URL
loads.

## Model

| member | source | states |
|---|---|---|
| Strings.Trim | app/api/config/upload_parts/route.ts:58-60 | `trim()` gives the empty string exactly when the input is all whitespace; otherwise the result neither starts nor ends with whitespace |
| Strings.TrimIsSlice | app/api/config/upload_parts/route.ts:58-60 | `trim()` removes only whitespace and only at the ends: the result is the input with an all-whitespace prefix and an all-whitespace suffix cut off |
| Strings.TrimIdempotent | app/api/config/upload_parts/route.ts:86 | trimming a trimmed `siyam_ref` changes nothing |
| Strings.Split | app/api/config/upload_parts/route.ts:92 | `split(sep)` yields at least one piece, and no piece contains the separator |
| Strings.JoinSplit | app/api/config/upload_parts/route.ts:92 | joining the pieces of `split(sep)` with `sep` gives the input back |
| Strings.SplitLast | app/api/config/upload_images/route.ts:7 | the piece after the final separator is what `split(".").pop()` returns |
| Strings.LessEqTotal | app/api/products/route.ts:32 | any two `siyam_ref` values are ordered one way or the other |
| Strings.LessEqTransitive | app/api/products/route.ts:32 | the sort order is transitive |
| Strings.LessEqAntisymmetric | app/api/products/route.ts:32 | two keys each at most the other are equal |
| Cloudflare.PublicUrl | lib/cloudflare.ts:43-45 | `getPublicUrlFromKey`: the bucket's public origin and the `product_images/` folder, followed by the key (`PublicUrlInjective` states its property) |
| Cloudflare.PublicUrlInjective | lib/cloudflare.ts:43-45 | different keys give different public URLs |
| Wrappers.Thrown.Rendered | app/api/config/upload_images/route.ts:73 | `String(error)`: an `Error` renders as its name, then ": " and the message when there is one; any other thrown value as its own text |
| PartModel.IdToString | app/api/products/route.ts:38 | `_id.toString()`: lower-case hexadecimal, zero-padded to 24 digits (the next three rows state its properties) |
| PartModel.IdToStringShape | app/api/products/route.ts:38 | an `_id` of the 96-bit range renders as exactly 24 hexadecimal digits |
| PartModel.IdToStringParses | app/api/products/route.ts:38 | reading the `_id` string back as hexadecimal gives the id |
| PartModel.IdToStringInjective | app/api/products/route.ts:36-39 | distinct documents keep distinct `_id` strings in a response |
| PartModel.ToJson | app/api/products/route.ts:36-39 | `{ ...doc, _id: doc._id.toString() }`: every modelled field as stored, the `_id` as its string |
| PartModel.ToJsonInjective | app/api/products/route.ts:36-39 | distinct documents give distinct response entries |
| PartModel.ToJsonAll | app/api/products/route.ts:36-39 | the response lists one entry per document, in order, with the `_id` as a string and the part unchanged |
| PartStore.Assign | app/api/config/upload_parts/route.ts:130-133 | `$set` gives the part exactly the payload's seven fields (`details` replaced, not merged) and keeps the image and Amazon fields |
| PartStore.Fresh | app/api/config/upload_parts/route.ts:140 | a created part carries the payload and has no image or Amazon fields |
| PartStore.AssignOverrides | app/api/config/upload_parts/route.ts:130-133 | a second `$set` overrides the first entirely; setting what a part already holds changes nothing |
| PartStore.FirstWithRef | app/api/config/upload_parts/route.ts:124-126 | the position found holds that `siyam_ref`; no earlier document does; with no position, no document does |
| PartStore.UpdateFirst | app/api/config/upload_parts/route.ts:130-133 | `updateOne` rewrites only the first match and keeps its `_id`; without a match nothing changes |
| PartStore.PartCollection.FindOne | app/api/config/upload_parts/route.ts:124-126 | `findOne` finds a document exactly when one has the `siyam_ref`, and then the first such document |
| PartStore.PartCollection.UpdateOne | app/api/config/upload_parts/route.ts:130-133 | the collection becomes `UpdateFirst` of the old one; ids stay distinct |
| PartStore.PartCollection.Create | app/api/config/upload_parts/route.ts:140 | exactly one document is appended, with an `_id` no earlier document has |
| CsvImport.Keys | app/api/config/upload_parts/route.ts:78-80 | `Object.keys` lists the row's headers in column order |
| CsvImport.FindHeader | app/api/config/upload_parts/route.ts:59-61 | a found header is a column of the row, at or after the column the scan starts from |
| CsvImport.FindHeaderFirst | app/api/config/upload_parts/route.ts:57-61 | `find` returns the first header equal to the key after lower-casing and trimming both, and returns nothing only when no header matches |
| CsvImport.GetValue | app/api/config/upload_parts/route.ts:56-63 | `getValue`: the value under the header `find` returns, `undefined` when it finds none or finds an empty header (`GetValueFirstMatch` states its property) |
| CsvImport.GetValueFirstMatch | app/api/config/upload_parts/route.ts:57-63 | `getValue` yields a value exactly when the first matching header is non-empty, and then that column's value |
| CsvImport.KeepNonBlank | app/api/config/upload_parts/route.ts:93 | only non-blank fragments survive the filter, each one of the input's; with no blank fragment, the input survives whole |
| CsvImport.KeepNonBlankFilters | app/api/config/upload_parts/route.ts:93 | the filter keeps the fragments' order (a subsequence of the input) and holds each non-blank fragment exactly as often as the input does and no blank one, which determines the result |
| CsvImport.SplitOems | app/api/config/upload_parts/route.ts:90-94 | a missing or empty `oems` column gives `[]`; otherwise `oem` is the subsequence of the column's `" / "` pieces holding each non-blank piece as often as the column does and no blank one; no entry contains `" / "` |
| CsvImport.OemsRoundTrip | app/api/config/upload_parts/route.ts:90-94 | with no blank fragment, joining `oem` with `" / "` gives the column back |
| CsvImport.OemsExample | app/api/config/upload_parts/route.ts:90-94 | `"123 / 456 / "` gives `["123", "456"]` |
| CsvImport.RowDetails | app/api/config/upload_parts/route.ts:99-116 | every detail comes from a column whose lower-cased header is not promoted and whose value is not blank, under the header as written and with the value trimmed |
| CsvImport.RowDetailsInOrder | app/api/config/upload_parts/route.ts:109-116 | `details` keeps column order: it is the subsequence of the per-column candidates (header as written, value trimmed) holding each kept candidate as often as the row gives it and no other, which determines it |
| CsvImport.RowDetailsComplete | app/api/config/upload_parts/route.ts:109-116 | every such column does produce its detail |
| CsvImport.ParseRow | app/api/config/upload_parts/route.ts:74-96 | a row fails exactly when its `siyam_ref` lookup is absent or blank, with the "Missing siyam_ref. Available keys: ..." text; otherwise the stored `siyam_ref` is the trimmed value, non-empty and with no whitespace at either end |
| CsvImport.ParsedFields | app/api/config/upload_parts/route.ts:85-121 | `radiator_type`, `make`, `model` and `category` come untrimmed from the `type`, `make`, `application` and `category` columns (empty when absent); `oem` and `details` come from their own rules |
| CsvImport.Upsert | app/api/config/upload_parts/route.ts:124-145 | `findOne`, then `updateOne` with `$set` or `create`, and the processed entry (`UpsertEffect` states its effect) |
| CsvImport.RowStep | app/api/config/upload_parts/route.ts:72-150 | one pass of the loop body: the "Row N" error for a row without `siyam_ref` or a store failure, else the upsert (`RowStepOutcome` states its effect) |
| CsvImport.Import | app/api/config/upload_parts/route.ts:69-151 | the loop over all rows as a function of the rows and the store failures (the lemmas below are stated about it) |
| CsvImport.UpsertEffect | app/api/config/upload_parts/route.ts:124-145 | with a match, the first match carries the payload under the same `_id` with its image fields kept, and the row is "updated"; otherwise one fresh part is appended and the row is "created"; no other part changes |
| CsvImport.RowStepOutcome | app/api/config/upload_parts/route.ts:72-150 | each row adds exactly one processed entry or one error; an error happens exactly when the row has no usable `siyam_ref` or the store fails, reads "Row {i+2}: ...", and leaves the collection as it was |
| CsvImport.ImportCounts | app/api/config/upload_parts/route.ts:69-158 | processed + errors equals the number of rows; without store failures, processed equals the number of rows with a usable `siyam_ref` |
| CsvImport.ImportCarriesLast | app/api/config/upload_parts/route.ts:124-145 | after an import, each imported `siyam_ref` is found on a part carrying the last row's payload for it |
| CsvImport.ImportIdempotent | app/api/config/upload_parts/route.ts:124-160 | importing the same rows again leaves the collection unchanged and reports every valid row as "updated" |
| CsvImport.Report | app/api/config/upload_parts/route.ts:153-160 | the report counts both lists; `errorDetails` is present exactly when there are errors and then lists them; the message states the processed count |
| CsvImport.CollectDetails | app/api/config/upload_parts/route.ts:99-116 | the `forEach` loop builds exactly `RowDetails` of the row |
| CsvImport.MapRow | app/api/config/upload_parts/route.ts:74-121 | the mapping at the top of the loop body equals `ParseRow` |
| CsvImport.ImportRow | app/api/config/upload_parts/route.ts:123-150 | one loop body turns the state into `RowStep` of the old state |
| CsvImport.ImportRows | app/api/config/upload_parts/route.ts:69-151 | the loop leaves collection and report equal to `Import` of the rows |
| CsvImport.HandleImport | app/api/config/upload_parts/route.ts:19-167 | connect failure gives 500; a missing file gives 404 with its path; a failed read gives 500; no rows gives 400; otherwise the collection and report equal `Import`; every failure leaves the collection unchanged |
| Catalog.Select | app/api/products/route.ts:13-32 | `find` keeps each document as often as it is stored when it matches both given filters, and drops it otherwise |
| Catalog.CategoryMatches | app/api/products/route.ts:15-18 | `/^category$/i` under MongoDB's PCRE: the whole `category` field equals the parameter up to letter case, optionally followed by one final line break |
| Catalog.FinalNewlineMatches | app/api/products/route.ts:15-18 | a part whose category was stored as `"PTR\n"` is found by `ptr`; one stored as `"PTR\n\n"` is not |
| Catalog.TextMatches | app/api/products/route.ts:20-30 | `/search/i` on `siyam_ref`, `make`, `model` or `radiator_type`, or on some `oem` element |
| Catalog.Matches | app/api/products/route.ts:13-30 | the query object: each filter applies only when its parameter is given |
| Catalog.SortByRef | app/api/products/route.ts:32 | the result is sorted by `siyam_ref` and is a permutation of the input |
| Catalog.ListProducts | app/api/products/route.ts:5-51 | a fault gives 500 with the error's message or "Failed to fetch products"; otherwise the products are a sorted permutation of the matching documents, with `count` their number |
| Catalog.NoFilterListsAll | app/api/products/route.ts:13-32 | with neither parameter given, every stored part is listed |
| Catalog.ListedIffMatches | app/api/products/route.ts:13-32 | a part is listed exactly when it is stored and matches both given filters |
| Catalog.RefPieceFindsPart | app/api/products/route.ts:20-30 | any piece of a part's `siyam_ref`, in any letter case, finds it |
| Catalog.UnknownCategoryListsNothing | app/api/products/route.ts:15-18 | a literal category that no part has, up to case and one final line break, gives an empty list |
| Catalog.CategoryCaseInsensitive | app/api/products/route.ts:15-18 | letter case in the category parameter makes no difference |
| Search.FallbackFilter | app/api/search/route.ts:79-85 | the fallback keeps exactly the documents matching on `siyam_ref`, `model` or an `oem` element, each as often as it is stored |
| Search.FallbackMatches | app/api/search/route.ts:78-84 | `/query/i` on `siyam_ref` or `model`, or on some `oem` element |
| Search.FallbackFilterInOrder | app/api/search/route.ts:79-85 | the fallback's matches keep the collection's natural order |
| Search.Fallback | app/api/search/route.ts:79-87 | `.limit(50)`: a prefix of the matches, of length min(50, number of matches) |
| Search.FallbackBounds | app/api/search/route.ts:79-86 | at most 50 results, each a stored matching document; with at most 50 matches, all are returned |
| Search.FallbackWithinListing | app/api/search/route.ts:79-85 | whatever the fallback finds, the product listing's text filter finds too |
| Search.SearchParts | app/api/search/route.ts:9-109 | `count` is the number of results; a missing or empty query gives no results; index hits are returned as given; an index failure falls back to `Fallback`; any other failure gives 500 |
| Search.EmptyQueryNoResults | app/api/search/route.ts:14-26 | a missing or empty query answers `[]` whatever the index would do |
| Search.FallbackFindsRef | app/api/search/route.ts:67-96 | when the index throws, a query naming a part's `siyam_ref` in any case returns that part (with at most 50 matches) |
| ContactForm.EmailShapeIsPattern | app/api/contact/route.ts:21-22 | `^[^\s@]+@[^\s@]+\.[^\s@]+$` matches exactly the strings with no whitespace and one `@` not at the start, followed by a `.` that neither follows the `@` directly nor ends the string |
| ContactForm.RefusedExample | app/api/contact/route.ts:21-27 | the pattern refuses "not-an-email" |
| ContactForm.AcceptedExample | app/api/contact/route.ts:21-27 | the pattern accepts "a@b.co" |
| ContactForm.MatchesEmailPattern | app/api/contact/route.ts:21-22 | the language of `/^[^\s@]+@[^\s@]+\.[^\s@]+$/`: three pieces free of whitespace and `@`, joined by `@` and `.` (`EmailShapeIsPattern` states its plain reading) |
| ContactForm.ContactCollection.Save | app/api/contact/route.ts:38 | `save` appends one contact with a fresh `_id` |
| ContactForm.OrUndefined | app/api/contact/route.ts:32-35 | `value \|\| undefined` is absent exactly for a falsy value and is the value otherwise |
| ContactForm.NewContact | app/api/contact/route.ts:29-36 | the saved contact has the name and email as given, an optional field exactly when it was given non-empty, and both times equal |
| ContactForm.Submit | app/api/contact/route.ts:5-64 | missing name or email gives 400 "Name and email are required"; a bad email gives 400 "Invalid email format"; a parse, connect or save failure gives 500; success saves exactly one well-formed contact and echoes it with its id; no failure changes the collection |
| ProductCard.SplitProductPath | components/ProductCard.tsx:22-25 | a path `/products/<c>/<ref>` with no `/` inside `c` or `ref` splits on `/` into `""`, `products`, `c` and `ref` |
| ProductCard.ProductUrlRoundTrip | components/ProductCard.tsx:22-25 | the product link splits back into the lower-cased category and the `siyam_ref` |
| ProductCard.NoRefNoLink | components/ProductCard.tsx:23-25 | the link is `#` exactly when the part has no `siyam_ref` |
| ProductCard.ProductUrl | components/ProductCard.tsx:21-25 | `productUrl` (`ProductUrlRoundTrip` and `NoRefNoLink` state its properties) |
| ProductCard.IsAutomotive | components/ProductCard.tsx:28 | the product's own category contains "automotive" in any letter case |
| ProductCard.Title | components/ProductCard.tsx:31-33 | a part with a `siyam_ref` always has a non-empty title |
| ProductCard.Subtitle | components/ProductCard.tsx:36 | the model for an automotive part, else the `siyam_ref` (`TitleNamesPart` relates it to the title) |
| ProductCard.TitleNamesPart | components/ProductCard.tsx:28-36 | the card shows the `siyam_ref` as title or subtitle, and the model as the other one when there is a model |
| ProductCard.OemSummary | components/ProductCard.tsx:120-124 | no OEM line for an empty list; otherwise the first min(3, n) numbers, in order, and a "+N more" count that is positive exactly when n > 3 |
| ProductCard.OemText | components/ProductCard.tsx:120-124 | "OEM: " and the listed numbers joined with ", ", then " +N more" when N > 0 (`OemTextOfSummary` states the line for a given list) |
| ProductCard.OemTextOfSummary | components/ProductCard.tsx:120-124 | the card's line for a non-empty list is "OEM: " and the whole list when it has at most three numbers; otherwise "OEM: " and the first three, ending with " +N more" where N counts the rest |
| ProductCard.CandidateUrl | components/ProductCard.tsx:55-56 | the URL tried for `<siyam_ref>.<ext>` |
| ProductCard.CandidateUrlsDistinct | components/ProductCard.tsx:14-56 | the three URLs tried for a part are distinct, and none is the placeholder |
| ProductCard.SettledImage | components/ProductCard.tsx:49-79 | the image a card ends on is the placeholder or a URL that loads; it is the first loadable URL in png, jpg, jpeg order when there is one, and the placeholder when there is none or no `siyam_ref` |
| ProductCard.CardImage.constructor | components/ProductCard.tsx:17-18 | the card starts on the placeholder at the first extension, with a load pending only for a part with a `siyam_ref` |
| ProductCard.CardImage.OnLoad | components/ProductCard.tsx:59-63 | a load shows the current extension's URL |
| ProductCard.CardImage.OnError | components/ProductCard.tsx:65-74 | an error moves to the next extension, or stops on the placeholder after the last |
| ProductCard.CardImage.ChangeRef | components/ProductCard.tsx:38-47 | a `siyam_ref` different from the one the card last saw resets it to the placeholder and the first extension, with a load pending only for a non-empty reference |
| ProductCard.CardImage.Settle | components/ProductCard.tsx:49-79 | the card settles on the first loadable URL in png, jpg, jpeg order, else the placeholder; always the placeholder without a `siyam_ref` |
| PartNumbers.Displayed | components/PartNumbers.tsx:11-13 | the displayed numbers are a prefix of the list: all of it when expanded, the first min(5, n) when collapsed |
| PartNumbers.Render | components/PartNumbers.tsx:12-34 | "None" exactly for an empty list; the button exists exactly when n > 5 and reads Show Less or Show All with the hidden count |
| PartNumbers.CollapsedCountsHidden | components/PartNumbers.tsx:11-13 | collapsed, the list hides exactly the numbers the button counts, and expanding shows them in order |
| PartNumbers.ToggleLabels | components/PartNumbers.tsx:28-34 | the labels are "Show All ({n-5} more)" and "Show Less", and a click switches between them |
| PartNumbers.ShortListUnaffected | components/PartNumbers.tsx:12-13 | five numbers or fewer look the same in either state |
| ImageUpload.MimeTableCoversExtensions | app/api/config/upload_images/route.ts:8-15 | the MIME table has an entry for exactly the selectable extensions |
| ImageUpload.Extension | app/api/config/upload_images/route.ts:7 | `fileName.toLowerCase().split(".").pop()` |
| ImageUpload.ExtensionAfterLastDot | app/api/config/upload_images/route.ts:7 | the extension holds no dot and is the whole lower-cased name or follows its last dot |
| ImageUpload.MimeType | app/api/config/upload_images/route.ts:6-17 | the default `application/octet-stream` is given exactly when the extension is not one of the selectable ones |
| ImageUpload.IsImageFile | app/api/config/upload_images/route.ts:25-28 | the name ends in `.jpg`, `.jpeg`, `.png`, `.gif`, `.webp` or `.svg` in any letter case and does not start with `.` |
| ImageUpload.SelectImages | app/api/config/upload_images/route.ts:25-28 | the image files of the listing are selected: a name is selected exactly when it is listed, has an image extension in any case and is not a dotfile (order and counts stated by the next two rows) |
| ImageUpload.SelectImagesInOrder | app/api/config/upload_images/route.ts:25-28 | the selection keeps the listing's order, which decides which fault goes with which file |
| ImageUpload.SelectImagesCounts | app/api/config/upload_images/route.ts:25-28 | each image file is selected as often as it is listed, and no other name; with the order this determines the selection and the Y of "Uploaded X of Y images" |
| ImageUpload.SelectedHasImageMime | app/api/config/upload_images/route.ts:6-17 | a selected file never gets `application/octet-stream`; for every listed extension the name ends with, it gets that extension's type |
| ImageUpload.SelectionExample | app/api/config/upload_images/route.ts:25-28 | `a.png`, `b.jpg` and `.DS_Store` select `a.png` and `b.jpg` |
| ImageUpload.UploadKey | app/api/config/upload_images/route.ts:43 | `product_images/<name>` |
| ImageUpload.UploadKeyInjective | app/api/config/upload_images/route.ts:43-44 | distinct file names are stored under distinct keys, so no upload of a batch overwrites another |
| ImageUpload.ImageUrl | app/api/config/upload_images/route.ts:43-45 | an uploaded file's URL is the bucket origin followed by its key `product_images/<name>` |
| ImageUpload.ImageUrlAsWrittenDoublesFolder | app/api/config/upload_images/route.ts:45 | the URL the handler reports has the folder twice and is not the uploaded object's URL |
| ImageUpload.ImageUrlMatchesCard | components/ProductCard.tsx:56 | an uploaded `<siyam_ref>.<ext>` is found at the URL the product card tries for it |
| ImageUpload.Outcome | app/api/config/upload_images/route.ts:38-52 | a file's result is fulfilled exactly when neither reading nor storing it threw, and is then its name and key; a rejection carries what was thrown |
| ImageUpload.Outcomes | app/api/config/upload_images/route.ts:37-53 | one settled result per selected file, in order, each the file's `Outcome`, whose fulfilled value reports the doubled-folder `image_url` the code builds |
| ImageUpload.Puts | app/api/config/upload_images/route.ts:40-44 | at most one upload request per file |
| ImageUpload.PutsOfReadFiles | app/api/config/upload_images/route.ts:40-44 | every readable file is uploaded under `product_images/<name>` with its MIME type, and nothing else is uploaded |
| ImageUpload.UploadAll | app/api/config/upload_images/route.ts:37-53 | the per-file loop yields `Outcomes` and makes exactly the requests `Puts` lists |
| ImageUpload.Successful | app/api/config/upload_images/route.ts:55-58 | `successful` holds exactly the fulfilled values |
| ImageUpload.SuccessfulInOrder | app/api/config/upload_images/route.ts:55-58 | `successful` keeps the results' order |
| ImageUpload.SuccessfulCounts | app/api/config/upload_images/route.ts:55-58 | `successful` holds each value as often as the results hold it fulfilled; with the order, this determines it |
| ImageUpload.Failed | app/api/config/upload_images/route.ts:60-63 | `failed` holds the truthy rejection reasons and nothing else, and is no longer than the number of rejections (order and counts stated by the next two rows) |
| ImageUpload.FailedInOrder | app/api/config/upload_images/route.ts:60-63 | `failed` keeps the results' order |
| ImageUpload.FailedCounts | app/api/config/upload_images/route.ts:60-63 | `failed` holds each truthy reason as often as the results hold it rejected, and no falsy one; with the order this determines it |
| ImageUpload.SuccessfulAreUploads | app/api/config/upload_images/route.ts:37-58 | every success is a selected file with its key `product_images/<name>` and the `image_url` the code reports (`ImageUrlAsWritten`), and every file that failed in neither step is a success |
| ImageUpload.SettledPartition | app/api/config/upload_images/route.ts:55-63 | successes plus rejections equal the number of selected files |
| ImageUpload.HandleUpload | app/api/config/upload_images/route.ts:19-77 | a failed directory read gives 500 with `String(error)`; no image files gives 404 with no uploads; otherwise "Uploaded X of Y images" with `successful`, each success reported with the code's `image_url`, and `failed` only when non-empty |

## Left out

- Catalog.ListProducts: requires a given category or search to contain no regular-expression metacharacters. The handler passes them unescaped to `new RegExp`. Full regex semantics, and the `SyntaxError` that gives 500 on a malformed pattern, are not modelled.
- Search.SearchParts: requires the same of a query that reaches the fallback, for the same reason.
- Search.SearchParts: the full-text index (`$search` with fuzzy autocomplete) is an oracle. Its hits are a parameter and its ranking is not modelled.
- ProductCard.CardImage.ChangeRef: the reset happens at once. The component defers it with `setTimeout(…, 0)` (components/ProductCard.tsx:43-46). In the effect run that sees the new reference, the first load therefore starts at the stale `currentExtensionIndex` (line 79), and the old image stays shown until the timeout fires. A load that lands before the timeout is overwritten by the placeholder; when the index was already 0 the reset does not rerun the effect, so the card stays on the placeholder. The cleanup `isMounted = false` (lines 81-83) drops the old reference's callbacks. None of this interleaving is modelled.
- ProductCard.CardImage.Settle: starts from a freshly reset card, which is the only state in which the effect begins a sequence of loads.
- Case-insensitive matching (`toLowerCase`, the `i` regex flag) folds ASCII letters only.
- `Object.keys` puts integer-like headers first. The model keeps headers in column order.
- CSV tokenisation (`csv-parser`) is left out. Rows are inputs. Field values are strings; non-string JSON values in request bodies are not modelled.
- The file system is left out. `existsSync`, the read stream, `readdir` and `readFile` become the inputs `CsvSource`, `Listing` and per-file faults.
- The object-store call `uploadData` is modelled as the request it sends (key and content type) plus an outcome. Signed URLs are not part of this model.
- Database connections and write failures are parameters. An `_id` is a counter-allocated number rendered as 24 hex digits; MongoDB's timestamp and random parts are not modelled.
- `Promise.allSettled` runs the uploads concurrently. They are independent, so the model takes them in order.
- A rejection reason in `failed` is kept as the thrown value; how `NextResponse.json` serialises an `Error` is not modelled.
- MongoDB leaves the order of equal `siyam_ref` keys open in `.sort`. The model fixes one order.
- `getMimeType` indexes a plain object, so an extension such as `constructor` would find an inherited property. Such names are never selected, so the model's table has only the listed entries.
- The contact's `createdAt`/`updatedAt` come from a `now` parameter.
- PartModel.ToJson: the `...product` spread of a `.lean()` document also passes through the version key `__v`, which `Part.create` sets (app/api/config/upload_parts/route.ts:140), and the `_id` of every `details` subdocument (models/part.ts:28). Neither field is part of `Part` or `Detail`, so neither is in the modelled response.
- CsvImport.ImportIdempotent: covers the modelled fields only. Mongoose gives every `details` subdocument a new `_id` on each `$set` (models/part.ts:28), so a re-import does change those ids.
- Catalog.ListedIffMatches, Catalog.RefPieceFindsPart, Catalog.UnknownCategoryListsNothing and Catalog.CategoryCaseInsensitive hold for literal parameters, the same restriction as `ListProducts`.
- Logging and HTTP envelope fields with a constant value (`success: true/false`) are left out.
- An unparsable contact body reaches the handler's `catch` and answers 500 (app/api/contact/route.ts:55-63); no field is trimmed.

## Findings

| source | as written | input that shows it | evidently intended | confidence | as-written member | corrected member |
|---|---|---|---|---|---|---|
| app/api/config/upload_images/route.ts:43-45 | `image_url` is `getPublicUrlFromKey(fileKey)`, where `fileKey` already starts with `product_images/` and `getPublicUrlFromKey` (lib/cloudflare.ts:43-45) adds `product_images/` again | file `a.png` is stored under key `product_images/a.png` but reported at `https://pub-705ad826bed340ee9907e8e62361a06e.r2.dev/product_images/product_images/a.png` | the stored object's URL, `…r2.dev/product_images/a.png`, which is also what the product card loads | medium, not executed | ImageUpload.ImageUrlAsWrittenDoublesFolder | ImageUpload.ImageUrl |

The upload handler in the model reports `ImageUpload.ImageUrlAsWritten`, as the code does (`ImageUpload.Outcome`, `ImageUpload.SuccessfulAreUploads`, `ImageUpload.HandleUpload`). `ImageUpload.ImageUrl` is the corrected URL, and `ImageUpload.ImageUrlMatchesCard` proves it is the one `ProductCard.CandidateUrl` tries.

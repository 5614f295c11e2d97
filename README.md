# QR-code archive catalog — a verified model

This project models the catalog logic of an archive-digitisation system. The system files
scanned PDF documents under categories and subcategories, gives every category, subcategory
and document a printed QR code, and resolves a scanned code back to what it names. The model
covers five parts of it, with the MySQL database replaced by in-memory tables:

- **The identifier allocator** (`routes/utils.py`). It gets or creates categories and
  subcategories by name and keeps a sequence counter per (subcategory, year). It builds the
  document code `{category}-{subcategory}-{year}-{nnnn}`, the archive path and the QR payload.
  `create_document_simple` chains these steps.
  Modules: `Allocation` (as functions), `Utils` (as methods on the catalog).
- **The archive reconciler** (`archive_scanner.py`). It makes three passes over the
  `Archives/` tree: category folders, subcategory folders, then `.pdf` files. Each pass
  registers what is missing and skips what is already recorded. It also reads a year out of
  a path and files root-level PDFs under GENERAL/DIVERS.
  Modules: `Reconciliation` and `ReconciliationFacts` (as functions and lemmas),
  `Scanner.ArchiveScanner` (as a class).
- **The identifier resolver** (`routes/qr.py`). It dispatches on the `CAT-` and `SUBCAT-`
  prefixes and runs read-only lookups: a document, or a subcategory with its document list,
  or a category with its subcategory list. Module: `Resolver`.
- **The admin handlers** (`routes/admin.py`). Category, subcategory and document creation
  validate the request, normalise the name, refuse duplicates, then insert the entity and its
  QR row. The two listings are ordered by name.
  Modules: `AdminRules` (as functions), `Admin` (as methods), `Listing` (the listings).
- **The user manager** (`user_manager.py`). A small state machine over the users table:
  add, update password or role, activate or deactivate, soft or hard delete, look up, list,
  statistics, and restore from a parsed backup.
  Modules: `Accounts` (as functions), `Users.UserManager` (as a class).

The database is `Store.Catalog`: one sequence per table, with 1-based positions as ids.
`Schema` holds its row types, its lookups and its inserts. The UNIQUE keys of `init_db.py`
are the invariant `Schema.Consistent`. An insert that would break a key fails and writes
nothing, as MySQL refuses it. Every imperative method is proved against a function of the
tables before the call: its new state and its result are exactly that function's. Lemmas then
state what those functions promise. `Seqs`, `Text` and `Wrappers` hold the shared sequence,
string and option helpers.

## Model

| member | source | states |
|---|---|---|
| Schema.CategoryNamed | routes/utils.py:14-16 | the first category with exactly that name, or None exactly when no category has it |
| Schema.SubcategoryNamed | routes/utils.py:28-30 | the first subcategory with that (category id, name) pair, or None exactly when there is none |
| Schema.CounterIndex | routes/utils.py:42 | the position of the counter row for (subcategory, year), or None exactly when there is none |
| Schema.DocumentCoded | archive_scanner.py:182 | the document row carrying a code, or None exactly when no row has it |
| Schema.DocumentFiled | archive_scanner.py:162-165 | the first document with that filename and file path, or None exactly when there is none |
| Schema.QrIdentified | archive_scanner.py:287 | the qr row with that identifier, or None exactly when there is none |
| Schema.AddCategory | routes/utils.py:19-20 | fails exactly when the name is taken; otherwise appends the row and returns its new id; the UNIQUE keys keep holding |
| Schema.AddSubcategory | routes/utils.py:33-34 | fails exactly when (category, name) is taken; otherwise appends with the next id; keys keep holding |
| Schema.AddCounter | routes/utils.py:52-54 | fails exactly when (subcategory, year) has a counter; otherwise appends it; keys keep holding |
| Schema.SetCounter | routes/utils.py:47-48 | the matching counter rows take the value, all other rows and tables are unchanged; keys keep holding |
| Schema.AddDocument | routes/utils.py:78-85 | fails exactly when the document code is taken; otherwise appends with the next id; keys keep holding |
| Schema.AddQr | routes/utils.py:92-96 | fails exactly when the qr identifier is taken; otherwise appends with the next id; keys keep holding |
| Schema.CategoryPersists | routes/utils.py:14-20 | once a category name is found, later writes never change the id it resolves to |
| Schema.SubcategoryPersists | routes/utils.py:28-34 | once a (category, name) pair is found, later writes keep its id |
| Schema.CounterPersists | routes/utils.py:42-54 | once a (subcategory, year) counter exists, later writes keep it at the same row |
| Schema.DocumentPersists | archive_scanner.py:162-174 | once a file is recorded, later writes keep finding the same row |
| Schema.QrPersists | archive_scanner.py:286-290 | once a qr identifier is present, later writes keep it at the same row |
| Store.Catalog.constructor | init_db.py:80-147 | a fresh database: every table empty and the keys hold |
| Store.Catalog.InsertCategory | routes/utils.py:19-20 | the new state and id are `Schema.AddCategory` of the old state; the keys are preserved |
| Store.Catalog.InsertSubcategory | routes/utils.py:33-34 | the new state and id are `Schema.AddSubcategory` of the old state; the keys are preserved |
| Store.Catalog.InsertCounter | routes/utils.py:52-53 | the new state is `Schema.AddCounter` of the old; the keys are preserved |
| Store.Catalog.UpdateCounter | routes/utils.py:47-48 | the UPDATE rewrites the matching counter rows in place: the new state is `Schema.SetCounter` of the old |
| Store.Catalog.InsertDocument | routes/utils.py:82-85 | the new state and id are `Schema.AddDocument` of the old state |
| Store.Catalog.InsertQr | routes/utils.py:96 | the new state and id are `Schema.AddQr` of the old state |
| Allocation.GetOrCreateCategory | routes/utils.py:11-20 | an existing name returns its id with nothing written; otherwise exactly one category is appended; afterwards the name resolves to the returned id |
| Allocation.GetOrCreateSubcategory | routes/utils.py:25-34 | the same, keyed by the (category id, name) pair |
| Allocation.GetOrCreateCategoryIdempotent | routes/utils.py:11-20 | a second call with the same name returns the same id and writes nothing |
| Allocation.GetOrCreateSubcategoryIdempotent | routes/utils.py:25-34 | a second call with the same pair returns the same id and writes nothing |
| Allocation.SubcategoryKeyedByCategory | routes/utils.py:25-34 | the same name under two categories gives two distinct rows, each under its own category |
| Allocation.NextSequence | routes/utils.py:39-54 | returns the counter plus one and stores it; a missing counter is created at 1; no other counter changes |
| Allocation.SequentialNumbers | routes/utils.py:42-53 | n calls in a row for one (subcategory, year) return c+1 .. c+n with no gap (1..n on a fresh counter), and the counter ends at c+n |
| Allocation.SequentialNumbersKeepOthers | routes/utils.py:42-53 | those calls leave the counter of every other (subcategory, year) unchanged |
| Allocation.DocumentCodeShape | routes/utils.py:72 | the code starts with the names exactly as passed and ends with at least four digits that read back as the sequence number |
| Allocation.GeneralCode | archive_scanner.py:242 | root files' codes are "GENERAL-DIVERS-2025-" followed by the padded number |
| Allocation.DocumentCodeInjective | routes/utils.py:72 | within one category, subcategory and year, distinct numbers give distinct codes |
| Allocation.DocumentCodeAmbiguous | routes/utils.py:72 | names are not escaped: category "A-B" with subcategory "C" and category "A" with subcategory "B-C" get the same code |
| Allocation.Place | routes/utils.py:62-69 | after steps 1 to 3 the category and subcategory exist, the number is the stored counter, and no document or qr row was written |
| Allocation.RecordDocument | routes/utils.py:77-103 | fails exactly when the code is already a document code or a qr identifier; on success adds the document row and a DOCUMENT qr row whose identifier is the code, and returns the one-element list |
| Allocation.CreateDocumentSimpleSuccess | routes/utils.py:59-103 | a success returns one entry: identifier = code, payload = base + "/qr/" + code; code = "{category}-{subcategory}-{year}-{counter:04d}" with the counter one above its old value; one document row with path "Archives/{c}/{s}/{y}/{file}" and one DOCUMENT qr row are added |
| Allocation.CreateDocumentSimpleFailure | routes/utils.py:61-107 | None exactly when the allocated code is taken; the category, subcategory, consumed number and any document row written before the failure stay |
| Allocation.CreatedRowJoins | routes/utils.py:77-96 | on success the appended qr row is a DOCUMENT row carrying the returned identifier, and its document joins up to a subcategory and a category |
| Utils.FindOrInsertCategory | routes/utils.py:11-20 | the method leaves the catalog and returns the id as `Allocation.GetOrCreateCategory` computes |
| Utils.FindOrInsertSubcategory | routes/utils.py:25-34 | the same for `Allocation.GetOrCreateSubcategory` |
| Utils.GetNextSequence | routes/utils.py:39-54 | reads the counter, then updates it in place or creates it at 1, exactly as `Allocation.NextSequence` |
| Utils.CreateDocument | routes/utils.py:59-107 | runs the eight steps on the catalog, ending in the state and result of `Allocation.CreateDocumentSimple` |
| Text.NatToString | routes/utils.py:72 | decimal rendering of a natural number: non-empty digits that read back as the number |
| Text.IntToStringSign | routes/utils.py:72 | a rendered integer starts with "-" exactly when it is negative |
| Text.IntToStringInjective | routes/utils.py:72 | distinct years render differently |
| Text.Pad4Digits | routes/utils.py:72 | `04d` of a non-negative number is at least four digits that read back as the number |
| Text.Pad4Injective | routes/utils.py:72 | distinct numbers render differently under `04d` |
| Text.Pad4Width | routes/utils.py:72 | below 10000, `04d` gives exactly four characters |
| Text.StripSlice | routes/admin.py:109 | `strip()` returns the slice between the leading and trailing whitespace runs, with no whitespace at its own ends |
| Text.StripStable | routes/admin.py:109 | text without whitespace at its ends is left alone by `strip()` |
| Text.UpperResult | routes/admin.py:109 | `upper()` never shortens a text, leaves no character a second `upper()` would change, and is the identity on a text with none; the character mapping is Python's for U+0000..U+017F, ß to "SS" included |
| Text.UpperExamples | routes/admin.py:109 | "école" becomes "ÉCOLE", "straße" becomes "STRASSE" and "cœur" becomes "CŒUR", as in Python |
| Text.UpperAppend | routes/admin.py:109 | `upper()` of a concatenation is the concatenation of the two `upper()`s |
| Text.NormalizeAsWritten | routes/admin.py:109 | `s.upper().strip()`, as the handlers write it, equals `s.strip().upper()`, the form the model computes |
| Text.NormalizeIdempotent | routes/admin.py:109 | normalising with `upper().strip()` twice is normalising once |
| Text.ReplaceAbsent | archive_scanner.py:191 | text without ".pdf" is left unchanged by `replace` |
| Text.LexLeTotal | routes/admin.py:71 | the name order used by ORDER BY is total |
| Reconciliation.ExtractYear | archive_scanner.py:395-405 | the first path part made of decimal digits of any script, read as `int()` reads them, whose value is in 2020..2030, else 2025; the result always lies in 2020..2030 |
| Reconciliation.ExtractYearExamples | archive_scanner.py:395-405 | "2023" and the same year in Arabic-Indic digits both give 2023; "2019" is passed over for 2025 |
| Text.DecimalZeroFinds | archive_scanner.py:401 | every character of the 68 ten-digit runs of Unicode 15.0's decimal digits (category Nd) is a digit, valued from its run's zero |
| Text.AsciiDecimalText | archive_scanner.py:401-402 | on ASCII digits the any-script reading of `int()` is the usual decimal value |
| Text.ArabicIndicYear | archive_scanner.py:401-402 | "٢٠٢٣" is decimal text worth 2023 |
| Reconciliation.EnsureQr | archive_scanner.py:278-359 | an identifier already present writes nothing; otherwise the row is appended; afterwards the identifier is present |
| Reconciliation.PdfFilesHere | archive_scanner.py:142-143 | the files `rglob('*.pdf')` keeps in one directory: only names ending in ".pdf", tagged with their directory |
| Reconciliation.RootPdfFiles | archive_scanner.py:129-130 | the root files the scan registers: every one has suffix ".pdf" in any letter case |
| Reconciliation.AddNewDocument | archive_scanner.py:177-208 | takes the next number, inserts the document with its code and, on success, its DOCUMENT qr row; categories and subcategories are untouched |
| Reconciliation.StoreDocument | archive_scanner.py:180-199 | fails, writing nothing, exactly when the code is taken; otherwise appends the document and ensures its qr row |
| Reconciliation.RegisterFile | archive_scanner.py:155-212 | a reported file is recorded under its name and path afterwards; categories and subcategories are unchanged |
| Reconciliation.RegisterRootFile | archive_scanner.py:214-276 | a reported root file is recorded under its name and path afterwards; the catalog only grows |
| Reconciliation.CategoryPass | archive_scanner.py:64-85 | the category pass only grows the catalog |
| Reconciliation.SubcategoryPass | archive_scanner.py:87-116 | the subcategory pass only grows the catalog |
| Reconciliation.SubcategoryFiles | archive_scanner.py:138-153 | every file job of a subcategory belongs to that subcategory |
| Reconciliation.RegisterJob | archive_scanner.py:147-149 | a reported job is recorded afterwards; an already recorded job is reported as existing |
| Reconciliation.FilePass | archive_scanner.py:118-136 | the file pass reports at most one info per file |
| Reconciliation.FilePassGrows | archive_scanner.py:118-136 | the file pass only grows the catalog |
| Reconciliation.FileStep | archive_scanner.py:149-151 | one file adds at most one info: a failed registration adds none |
| Reconciliation.CountStatus | archive_scanner.py:48-49 | the count of infos with a status; it is the whole list exactly when every info has that status |
| Reconciliation.Scan | archive_scanner.py:29-62 | a missing root returns False with nothing written; otherwise the three passes run and new + existing = processed |
| Reconciliation.StatusCountsAddUp | archive_scanner.py:48-49 | every reported file is counted once, as new or as existing |
| ReconciliationFacts.RegisterFileExisting | archive_scanner.py:162-174 | a file recorded under the same name and path is reported existing with that row's id and code; nothing is written and no number is consumed |
| ReconciliationFacts.RegisterFileNew | archive_scanner.py:176-208 | a new file takes the next number; it fails only when that code is taken; on success it is the one document added, with code "{c}-{s}-{y}-{n:04d}", title and description, and status new |
| ReconciliationFacts.RegisterRootFileNew | archive_scanner.py:214-272 | a new root file is filed under GENERAL/DIVERS with year 2025 and a code starting "GENERAL-DIVERS-2025-" |
| ReconciliationFacts.CategoryPassSettles | archive_scanner.py:64-85 | after the category pass every category folder has its category row and CATEGORY qr row |
| ReconciliationFacts.CategoryPassNoop | archive_scanner.py:361-368 | over settled categories the category pass writes nothing |
| ReconciliationFacts.SubcategoryPassSettles | archive_scanner.py:87-116 | after the subcategory pass every subfolder has its row and SUBCATEGORY qr row |
| ReconciliationFacts.SubcategoryPassNoop | archive_scanner.py:370-378 | over settled subcategories the subcategory pass writes nothing |
| ReconciliationFacts.FilePassSettles | archive_scanner.py:118-153 | when no registration failed, every visited file ends up recorded |
| ReconciliationFacts.FilePassNoop | archive_scanner.py:162-174 | over recorded files the file pass writes nothing and reports every file as existing |
| ReconciliationFacts.ScanIdempotent | archive_scanner.py:29-62 | when the first scan registered every file, a rescan of the same tree writes nothing (no category, subcategory, counter bump, document or qr row) and reports every file as existing and none as new |
| Scanner.ArchiveScanner.constructor | archive_scanner.py:25-27 | the scanner holds the catalog, the archives path and the base URL |
| Scanner.ArchiveScanner.ScanAndRegisterAll | archive_scanner.py:29-62 | ends in the state and summary of `Reconciliation.Scan`; keys preserved |
| Scanner.ArchiveScanner.ScanCategories | archive_scanner.py:64-85 | the loop over root entries ends in the state and job list of `Reconciliation.CategoryPass` |
| Scanner.ArchiveScanner.ScanSubcategories | archive_scanner.py:87-116 | the nested loops end in the state and job list of `Reconciliation.SubcategoryPass` |
| Scanner.ArchiveScanner.ScanFiles | archive_scanner.py:118-136 | the loops end in the state and infos of `Reconciliation.FilePass` over subcategory then root files |
| Scanner.ArchiveScanner.ScanFilesInDirectory | archive_scanner.py:138-153 | the loop ends in the state and infos of the file pass over one subcategory's files |
| Scanner.ArchiveScanner.RegisterFile | archive_scanner.py:155-212 | ends in the state and result of `Reconciliation.RegisterFile` |
| Scanner.ArchiveScanner.RegisterRootFile | archive_scanner.py:214-276 | ends in the state and result of `Reconciliation.RegisterRootFile` |
| Scanner.ArchiveScanner.CreateCategoryQr | archive_scanner.py:278-304 | inserts the "CAT-{c}" row unless the identifier exists (`Reconciliation.EnsureQr`) |
| Scanner.ArchiveScanner.CreateSubcategoryQr | archive_scanner.py:306-332 | inserts the "SUBCAT-{c}-{s}" row unless the identifier exists |
| Scanner.ArchiveScanner.CreateDocumentQr | archive_scanner.py:334-359 | inserts the DOCUMENT row named by the code unless the identifier exists |
| Scanner.ArchiveScanner.GetOrCreateCategory | archive_scanner.py:361-368 | get-or-create with description "Catégorie {name}" on a new row |
| Scanner.ArchiveScanner.GetOrCreateSubcategory | archive_scanner.py:370-378 | get-or-create with description "Sous-catégorie {name}" on a new row |
| Scanner.ArchiveScanner.GetNextSequence | archive_scanner.py:380-393 | the counter step of `Allocation.NextSequence` |
| Listing.QrIdentifiersOf | routes/admin.py:62-63 | exactly the identifiers of the qr rows of that kind owned by that row |
| Listing.ListSubcategories | routes/admin.py:245-276 | every row describes a subcategory of that category truthfully (name, description, document count, an identifier of its qr rows or none), and every subcategory of the category is listed |
| Listing.ListSubcategoriesSorted | routes/admin.py:249-262 | the subcategory list is ordered by name |
| Listing.ListCategories | routes/admin.py:53-93 | every row describes a category truthfully (name, description, subcategory and document counts, identifier), and every category is listed |
| Listing.ListCategoriesSorted | routes/admin.py:59-73 | the category list is ordered by name |
| Resolver.Selected | routes/qr.py:46-63 | the qr row a lookup reads, or None exactly when no row of that kind with that identifier joins up |
| Resolver.SelectedUnique | routes/qr.py:46-63 | under the UNIQUE identifier, a qualifying row is the one read |
| Resolver.SelectedOtherKind | routes/qr.py:46-63 | under the UNIQUE identifier, a lookup for another kind than the row's finds nothing |
| Resolver.ResolveDocument | routes/qr.py:43-81 | matches the identifier exactly against DOCUMENT rows only; None exactly when none joins up; otherwise the view of such a row's document, subcategory and category |
| Resolver.DocumentEntries | routes/qr.py:110-124 | the document list: exactly the documents of a same-named subcategory of the category joined with their DOCUMENT qr rows, newest first |
| Resolver.ResolveSubcategory | routes/qr.py:83-138 | None exactly when no SUBCATEGORY row with that identifier joins up; otherwise that row's view |
| Resolver.SubcategoryViewContents | routes/qr.py:95-124 | the count is the number of documents of the subcategory itself; the list holds, newest first, exactly the listed documents |
| Resolver.ResolveCategory | routes/qr.py:140-198 | None exactly when no CATEGORY row with that identifier joins up; otherwise that row's view |
| Resolver.CategoryViewContents | routes/qr.py:151-184 | the counts are the distinct subcategories and documents of the category; the subcategory list is ordered by name, complete, and each entry has its own count and identifier |
| Resolver.PrefixesExclusive | routes/qr.py:14-29 | no identifier starts with both "CAT-" and "SUBCAT-" |
| Resolver.ResolveAsWrittenDispatch | routes/qr.py:14-34 | exactly one lookup runs, chosen by the prefix, and the answer is not-found exactly when that lookup finds nothing |
| Resolver.PrefixedDocumentUnreachable | routes/qr.py:14-18 | an identifier starting with "CAT-" or "SUBCAT-" never yields a document |
| Resolver.ResolveAgreesWhenFound | routes/qr.py:14-34 | wherever the handler as written finds something, the corrected resolver finds the same |
| Resolver.ResolveFindsDocument | routes/qr.py:14-81 | in the corrected resolver every DOCUMENT row that joins up resolves to its document, whatever its identifier starts with |
| Resolver.ResolveFindsCategory | routes/qr.py:26-29 | a CATEGORY row "CAT-..." that joins up resolves to its category, as written and corrected |
| Resolver.ResolveFindsSubcategory | routes/qr.py:20-23 | a SUBCATEGORY row "SUBCAT-..." that joins up resolves to its subcategory, as written and corrected |
| Resolver.CatDocumentUnreachable | routes/qr.py:14-29 | a DOCUMENT row whose identifier starts with "CAT-" is not-found as written but is found by the corrected resolver |
| Resolver.CreatedCatDocumentUnreachable | routes/utils.py:72 | a document created under category "CAT" cannot be resolved by the handler as written, and is by the corrected one |
| Resolver.SubcategoryRowResolves | routes/qr.py:83-138 | a SUBCATEGORY row "SUBCAT-{c}-{s}" of subcategory s in category c resolves to them, with its folder |
| AdminRules.NewCategory | routes/admin.py:97-158 | the catalog's keys keep holding and every error is a 400 or a 500 |
| AdminRules.NewCategoryRejects | routes/admin.py:103-118 | a 400 changes nothing and comes exactly when the name is missing or its normalised form is taken |
| AdminRules.NewCategoryInserts | routes/admin.py:109-151 | past validation exactly one category named by `upper().strip()` of the name is added, described by the request or "Catégorie {name}"; on success exactly one CATEGORY qr row "CAT-{name}" with payload "{base}/qr/CAT-{name}" and folder "Archives/{name}" |
| AdminRules.NewCategoryTwice | routes/admin.py:109-118 | a second creation of the same name, in any case or with blanks around it, is refused and changes nothing |
| AdminRules.NewCategoryResolves | routes/admin.py:121-151 | a created category's identifier resolves to it, as written and corrected |
| AdminRules.NewSubcategory | routes/admin.py:162-243 | the catalog's keys keep holding and every error is a 400, 404 or 500 |
| AdminRules.NewSubcategoryRejects | routes/admin.py:168-199 | refusals in order: missing category_id, missing name (400), unknown category (404), name taken in the category (400); none changes anything |
| AdminRules.SubcategoryChecked | routes/admin.py:180-235 | the checks on the normalised name, then the inserts: the keys keep holding and every error is a 400, 404 or 500 |
| AdminRules.SubcategoryRowsInsert | routes/admin.py:201-235 | when the qr identifier is free, the subcategory row under the next id and its SUBCATEGORY qr row "SUBCAT-{category}-{name}" are appended, and nothing else changes |
| AdminRules.NewSubcategoryInserts | routes/admin.py:201-235 | on success exactly one subcategory row and one SUBCATEGORY qr row "SUBCAT-{category}-{name}" with folder "Archives/{category}/{name}" are added |
| AdminRules.SubcategoryRows | routes/admin.py:201-235 | the subcategory row is always appended; the answer is a 500 exactly when "SUBCAT-{category}-{name}" is already a qr identifier, otherwise the new subcategory under the next id |
| AdminRules.NewSubcategoryResolves | routes/admin.py:206-218 | a created subcategory resolves to itself within its category, as written and corrected |
| AdminRules.AppendedSubcategoryResolves | routes/admin.py:201-218 | a subcategory row and its SUBCATEGORY qr row appended to a catalog with unique qr identifiers resolve to that subcategory, its category name and its folder |
| AdminRules.NewDocument | routes/admin.py:280-329 | every error the handler answers is a 400 or a 500 |
| AdminRules.NewDocumentRejects | routes/admin.py:286-322 | a missing field is refused with its name, the first missing first, changing nothing; with all four the answer is 500 exactly when the allocator fails |
| AdminRules.NewDocumentResolves | routes/admin.py:300-322 | a created document's code resolves through the corrected resolver to that document |
| Admin.CreateCategory | routes/admin.py:97-158 | the handler ends in the state and answer of `AdminRules.NewCategory`; keys preserved |
| Admin.CreateSubcategory | routes/admin.py:162-243 | the handler ends in the state and answer of `AdminRules.NewSubcategory` |
| Admin.CheckSubcategory | routes/admin.py:180-235 | the checks after normalising end in the state and answer of `AdminRules.SubcategoryChecked` |
| Admin.InsertSubcategoryRows | routes/admin.py:201-218 | the two inserts end in the state and answer of `AdminRules.SubcategoryRows` |
| Admin.CreateDocument | routes/admin.py:280-329 | the handler ends in the state and answer of `AdminRules.NewDocument` |
| Accounts.Find | user_manager.py:50-54 | the position of the user with that name, or None exactly when no user has it |
| Accounts.Inserted | user_manager.py:67-81 | the INSERT succeeds exactly when the name is free, the role is in the ENUM and the name fits VARCHAR(50); the row gets the next id; the table's constraints keep holding |
| Accounts.AddUserEffect | user_manager.py:56-88 | `add_user` fails without change exactly when the name exists, the role is not 'admin'/'user', or the name is too long; otherwise it appends one row with the hash, role, clock and status; constraints hold |
| Accounts.UpdateWhere | user_manager.py:103-104 | UPDATE ... WHERE username: the matching rows are changed, every other row is kept, in place |
| Accounts.UnknownUserRefused | user_manager.py:93-158 | each update and delete refuses an unknown user and changes nothing |
| Accounts.UpdatesTouchOneColumn | user_manager.py:97-143 | each update changes only its own column of the named user; other rows are untouched |
| Accounts.UpdateRoleAccepts | user_manager.py:110-130 | `update_role` succeeds exactly for a known user and the role 'admin' or 'user'; another role changes nothing |
| Accounts.SoftDeleteEffect | user_manager.py:160-170 | after a soft delete the old name is gone and the same row, now inactive, carries "{name}_DELETED_{stamp}" |
| Accounts.HardDeleteEffect | user_manager.py:172-175 | after a hard delete the name is gone and exactly the other rows remain |
| Accounts.ChangesKeepWellFormed | user_manager.py:90-183 | updates and deletes keep the unique names, increasing ids, roles and name widths |
| Accounts.UserInfoOf | user_manager.py:185-211 | None exactly when the user is unknown; otherwise that user's columns without the hash |
| Accounts.ListUsersContents | user_manager.py:213-265 | the listing holds exactly the wanted users, as often as in the table, ordered by created_at descending |
| Accounts.InactiveCounted | user_manager.py:281 | inactive, computed as total − active, is the number of inactive users |
| Accounts.RolesSplitActive | user_manager.py:284-287 | with roles in the ENUM, admins + users = active |
| Accounts.RecentLogins | user_manager.py:290-295 | the recent-login figure counts the users whose last login is at or after a week ago, never more than the total |
| Accounts.RestoreStep | user_manager.py:370-392 | one entry adds one to restored or skipped, and its name exists afterwards |
| Accounts.RestoreAbandoned | user_manager.py:397-399 | once an insert raises, the whole restore fails |
| Accounts.RestoreCounts | user_manager.py:367-395 | a finished restore has restored + skipped = entries; it appended one row per restored entry, kept the old rows and the constraints |
| Accounts.RestoredNamesExist | user_manager.py:367-395 | after a finished restore every entry's name is in the table |
| Accounts.NewEntries | user_manager.py:370-373 | the entries a restore inserts, the first under each name the table does not hold, are entries of the backup, no more than there are |
| Accounts.SeenBefore | user_manager.py:371 | part way through a restore, `user_exists` holds for a name exactly when the starting table or an earlier entry has it |
| Accounts.RestoreStepAppends | user_manager.py:371-392 | one iteration raises exactly when its entry is new and refused; otherwise a new entry's row is appended under the next id and counted restored, and any other entry is counted skipped |
| Accounts.NextEntryRefused | user_manager.py:371-392 | after the earlier entries, the next one raises exactly when its name is unseen and the table refuses it |
| Accounts.RestoreAppends | user_manager.py:370-392 | a finished restore keeps the old rows and appends exactly the row of each new entry, in backup order, under the next fresh ids; restored counts the new entries and skipped the rest |
| Accounts.RestoreFails | user_manager.py:384-399 | the restore raises exactly when some new entry has a role outside the ENUM or a name over 50 characters |
| Accounts.RestoreUsersOutcome | user_manager.py:357-400 | False with the table unchanged exactly when a new entry is refused; otherwise True with the new entries' rows appended |
| Users.ConditionsSelectWanted | user_manager.py:223-233 | the conditions list built step by step selects exactly the users that `active_only` and a valid `role_filter` want |
| Users.UserManager.constructor | user_manager.py:14-38 | a manager over a given users table and hash function |
| Users.UserManager.UserExists | user_manager.py:50-54 | true exactly when some row has that username |
| Users.UserManager.Insert | user_manager.py:67-81 | the INSERT's new table is `Accounts.Inserted` of the old one, or the old table when refused |
| Users.UserManager.UpdateRows | user_manager.py:103-104 | the loop rewrites the table to `Accounts.UpdateWhere` of the old one |
| Users.UserManager.DeleteRows | user_manager.py:174-175 | the loop keeps exactly the rows of other users, in order |
| Users.UserManager.AddUser | user_manager.py:56-88 | ends in the table and answer of `Accounts.AddUser` with the password's hash; constraints preserved |
| Users.UserManager.UpdatePassword | user_manager.py:90-108 | ends in the table and answer of `Accounts.UpdatePassword`; constraints preserved |
| Users.UserManager.UpdateRole | user_manager.py:110-130 | ends in the table and answer of `Accounts.UpdateRole`; constraints preserved |
| Users.UserManager.ToggleUserStatus | user_manager.py:132-151 | ends in the table and answer of `Accounts.SetActive`; constraints preserved |
| Users.UserManager.DeleteUser | user_manager.py:153-183 | ends in the table and answer of `Accounts.DeleteUser`; constraints preserved |
| Users.UserManager.GetUserInfo | user_manager.py:185-211 | returns `Accounts.UserInfoOf` of the table |
| Users.UserManager.ListUsers | user_manager.py:213-265 | returns exactly the wanted users, newest first, as `Accounts.ListUsers` |
| Users.UserManager.SelectWhere | user_manager.py:230-236 | fetches exactly the rows the WHERE conditions accept, in table order |
| Users.UserManager.GetStatistics | user_manager.py:267-301 | the statistics of `Accounts.GetStatistics` a week before the clock; inactive is the count of inactive users; under the constraints admins + users = active |
| Users.UserManager.RestoreUsers | user_manager.py:357-400 | the loop ends in the committed table and counters of `Accounts.RestoreLoop`, or fails with the table unchanged; a finished restore has restored + skipped = entries and keeps the constraints |

## Left out

- Collation: MySQL compares and orders names case- and trailing-space-insensitively
  (utf8mb4_unicode_ci). The model compares text exactly and orders it by code point.
- Column widths of the catalog tables (VARCHAR(100) names and codes) are not modelled. The
  users table's VARCHAR(50) username is, as a strict-mode insert or update that fails.
- Foreign keys are not modelled. A dangling id makes a join find nothing.
- Documents are ordered by `created_at DESC` in the source. The model uses the reverse of
  insertion order, which is the same order when timestamps strictly grow.
- Users are ordered by `created_at DESC` too. `Accounts.ListUsers` sorts by `createdAt` with
  a stable insertion sort, so equal timestamps keep table order. MySQL leaves that order
  unspecified.
- Exceptions from the database are not modelled, except the UNIQUE-key, ENUM and width
  refusals. The outer `except` that turns anything else into a 500 or None is left out. So
  is the `execute_query_safe` behaviour of reading an error as "no row".
- Transactions: each statement commits at once in the model. The one exception is
  `restore_users`, whose inserts the model commits together at the end.
- Users.UserManager.RestoreUsers: when an insert raises, the source does not roll back. The
  inserts made so far stay pending on the connection, and the next commit of another
  operation would commit them. The model discards them.
- JSON requests are records whose fields are present or absent. Non-string names, `null`
  values and a body that is not JSON are not modelled.
- AdminRules.NewSubcategory: `category_id` is an integer or absent. A JSON string such as
  "2" or " 2", a fraction, or text such as "3abc" is bound as it is and compared by MySQL
  under its own conversions; none of these is modelled.
- AdminRules.NewDocument: `year` is likewise an integer or absent; a string, padded or
  fractional year is not modelled.
- Text.Upper: characters above U+017F are kept as they are, where Python upper-cases many of
  them (Greek, Cyrillic, Armenian and others). The mapping is Python's for U+0000..U+017F,
  which holds every French letter and œ.
- Text.UpperResult: its facts are about that mapping, so they match Python only within
  U+0000..U+017F.
- AdminRules.NewCategoryInserts: the stored name, its "CAT-" identifier and its folder are
  upper-cased as Python does only within U+0000..U+017F (see `Text.Upper`).
- AdminRules.NewCategoryTwice: "in any case" holds for letters up to U+017F; two names that
  differ only in the case of a letter above it are told apart by the model, not by the source.
- Reconciliation.ExtractYear: a path part that `isdigit()` accepts but `int()` refuses, such
  as the superscript "²" or a circled digit, makes the source raise outside `_register_file`'s
  try, so `scan_and_register_all` returns False. The model reads only decimal digits (Unicode
  category Nd) as digits and passes such a part over.
- Text.Lower: lower-cases ASCII only. It decides the `.pdf` suffix test exactly, because no
  character outside ASCII lowers to ".", "p", "d" or "f".
- Schema.AddDocument and Schema.AddQr: ids are positions. InnoDB also spends an
  AUTO_INCREMENT value on an insert refused for a duplicate key, so after such a refusal the
  database's ids run ahead of the model's.
- QR image generation, `os.makedirs` and the Flask response objects are left out. Answers
  are `AdminRules.Reply` and `Resolver.Resolution` values.
- The directory tree is an input datatype. `iterdir`, `rglob` and the existence test of the
  archives folder are not performed. Symbolic links and file-system errors are not modelled.
- Password hashing is a function parameter of `Users.UserManager`. The clock (`now`) and the
  soft-delete timestamp text are method parameters.
- The backup file of `restore_users` is already parsed: a sequence of entries. The check for
  a missing file, JSON parsing and date parsing are left out, and so are `backup_users` and
  the interactive menu.
- Concurrency: two requests racing between a read and a write are not modelled.
- `download_document` and the other web routes are not part of this model.

## Findings

| source | as written | input that shows it | evidently intended | confidence | as-written member | corrected member |
|---|---|---|---|---|---|---|
| routes/qr.py:14-29 | the document lookup runs only for identifiers that start with neither "CAT-" nor "SUBCAT-", yet document codes start with the category name as given | a document created with category name "CAT" gets code and identifier "CAT-X-2025-0001"; resolving it looks for a category, finds none and answers not found | every DOCUMENT qr row resolves to its document whatever its identifier starts with | high; not executed | Resolver.CreatedCatDocumentUnreachable | Resolver.ResolveFindsDocument |

# e-parts: a verified model of the parts manager and the BOM unroller

This project models the rules inside two small Flask applications.

- **parts manager.** An inventory of electronic parts. Parts have tags (many-to-many through `part_tag`), and tag names are unique. The model covers:
  - the upload-extension check;
  - creating, editing and deleting parts, and setting a part's stock count;
  - the filtered part listing;
  - the CSV bulk import, with tag get-or-create;
  - the tag registry: create, rename, delete and list;
  - the label pages: selection and print.
- **BOM viewer (`Poc/poc_app`).** Replaces its bill-of-materials table with the lines of an uploaded BOM. A row's comma-joined `Reference` cell becomes one line per reference, with quantity 1.

The database is one value, `Models.Tables`:
- the part rows, each with its list of linked tag ids;
- the tag rows;
- the counters that hand out primary keys.

`Models.Valid` states the schema's invariants:
- every row sits under its own key;
- every link names an existing tag;
- tag names are pairwise distinct.

`Database.Store` is the committed database, an object whose fields the routes update. A route works on its session, a local `Tables` value, and `Store.Commit` writes it back. A route that returns without committing has rolled back. The routes are methods that take the store. Each is proved to keep `Valid` and to leave exactly the state its contract names.

Python's string and integer operations are modelled in module `Text`, for ASCII:
- `str.isdigit`, `int()` and `str()`;
- `strip`, `split(',')` and `lower`;
- substring search.

SQLite keeps an INTEGER in 64 bits. A Python integer outside −2^63..2^63−1 that reaches a statement raises OverflowError when it is bound. `Models.FitsInteger` is that range. In the model, an integer outside it ends in a server error wherever the source binds a submitted one: a route id, a quantity, a tag id of the listing filter, a part id on the label page. In the CSV import it makes the row fail.

`ORDER BY name` is modelled in module `Ordering`: code-point order, with a listing specified as a sorted permutation of the table.

A failing CSV import does not roll back the batch. The code commits after every added part and every created tag. So the rows before a failing row stay stored, and so do the tags created so far. Only changes made after the last commit are lost, including links still pending for the last stored row. `CsvImport.ImportCommitsPrefix` states this, and `CsvImport.FailedRowDropsPendingLink` shows it on a two-row file.

## Model

| member | source | states |
|---|---|---|
| Models.Empty | parts_manager/app/models.py:4-24 | the empty database satisfies the schema invariants (keys, links, unique tag names) |
| Models.FindTag | parts_manager/app/routes/tags_routes.py:12 | `filter_by(name=...).first()`: a hit is a tag with exactly that name, outside the excluded ids, below the key counter; a miss means there is no such tag |
| Models.FindTagComplete | parts_manager/app/routes/tags_routes.py:33 | on a valid database the lookup misses exactly when no tag outside the excluded ids has the name |
| Models.TagLookup | parts_manager/app/routes/parts_routes.py:75 | `Tag.query.get(tag_id)`: a hit is an existing tag whose id the key spells in digits; a key that is not all digits finds nothing; and `str(tag.id)` of every existing tag finds that tag |
| Models.ResolveTags | parts_manager/app/routes/parts_routes.py:74-77 | the tags a form's selection resolves to exist, and there are at most as many as were selected |
| Models.ResolveTagsMembers | parts_manager/app/routes/parts_routes.py:159-164 | a tag is linked exactly when it exists and some selected id string names it; unknown ids are ignored |
| Models.PartsOfTagLink | parts_manager/app/models.py:20 | the backref `Tag.parts` follows `Part.tags`: appending tag x to part k's links adds k to x's backref and changes no other tag's |
| Models.PartsOfTagDeletePart | parts_manager/app/routes/parts_routes.py:177-183 | deleting part k removes k from every tag's backref and nothing else |
| Models.RowsBelow | parts_manager/app/models.py:10 | a table scan returns exactly the stored parts, each under its own key, in increasing key order |
| Models.Rows | parts_manager/app/models.py:9-20 | on a valid database the scan returns exactly the stored part rows |
| Models.TagRowsBelow | parts_manager/app/models.py:22-24 | a scan of the tag table returns exactly the stored tags, in increasing key order |
| Models.AddPart | parts_manager/app/routes/parts_routes.py:52-53 | `session.add(part)`: the part is stored under the next key, and nothing else changes |
| Models.AddTag | parts_manager/app/routes/tags_routes.py:16-18 | a new tag is stored under the next tag key, and nothing else changes |
| Models.Link | parts_manager/app/routes/parts_routes.py:77 | `tags.append(tag)` appends one link to one part, and nothing else changes |
| Models.AddPartValid | parts_manager/app/models.py:9-20 | adding a part whose links resolve keeps the invariants |
| Models.AddTagValid | parts_manager/app/models.py:24 | adding a tag whose name is not taken keeps names unique and the invariants |
| Models.LinkValid | parts_manager/app/models.py:4-7 | linking a stored part to a stored tag keeps the invariants |
| Database.Store.Tables | parts_manager/app/models.py:9-24 | the committed database as a value, field by field |
| Database.Store.constructor | parts_manager/app/models.py:4-24 | a fresh database is empty and valid |
| Database.Store.Commit | parts_manager/app/routes/parts_routes.py:53 | `db.session.commit()`: the session becomes the committed database |
| Text.DigitsValue | parts_manager/app/routes/labels_routes.py:15 | `int()` of an all-digit string is a natural number |
| Text.Decimal | parts_manager/app/routes/labels_routes.py:15 | `str()` of a natural number is all digits, and `int()` reads it back |
| Text.SkipSpace | Poc/poc_app/app.py:48 | the scan stops at the first character that is not whitespace, and it passes only whitespace |
| Text.SkipSpaceBack | Poc/poc_app/app.py:48 | the backward scan stops after the last character that is not whitespace, and it drops only whitespace |
| Text.Strip | Poc/poc_app/app.py:48 | `strip()` yields a slice of its input without whitespace at either end, and only whitespace is removed around it |
| Text.StripKeepsOut | parts_manager/app/routes/parts_routes.py:249 | stripping never introduces a character, so a stripped piece of a comma split has no comma |
| Text.StripNoSpaceBorder | parts_manager/app/routes/parts_routes.py:37 | a string with no whitespace at its ends is its own `strip()` |
| Text.ParseInt | parts_manager/app/routes/parts_routes.py:37 | `int()`: an all-digit string reads as its value, and the empty string is refused |
| Text.ParseRender | parts_manager/app/routes/labels_routes.py:15 | `int(str(n)) == n` for every integer |
| Text.Split | Poc/poc_app/app.py:53 | `split(',')`: at least one piece, no piece holds the separator, and joining the pieces gives the input back |
| Text.Trimmed | parts_manager/app/routes/parts_routes.py:249 | `[t.strip() for t in pieces]`, piece by piece |
| Text.NonEmpty | Poc/poc_app/app.py:53 | `[p for p in pieces if p]`: the non-empty pieces, each as often as it occurs (the multisets agree once empty pieces are dropped) |
| Text.NonEmptyAppend | Poc/poc_app/app.py:53 | the filter works left to right: filtering `a + b` is filtering `a` followed by filtering `b`, so the order of the pieces is kept |
| Text.Pieces | Poc/poc_app/app.py:53 | the kept entries are non-empty, trimmed and comma-free, and are the non-empty trimmed pieces of the split, each as often as it occurs there |
| Text.Lower | parts_manager/app/routes/parts_routes.py:17 | `lower()` maps each character to its lower-case form |
| Text.InfixIsFolded | parts_manager/app/routes/parts_routes.py:94-96 | an ILIKE search finds every literal occurrence, whatever the case of either side |
| Ordering.StrLeTotal | parts_manager/app/routes/tags_routes.py:22 | any two names are ordered one way or the other |
| Ordering.StrLeTransitive | parts_manager/app/routes/tags_routes.py:22 | the name order is transitive |
| Ordering.Insert | parts_manager/app/routes/tags_routes.py:22 | inserting into a sorted listing keeps it sorted, and adds exactly that row |
| Ordering.SortBy | parts_manager/app/routes/tags_routes.py:22 | `ORDER BY name` returns the rows sorted by name, as a permutation of the table |
| Ordering.PermutationDistinct | parts_manager/app/routes/labels_routes.py:18 | reordering rows that each occur once yields rows that each occur once |
| PartsRoutes.LastDot | parts_manager/app/routes/parts_routes.py:17 | `rsplit('.', 1)`: the found dot has no dot after it; no result means the name has no dot |
| PartsRoutes.LastDotUnique | parts_manager/app/routes/parts_routes.py:17 | a dot with no dot after it is the one `rsplit` splits at |
| PartsRoutes.AllowedFileIff | parts_manager/app/routes/parts_routes.py:13-17 | a name is allowed exactly when it has a dot, and the text after its last dot, lower-cased, is png, jpg, jpeg, gif or csv |
| PartsRoutes.ExtensionAfter | parts_manager/app/routes/parts_routes.py:15-17 | a name made of any text, a dot and a dot-free extension is allowed exactly when the lower-cased extension is in the allowed set |
| PartsRoutes.TestCsvNameAccepted | parts_manager/tests/test_app.py:139 | the tests' `test.csv` is accepted |
| PartsRoutes.TestTxtNameRefused | parts_manager/tests/test_app.py:162 | the tests' `test.txt` is refused |
| PartsRoutes.UpperCaseExtensionAccepted | parts_manager/app/routes/parts_routes.py:17 | the case of the extension does not matter: `PHOTO.JPG` is accepted |
| PartsRoutes.OnlyLastExtensionCounts | parts_manager/app/routes/parts_routes.py:17 | only the last extension counts: `parts.csv.bak` is refused |
| PartsRoutes.NewImage | parts_manager/app/routes/parts_routes.py:43-50 | a new part gets an image exactly when a non-empty allowed file name was uploaded, and the path is `images/` plus the sanitised name |
| PartsRoutes.EditedImageRule | parts_manager/app/routes/parts_routes.py:127-139 | edit: with no upload field the image stays; an allowed file replaces it; an empty file name keeps a non-empty current image; a disallowed file clears it |
| PartsRoutes.CreateQuantity | parts_manager/app/routes/parts_routes.py:28-37 | create: a missing quantity is 0, otherwise it is `int()` of the field, which may fail |
| PartsRoutes.EditQuantity | parts_manager/app/routes/parts_routes.py:122 | edit: the submitted integer, or 0 when the field is missing or not an integer |
| PartsRoutes.ResolveSelected | parts_manager/app/routes/parts_routes.py:159-164 | the tag loop links exactly the selected ids that resolve, in the order given |
| PartsRoutes.CreatePart | parts_manager/app/routes/parts_routes.py:22-82 | with a name and a valid quantity within SQLite's INTEGER range: one new part under the next key, with the submitted columns, the image rule and the resolved tags; otherwise (no name, no integer, or a quantity the first commit cannot bind) a server error and nothing stored |
| PartsRoutes.EditPart | parts_manager/app/routes/parts_routes.py:113-168 | an id or quantity beyond SQLite's INTEGER range, or no name: a server error and nothing stored. Unknown id: not found. Otherwise the columns are overwritten, the quantity is defaulted, the image rule applies and the tag set is replaced by the resolved selection; no other row changes |
| PartsRoutes.DeletePart | parts_manager/app/routes/parts_routes.py:177-183 | an id beyond SQLite's INTEGER range: a server error, nothing changes. Unknown id: not found. Otherwise exactly that part is removed |
| PartsRoutes.UpdateQuantity | parts_manager/app/routes/parts_routes.py:185-200 | an id beyond SQLite's INTEGER range: a server error. The count changes only for a non-empty all-digit string, to its value, which is never negative; a value beyond the range fails the commit with a server error; any other string gets an error notice; both change nothing |
| PartsRoutes.ParseAll | parts_manager/app/routes/parts_routes.py:103 | the selected tag ids parse exactly when each one is an integer, position by position |
| PartsRoutes.HasAllTagsSnoc | parts_manager/app/routes/parts_routes.py:105-106 | adding one more tag filter narrows the AND by exactly that tag |
| PartsRoutes.ListParts | parts_manager/app/routes/parts_routes.py:86-108 | the listing is exactly the parts matching a non-empty search case-insensitively in name, category or location, and carrying every selected tag; a non-integer tag id, or one beyond SQLite's INTEGER range, is an error |
| CsvImport.ReadRow | parts_manager/app/routes/parts_routes.py:222-230 | a row's name is present exactly when its column is; the quantity is 0 when the column is absent, the digits' value when they are digits, and a failure exactly when `int()` refuses the cell |
| CsvImport.ReadRows | parts_manager/app/routes/parts_routes.py:221 | the rows are read one by one, in order |
| CsvImport.NewPart | parts_manager/app/routes/parts_routes.py:222-230 | a row's part carries the row's name, category, package, quantity, location and note, with no image and no links |
| CsvImport.RowTagNamesArePieces | parts_manager/app/routes/parts_routes.py:247-251 | the names linked for a row are exactly the non-empty trimmed comma-separated pieces of its tags cell |
| CsvImport.FirstFailure | parts_manager/app/routes/parts_routes.py:221-233 | the rows before it all go in, and the row at it raises |
| CsvImport.LinkNamesFrame | parts_manager/app/routes/parts_routes.py:247-258 | the tag loop changes only the row's part and the tag table; the part ends up linked to a tag of every non-empty name; each commit it makes lies between the session before and after |
| CsvImport.LinkNamesExact | parts_manager/app/routes/parts_routes.py:247-258 | the converse: the loop appends exactly one link per non-empty name, in order, the j-th to a tag named by the j-th name, so the part gains as many links as there are non-empty names; every tag it creates carries one of the names |
| CsvImport.LinkNamesExactCons | parts_manager/app/routes/parts_routes.py:252-258 | one name's get-or-create and append, followed by the rest of the loop, keeps the one-link-per-name correspondence |
| CsvImport.LinkNamesValid | parts_manager/app/routes/parts_routes.py:252-258 | get-or-create keeps tag names unique and every link resolved, both committed and pending |
| CsvImport.StepBehind | parts_manager/app/routes/parts_routes.py:221-258 | after one row the new part carries the row's columns, older parts are unchanged, and the committed state trails the session only in links |
| CsvImport.StepLinks | parts_manager/app/routes/parts_routes.py:247-258 | after one row its part is linked to a tag of every non-empty name in the row |
| CsvImport.StepLinksExactly | parts_manager/app/routes/parts_routes.py:247-258 | after one row its part has exactly one link per non-empty name of the row, in order, each to a tag of that name, and every tag the row created carries one of its names |
| CsvImport.StepNewTags | parts_manager/app/routes/parts_routes.py:252-257 | the state a row commits adds to the session's tags only tags named in the row, and the session after the row has them all |
| CsvImport.StepValid | parts_manager/app/routes/parts_routes.py:221-258 | one row keeps both the committed state and the session valid |
| CsvImport.ImportRowsValid | parts_manager/app/routes/parts_routes.py:221-265 | whatever the rows, what the import leaves committed is valid |
| CsvImport.ImportRowsOutcome | parts_manager/app/routes/parts_routes.py:259-267 | the import reports success exactly when no row raises: no missing name, no non-integer quantity, no quantity beyond SQLite's INTEGER range |
| CsvImport.ImportRowsKeys | parts_manager/app/routes/parts_routes.py:221-267 | exactly the rows before the first failing one are stored, under consecutive new keys, and no tag is lost |
| CsvImport.ImportRowsKeepsOld | parts_manager/app/routes/parts_routes.py:221-267 | parts that were there keep their columns, and a committed one is not changed at all |
| CsvImport.ImportRowsNewColumns | parts_manager/app/routes/parts_routes.py:222-233 | each stored new part carries its row's columns |
| CsvImport.ImportRowsKeepsTagged | parts_manager/app/routes/parts_routes.py:221-260 | on success, links made earlier are kept |
| CsvImport.ImportRowsLinksRow | parts_manager/app/routes/parts_routes.py:247-260 | on success, each row's part is linked to a tag of every non-empty name in its tags cell |
| CsvImport.ImportRowsKeepsSession | parts_manager/app/routes/parts_routes.py:221-260 | on success, a part the session already held comes out unchanged, and no tag is lost |
| CsvImport.ImportRowsLinksExactly | parts_manager/app/routes/parts_routes.py:247-260 | on success, each row's part has exactly one link per non-empty name of its tags cell, in order, each to the tag of that name, and no other link |
| CsvImport.ImportRowsCreatedTags | parts_manager/app/routes/parts_routes.py:252-257 | whatever the outcome, each tag the import leaves committed that was not there carries a non-empty name from some row's cell; older tags keep their names |
| CsvImport.ImportLinksCell | parts_manager/app/routes/parts_routes.py:247-260 | from a valid database, on success: the i-th row's part has as many links as its cell has non-empty names, the j-th link to the tag named by the j-th name, and every created tag is named in some row |
| CsvImport.ImportLinkCount | parts_manager/tests/test_app.py:148-153 | on success, the number of links of a row's part is the number of non-empty names in its cell |
| CsvImport.TwoGoodRowsGoIn | parts_manager/tests/test_app.py:141-142 | two rows that do not raise are both imported and success is reported |
| CsvImport.TwoRowsTwoLinksEach | parts_manager/tests/test_app.py:131-157 | two rows with cells `a,b` and `b,c` both go in, each part gets exactly two links, and each created tag is one of the three names |
| CsvImport.OversizedQuantityStops | parts_manager/app/routes/parts_routes.py:223-267 | a row whose quantity parses but is beyond SQLite's INTEGER range makes the import fail, and no part from that row or a later one is kept |
| CsvImport.ImportCommitsPrefix | parts_manager/app/routes/parts_routes.py:221-267 | from a valid database: success exactly when no row raises; the rows before the first failing one are stored with their columns under consecutive keys; older parts are unchanged; no tag is lost |
| CsvImport.ImportSharesTags | parts_manager/tests/test_app.py:155-157 | on success, two rows naming the same tag are linked to one and the same tag row |
| CsvImport.FailedRowDropsPendingLink | parts_manager/app/routes/parts_routes.py:247-266 | when the second row fails, the first row's part and its new tag stay committed, but the part's pending link is rolled back |
| CsvImport.LinkRowTags | parts_manager/app/routes/parts_routes.py:247-258 | the tag loop of one row, with its commits, ends in the state the tag-loop specification gives |
| CsvImport.ImportCsv | parts_manager/app/routes/parts_routes.py:202-270 | no file field, an empty name, a disallowed name or an unreadable file: its own notice and no change. Otherwise the committed database is what the row loop leaves, with success or failure reported |
| TagsRoutes.Renamed | parts_manager/app/routes/tags_routes.py:37 | `tag.name = name` changes that tag's name only |
| TagsRoutes.RenamedValid | parts_manager/app/routes/tags_routes.py:33-38 | a rename to a name no other tag has keeps tag names unique |
| TagsRoutes.RenameToOwnName | parts_manager/app/routes/tags_routes.py:33 | renaming a tag to its own current name is never refused |
| TagsRoutes.Without | parts_manager/app/routes/tags_routes.py:47 | a part's remaining links are exactly its links other than the deleted tag |
| TagsRoutes.TagDeleted | parts_manager/app/routes/tags_routes.py:46-48 | deleting a tag removes exactly that tag and its `part_tag` rows; part rows and counters are unchanged |
| TagsRoutes.TagDeletedBackrefs | parts_manager/app/routes/tags_routes.py:46-48 | after a tag's deletion no part is in its backref, and every other tag's backref is unchanged |
| TagsRoutes.TagDeletedValid | parts_manager/app/routes/tags_routes.py:47-48 | after a delete the database is valid, no part links the deleted tag, and every other link is kept |
| TagsRoutes.CreateTag | parts_manager/app/routes/tags_routes.py:6-20 | an empty or missing name changes nothing; a name that is taken (exact match) changes nothing and warns; otherwise exactly one tag with that name is added |
| TagsRoutes.RenameTag | parts_manager/app/routes/tags_routes.py:25-42 | an id beyond SQLite's INTEGER range: a server error, nothing changes. Unknown id: not found. An empty name, or one another tag has, shows the form again and changes nothing; otherwise only that tag is renamed |
| TagsRoutes.DeleteTag | parts_manager/app/routes/tags_routes.py:44-50 | an id beyond SQLite's INTEGER range: a server error, nothing changes. Unknown id: not found. Otherwise the state is exactly the tag's deletion |
| TagsRoutes.TagListing | parts_manager/app/routes/tags_routes.py:22 | every tag exactly once, sorted by name |
| LabelsRoutes.KeptIds | parts_manager/app/routes/labels_routes.py:15 | the kept ids are never negative and are no more than were sent |
| LabelsRoutes.KeptIdsMembers | parts_manager/app/routes/labels_routes.py:15 | an id is kept exactly when some submitted string is all digits and spells it; the others are dropped |
| LabelsRoutes.WithIds | parts_manager/app/routes/labels_routes.py:18 | `id IN (...)`: exactly the rows whose id is listed, each at most once |
| LabelsRoutes.RowsDistinct | parts_manager/app/models.py:10 | the part table holds no row twice |
| LabelsRoutes.SelectLabels | parts_manager/app/routes/labels_routes.py:6-9 | every stored part exactly once, sorted by name |
| LabelsRoutes.PrintLabels | parts_manager/app/routes/labels_routes.py:11-20 | a server error exactly when a kept id is beyond SQLite's INTEGER range; otherwise exactly the stored parts whose id was kept, each once however often it was sent, sorted by name |
| LabelsRoutes.KeptPickedIds | parts_manager/app/routes/labels_routes.py:15 | when each sent string is the decimal form of its picked part's id, the kept ids are exactly the picked parts' ids |
| LabelsRoutes.SelectThenPrint | parts_manager/app/routes/labels_routes.py:13-18 | sending back the ids of parts picked on the selection page prints exactly those parts, and fails exactly when one of their ids is beyond SQLite's INTEGER range |
| BomViewer.References | Poc/poc_app/app.py:48-53 | each reference of a row is non-empty, trimmed and free of commas |
| BomViewer.ReadBomRow | Poc/poc_app/app.py:47-60 | the references read from a row are exactly the non-empty trimmed pieces of its Reference cell, none when the cell is blank |
| BomViewer.ReadBomRows | Poc/poc_app/app.py:47 | the rows are read one by one, in order |
| BomViewer.RowLines | Poc/poc_app/app.py:55-62 | one line per reference of the row, in order, each with quantity 1 and the row's cells |
| BomViewer.BlankCellHasNoPieces | Poc/poc_app/app.py:48-50 | skipping a blank Reference cell only saves work: splitting it would give no reference either |
| BomViewer.UnrollCount | Poc/poc_app/app.py:55-62 | the number of lines is the sum, over rows, of their references |
| BomViewer.UnrollAppend | Poc/poc_app/app.py:47-62 | rows unroll one after another, so the lines keep the order of the file |
| BomViewer.UnrollSound | Poc/poc_app/app.py:55-62 | every line comes from a row that names its reference, and carries that row's cells |
| BomViewer.UnrollComplete | Poc/poc_app/app.py:53-62 | every reference of every row gets its line |
| BomViewer.UnrolledRows | Poc/poc_app/app.py:47-62 | stated on the CSV rows: each line has quantity 1 and a trimmed, non-empty, comma-free reference from some row, with that row's Value, Footprint and MPN; and each reference of each row has its line |
| BomViewer.BomTable.constructor | Poc/poc_app/app.py:19-29 | the table starts empty |
| BomViewer.BomTable.UploadBom | Poc/poc_app/app.py:36-69 | a missing file or empty file name leaves the lines untouched; an unreadable file gives 400 and the rollback restores the cleared lines; otherwise the table holds exactly the unrolled lines of this file |
| BomViewer.AddRowLines | Poc/poc_app/app.py:55-62 | the reference loop appends exactly the row's lines |

## Left out

- QR-code generation, `qr_path`, `img.save` and `file.save` are left out. They are library calls and file-system effects. `url_for`, flash texts and template rendering are reduced to the `Reply` and `Outcome` values.
- `created_at` and the part listing's `ORDER BY created_at DESC` are left out: the value is a wall-clock time. `PartsRoutes.ListParts` therefore returns the set of listed part ids.
- `secure_filename` is a parameter of the routes (`sanitize`), not a model of werkzeug.
- CSV decoding is left out: utf-8-sig, quoting and `csv.DictReader`. So is `pandas.read_csv`. A file arrives as parsed rows, or as `None` when it cannot be read. The model does not capture:
  - a syntax error found part-way through the file;
  - a short row whose cells `DictReader` fills with `None`;
  - pandas turning an empty cell into `nan`.
- Several Python details are left out; the model is ASCII only:
  - Unicode digits for `isdigit` and `int()`;
  - underscores inside `int()` literals;
  - Unicode case folding;
  - whitespace above U+00FF.
- SQL `LIKE` wildcards (`%`, `_`) inside the search text are left out; the model uses a literal, ASCII case-insensitive substring test.
- SQLite details are left out:
  - text affinity when an id string such as `" 3"` is compared with an integer key;
  - reuse of the largest deleted rowid. The model hands out keys from counters;
  - the largest rowid. The key counters are not bounded by 2^63−1, and what SQLite does once the largest rowid is taken (it tries unused rowids at random) is not modelled.
- `BomLine.id` is left out, because no modelled behaviour reads it.
- `Part.quantity`'s column default is left out: every modelled route sets the quantity explicitly.
- Duplicate links are not removed. A tag named twice in one CSV row, or selected twice in a form, is linked twice, as the list append does. The ORM's de-duplication of such rows at flush time is not modelled.
- `upload_svgs`, `bom` and `index` in `Poc/poc_app/app.py` are left out: file storage, session cookies and rendering.
- `parts_manager/app/__init__.py`, `main_routes.py`, `part_detail` and `dev_tools/create_structure.py` are left out: app wiring, a static page, a read of one row, and directory creation.
- Transactions beyond commit and rollback are left out: isolation, concurrency and the connection pool.
- PartsRoutes.CreatePart: an exception from `file.save` or the QR image's `img.save` is left out; the model assumes both succeed. In the source, a failing `file.save` stores nothing, and a failing `img.save` leaves the part committed without its tags.
- CsvImport.ImportCsv: an exception from a row's QR image is left out; the model assumes it succeeds. In the source, it is caught like a failing row, after that row's part was committed.
- PartsRoutes.EditPart: an exception from `file.save` or `img.save` is left out. Those calls run before the route's only commit, so in the source such an exception ends in a server error with nothing stored. The model assumes they succeed.

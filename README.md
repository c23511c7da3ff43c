# Mapoteca Digital — publication form, attachments and CSV migration

This project models the core of Mapoteca Digital in Dafny. Mapoteca Digital is the SEIGEO catalogue of published maps. The model covers three parts:

- **Publication form** (`validation.js`): the PDF checks, and the three "parent + child" combination rules (classe + tipo de mapa, tipo de regionalização + região, tipo de tema + tema). Each rule is checked against a relationship table of the feature service. The part also covers the dependent dropdowns those rules drive, the required-field check and the whole-form check run before saving.
- **Attachment handler** (`attachment-handler.js`): batch upload with one result record per file, chunk planning, replacing an attachment, deleting all attachments, and the drag-and-drop filter.
- **CSV migration script** (`migrate_csv.py`): batched inserts, the special-cased `t_municipios` load, the integrity verdict and the main loop over the generic tables.

Every reply from the feature service and every database outcome is a parameter, never a call:

- `Oracle.Reply` (`Ok(value)` or `Err`) is one query's answer.
- Boolean or `Reply` functions indexed by request number stand for a sequence of requests, e.g. `server(i)` for the upload of the i-th file and `db(j)` for the j-th batch.

The model is organised in these modules:

- `Pdf` (`pdf.dfy`): `validatePDF` and `validatePDFHeader` as pure functions.
- `Cascade` (`cascade.dfy`): the pair rules and the form-state transitions.
  - The form state is four maps: values, error messages, dropdown options and enabled flags.
  - Each handler is a function from the old state to the new one.
  - Also here: the required-field list and the ordered error list of `validateForm`.
- `Form` (`form.dfy`): the form widget as a class whose four map fields the handlers update in place. Each method is proved to reach exactly the state the matching `Cascade` transition describes.
- `Attachments` (`attachments.dfy`) and `Migration` (`migration.dfy`): the loops of the two other files, written as methods with loop invariants and specified by functions on their inputs.

Points where the code's behaviour may be unexpected:

- Options appear in the order the service returns them. The client never sorts them. The request's `orderByFields` asks the service to sort, and that sorting is not modelled.
- Nothing discards a late reply from an earlier selection.
- When the parent is empty, or when the query finds no rows, the child value is left as it was.
- A municipios.csv row too short to reach its code, name or a region column makes `strip` fail on None. That ends the whole municipios load with a rollback, where a row with a blank code or name is only skipped.
- `loadTemasValidos` enables the tema field even when `t_tema` returns no rows.

## Model

| member | source | states |
|---|---|---|
| Pdf.ValidatePdf | src/frontend/scripts/validation.js:375-413 | accepted iff the MIME type is application/pdf, size ≤ 52428800, name ≤ 255 characters and the lower-cased name ends in ".pdf"; a rejection names a check that really fails |
| Pdf.FirstFailureReported | src/frontend/scripts/validation.js:375-413 | the error reported is the first failing check in the order type, size, name length, extension — both directions |
| Pdf.BoundaryFiles | src/frontend/scripts/validation.js:16-22 | a file of exactly 50 MB with a 255-character ".PDF" name is accepted; one byte or one character more, a ".pdfx" name or another MIME type is rejected with the matching error |
| Pdf.ValidatePdfHeader | src/frontend/scripts/validation.js:421-439 | the header is valid iff the file is readable and its first four bytes are "%PDF"; an unreadable file is reported as such |
| Pdf.HeaderIgnoresTail | src/frontend/scripts/validation.js:426-429 | only the first four bytes decide the header verdict |
| Cascade.CountMatches | src/frontend/scripts/validation.js:76-89 | the count of rows matching both keys is at most the table size and is zero iff no row matches |
| Cascade.CountOneIffUnique | src/frontend/scripts/validation.js:89 | `count === 1` holds iff exactly one row matches the pair |
| Cascade.IsValidPair | src/frontend/scripts/validation.js:70-94 | a valid pair has two non-empty keys and an answered query (the same rule serves lines 192-214 and 298-320) |
| Cascade.ValidPairIffUniqueRow | src/frontend/scripts/validation.js:70-94 | a pair is valid iff both keys are non-empty, the query answers, and exactly one row of the relationship table matches (the same rule serves lines 192-214 and 298-320) |
| Cascade.DuplicatePairInvalid | src/frontend/scripts/validation.js:89 | a pair listed twice in the table is rejected |
| Cascade.UniqueTableValidIffPresent | src/frontend/scripts/validation.js:70-94 | over a table without duplicate pairs, a pair is valid iff both keys are non-empty and the pair is listed |
| Cascade.ClasseTipoExample | src/frontend/scripts/validation.js:70-94 | on a small classe/tipo table a listed pair is valid, and an unlisted pair, an empty classe, an empty tipo and a failed query are not |
| Cascade.RowsFor | src/frontend/scripts/validation.js:153-164 | the rows returned for a parent are table rows with that parent, every such row among them, and no more rows than the table holds |
| Cascade.RowsForCounts | src/frontend/scripts/validation.js:153-164 | each row with the parent is returned as often as the table holds it, any other row never |
| Cascade.RowsForAppend | src/frontend/scripts/validation.js:153-164 | the rows come in table order: the query over two concatenated tables returns the first table's rows, then the second's |
| Cascade.TemasIn | src/frontend/scripts/validation.js:262-277 | the second query returns exactly the temas whose id was among the related ids |
| Cascade.TemasInCounts | src/frontend/scripts/validation.js:262-277 | each tema with a related id is returned as often as t_tema holds it, any other never |
| Cascade.TemasInAppend | src/frontend/scripts/validation.js:262-277 | the temas come in t_tema's order |
| Cascade.LoadRegioesEffect | src/frontend/scripts/validation.js:145-187 | each branch fixes all four maps, so nothing outside the região field and the tipo de regionalização error changes; região is enabled iff the parent is non-empty, the query answers and some row has that parent. Empty parent: empty options, disabled, values and errors kept. Failed query: the loading error, disabled, options and values kept. No matching row: "no regions found", empty options, disabled, values kept. Otherwise: one option per matching row in table order (an option is offered iff its row is in the table), enabled, the região value and the parent's error cleared |
| Cascade.LoadRegioes | src/frontend/scripts/validation.js:145-187 | região ends with an enabled flag, set only when the parent is non-empty and the query answered |
| Cascade.RegiaoOptionsExact | src/frontend/scripts/validation.js:164-176 | an option is offered for a parent iff the table holds the row (parent, option value, option text) |
| Cascade.LoadRegioesIdempotent | src/frontend/scripts/validation.js:145-187 | loading twice with the same answer gives the same form as loading once |
| Cascade.LoadedRegioesAreValidPairs | src/frontend/scripts/validation.js:145-214 | over a table without duplicate pairs and without empty child ids, every region offered after a successful load passes validateRegionalizacaoRegiao for that parent |
| Cascade.LoadTemasEffect | src/frontend/scripts/validation.js:234-293 | each branch fixes all four maps, so nothing outside the tema field and the tipo de tema error changes; tema is enabled iff the parent is non-empty and both queries answer with some related row. Empty parent: empty options, disabled, values and errors kept. A failed query: the loading error, disabled, options and values kept. No related row: "no temas found", empty options, disabled, values kept. Otherwise: the related temas in t_tema order (an option is offered iff t_tema holds it and a row relates its id to the parent), enabled, the tema value and the parent's error cleared |
| Cascade.LoadTemas | src/frontend/scripts/validation.js:234-293 | tema ends with an enabled flag, set only when the parent is non-empty and both queries answered |
| Cascade.TemaOptionsExact | src/frontend/scripts/validation.js:253-282 | an option is offered iff t_tema holds the tema (value, text) and the relationship table relates its id to the parent |
| Cascade.LoadTemasIdempotent | src/frontend/scripts/validation.js:234-293 | loading twice with the same answers gives the same form as loading once |
| Cascade.OnClasseMapaChange | src/frontend/scripts/validation.js:99-111 | with no tipo selected nothing changes; otherwise only tipo changes: a tipo valid for the new classe keeps every value and loses its error, an invalid one is cleared and gets the invalid-combination error |
| Cascade.OnClasseMapaChangeIdempotent | src/frontend/scripts/validation.js:99-111 | handling the same change twice equals handling it once |
| Cascade.OnTipoMapaChange | src/frontend/scripts/validation.js:116-132 | without a classe, tipo is cleared with "select classe first"; a valid pair keeps every value and clears the tipo error; with a classe, an invalid pair gets the invalid-combination error; an error always clears the value |
| Cascade.OnTipoWithoutClasseIgnoresService | src/frontend/scripts/validation.js:119-123 | without a classe the outcome does not depend on the service's answer |
| Cascade.MissingExactly | src/frontend/scripts/validation.js:333-363 | the missing fields are exactly the listed fields whose value is empty, and there are none iff every listed field is filled |
| Cascade.MarkRequiredEffect | src/frontend/scripts/validation.js:355-358 | every missing field gets the "required" error and no other error entry changes |
| Cascade.ErrorListOrdered | src/frontend/scripts/validation.js:452-515 | the error list follows the fixed order: required fields, classe+tipo, regionalização+região, tema, attachment |
| Cascade.ErrorListEntries | src/frontend/scripts/validation.js:452-515 | the list is empty iff no check failed, and each error is present iff its check failed |
| Cascade.FormErrors | src/frontend/scripts/validation.js:452-515 | at most five errors; the required-fields error is reported iff a required field is empty, the PDF error iff there is no attachment |
| Cascade.FormErrorsOrdered | src/frontend/scripts/validation.js:452-515 | the errors validateForm reports are in check order |
| Cascade.FormValidIff | src/frontend/scripts/validation.js:452-515 | the form is valid iff every required field is filled, the three filled pairs are valid and at least one attachment is present |
| Cascade.PairEntriesNeedBothValues | src/frontend/scripts/validation.js:465-500 | a pair error is reported only when both of its fields are filled |
| Form.FormWidget.SetError | src/frontend/scripts/validation.js:106 | sets one error and changes nothing else |
| Form.FormWidget.ClearError | src/frontend/scripts/validation.js:109 | removes one error and changes nothing else |
| Form.FormWidget.ClearValue | src/frontend/scripts/validation.js:107 | empties one value and changes nothing else |
| Form.FormWidget.SetFieldOptions | src/frontend/scripts/validation.js:178 | replaces one field's options and changes nothing else |
| Form.FormWidget.EnableField | src/frontend/scripts/validation.js:179 | enables one field and changes nothing else |
| Form.FormWidget.DisableField | src/frontend/scripts/validation.js:148 | disables one field and changes nothing else |
| Form.FormWidget.OnClasseMapaChange | src/frontend/scripts/validation.js:99-111 | the widget reaches exactly the state of Cascade.OnClasseMapaChange |
| Form.FormWidget.OnTipoMapaChange | src/frontend/scripts/validation.js:116-132 | the widget reaches exactly the state of Cascade.OnTipoMapaChange |
| Form.FormWidget.LoadRegioesValidas | src/frontend/scripts/validation.js:145-187 | the widget reaches exactly the state of Cascade.LoadRegioes |
| Form.FormWidget.LoadTemasValidos | src/frontend/scripts/validation.js:234-293 | the widget reaches exactly the state of Cascade.LoadTemas |
| Form.FormWidget.OnTipoRegionalizacaoChange | src/frontend/scripts/validation.js:219-221 | reloading the regions for the new type, as Cascade.LoadRegioes |
| Form.FormWidget.OnTipoTemaChange | src/frontend/scripts/validation.js:325-327 | reloading the temas for the new tipo, as Cascade.LoadTemas |
| Form.FormWidget.MarkMissing | src/frontend/scripts/validation.js:354-360 | the fields returned are Cascade.Missing of the values before the call; exactly those get the "required" error and nothing else changes |
| Form.FormWidget.ValidateRequiredFields | src/frontend/scripts/validation.js:351-363 | true iff every required field is filled; each missing field gets the "required" error; values, options and enabled flags are untouched |
| Form.FormWidget.ValidateForm | src/frontend/scripts/validation.js:452-515 | the returned errors are Cascade.FormErrors of the values before the call (ordered, and empty exactly when FormValidIff holds); valid iff there are none |
| Form.CheckPair | src/frontend/scripts/validation.js:465-474 | adds the pair's error exactly when both keys are filled and the pair is invalid |
| Attachments.UploadOutcome | src/frontend/scripts/attachment-handler.js:45-90 | a file's record names the file; it succeeds iff both checks pass and the server answers, carrying the server's id and the file size; a metadata rejection carries the validatePDF error |
| Attachments.UploadAttachments | src/frontend/scripts/attachment-handler.js:40-94 | one record per file, in order, each the file's own outcome whatever happened to the others; upload requests go, in order, to exactly the files both checks accept |
| Attachments.UploadAttachmentWithChunking | src/frontend/scripts/attachment-handler.js:142-164 | ceil(size / 1 MB) slices, ending with uploadedChunks equal to that number; slice k is [k · 1 MB, min(k · 1 MB + 1 MB, size)); together the slices start at 0, follow each other without gaps, are non-empty and at most 1 MB, and end at the file size |
| Attachments.PartitionCovers | src/frontend/scripts/attachment-handler.js:148-151 | every byte of the file lies in exactly one slice |
| Attachments.PartitionOrdered | src/frontend/scripts/attachment-handler.js:148-151 | later slices start where or after earlier ones end |
| Attachments.ReplaceAttachment | src/frontend/scripts/attachment-handler.js:400-422 | archive (versioning on), then delete, then upload only when the delete succeeded and the file passes both checks; the result is the new file's record, or a thrown error when the delete fails |
| Attachments.DeleteAllAttachments | src/frontend/scripts/attachment-handler.js:376-391 | a failed listing sends no delete; the deletes sent are a prefix of the listing, stopping at the first failure; success iff every listed attachment was deleted |
| Attachments.DropFilter | src/frontend/scripts/attachment-handler.js:510-522 | the files added are exactly the accepted files, in drop order and with their multiplicity |
| Migration.OkPrefix | src/backend/scripts/migrate_csv.py:109-126 | the number of steps that succeed before the first failure |
| Migration.BatchesPartition | src/backend/scripts/migrate_csv.py:109-111 | batches are non-empty, all of size batch_size except possibly the last, and their concatenation is the data |
| Migration.InsertTotal | src/backend/scripts/migrate_csv.py:87-128 | insert_data returns either 0 or len(data), the latter exactly when every batch succeeds |
| Migration.InsertData | src/backend/scripts/migrate_csv.py:87-128 | empty data sends nothing and returns 0; batch j is sent as the value tuples of the j-th batch; the batches before the first failure are committed; the result is len(data) on success and 0 otherwise |
| Migration.InsertStopsAt | src/backend/scripts/migrate_csv.py:113-126 | when batch j fails after j successes, the batches sent are the first j + 1 batches, the successful prefix has length j and insert_data returns 0 |
| Migration.InsertCompletes | src/backend/scripts/migrate_csv.py:109-128 | when every batch succeeds, the batches sent are all the batches and insert_data returns len(data) |
| Migration.OkPrefixStops | src/backend/scripts/migrate_csv.py:123-126 | the loop stops at the first failing step |
| Migration.Strip | src/backend/scripts/migrate_csv.py:142-143 | strip never lengthens its input (StripIsTrimmedSlice states exactly what it removes) |
| Migration.StripIsTrimmedSlice | src/backend/scripts/migrate_csv.py:142-143 | strip removes whitespace from both ends and nothing else: the result is a slice of the input, everything around it is whitespace, and it neither starts nor ends with whitespace |
| Migration.StripFixes | src/backend/scripts/migrate_csv.py:142-143 | text that neither starts nor ends with whitespace is left unchanged |
| Migration.StripEmptyIffBlank | src/backend/scripts/migrate_csv.py:145 | a key is blank after strip iff it was all whitespace |
| Migration.StripIdempotent | src/backend/scripts/migrate_csv.py:142-158 | stripping twice is stripping once |
| Migration.OptionalStripped | src/backend/scripts/migrate_csv.py:154-158 | an optional column becomes None iff it is all whitespace, and otherwise a non-empty text that strip leaves unchanged |
| Migration.Optional | src/backend/scripts/migrate_csv.py:154-158 | an optional column that is kept is never the empty string |
| Migration.Clean | src/backend/scripts/migrate_csv.py:150-158 | the record holds the stripped code and name and, per region column in order, that column's optional value |
| Migration.CleanStepOutcome | src/backend/scripts/migrate_csv.py:140-200 | a row raises iff its code or name is None, or it is not skipped and a region column is None; it is skipped iff code and name are present and one is blank; an upserted record has a non-empty, already stripped code and name and a None region exactly for a blank column |
| Migration.UpsertedAppend | src/backend/scripts/migrate_csv.py:140-200 | rows are handled in order: the rows after a raising row contribute nothing, and a sequence raises iff one of its parts does |
| Migration.UpsertedStep | src/backend/scripts/migrate_csv.py:140-191 | one more row adds its record when it is upserted, nothing when it is skipped |
| Migration.UpsertedRaiseAt | src/backend/scripts/migrate_csv.py:142-158 | the records after a raising row are never upserted |
| Migration.UpsertedPrefix | src/backend/scripts/migrate_csv.py:140-186 | the records before an upserted row are a strict prefix of all the records |
| Migration.UpsertedCount | src/backend/scripts/migrate_csv.py:140-147 | every row yields a record iff each is upserted; nothing is upserted and nothing raises iff every row is skipped |
| Migration.KeptAppend | src/backend/scripts/migrate_csv.py:140-200 | the municipios kept from two parts of the file are those of the first part, then those of the second unless the first raised |
| Migration.KeptCount | src/backend/scripts/migrate_csv.py:140-158 | every row is upserted iff each has a present, non-blank code and name and all region columns present; none is upserted and none raises iff every row is skipped |
| Migration.CommitPointsMultiples | src/backend/scripts/migrate_csv.py:189-191 | commits happen at exactly the positive multiples of 100 up to the count, in increasing order |
| Migration.UpsertLoop | src/backend/scripts/migrate_csv.py:140-200 | whatever the row handling, the count is the number of records upserted before the first failing execute, those records in order, taken from the rows before the first raising row; commits come at every 100th record, plus once at the end only when no row raised and no execute failed |
| Migration.MigrateMunicipios | src/backend/scripts/migrate_csv.py:130-202 | empty input returns 0 with no commit; otherwise the count is the number of kept municipios upserted before the first failure, a short row ending the load as a failure; those records in order; commits at every 100th record, plus once at the end only when nothing failed |
| Migration.LastCommitCovers | src/backend/scripts/migrate_csv.py:189-200 | below 100 rows nothing is committed before the end; otherwise the last periodic commit covers count − count mod 100 rows, so a failure returns a count that includes rolled-back rows |
| Migration.NoCommitBelow | src/backend/scripts/migrate_csv.py:189 | no periodic commit happens before the 100th row |
| Migration.ValidateData | src/backend/scripts/migrate_csv.py:204-250 | true iff every query answers with 0 invalid municipios, exactly 6 classe+tipo combinations and 0 orphan temas; when all answer, each issue is listed iff its count is off |
| Migration.GenericEntries | src/backend/scripts/migrate_csv.py:322-324 | the generic loop takes exactly the mapped files that exist, other than municipios.csv, in mapping order |
| Migration.MigrateAll | src/backend/scripts/migrate_csv.py:313-327 | municipios.csv is loaded once by its own routine and never by insert_data; the total is the municipios count plus each loaded table's insert_data result |
| Migration.GenericEntriesAppend | src/backend/scripts/migrate_csv.py:322-324 | filtering the mapping one entry at a time matches filtering it whole |
| Migration.SumInsertedAppend | src/backend/scripts/migrate_csv.py:327 | the running total adds each table's result |

## Left out

- The DOM and the host runtime are not modelled: notifications, progress bars, the PDF viewer, `alert`, the `window.jimu` lookups and `getFeatureServiceUrl`. `main.js` and `form-handler.js` are not part of this model.
- The network is not modelled: `queryFeatureService` and `fetch` become `Oracle.Reply` parameters. No request text or SQL string is built.
- The 500 ms debounce is not modelled, because it is timing only.
- Concurrency is not modelled. No order of overlapping asynchronous handlers is modelled, and the code has no guard against late replies.
- Floating point is not modelled: the MB figure in the size error, the progress percentages, and the `float()`/`int()` parsing of numeric municipio columns. A failing parse is folded into the per-row `execOk` outcome.
- Pdf.ValidatePdf: lower-cases ASCII letters only and counts the name in characters, not UTF-16 code units.
- Strings are sequences of code points. Whitespace for `strip` is the set of characters Python's `str.isspace` accepts (`Migration.IsSpace`). Decoding the CSV file's bytes is not modelled.
- The database's handling of `ON CONFLICT` is not modelled: `DO NOTHING` in insert_data and the upsert of t_municipios both count as one successful execute, and which table rows end up stored is not tracked.
- Migration.MigrateMunicipios: commits are assumed to succeed. A failing execute or a numeric column that does not parse is the upserted record's `execOk` outcome; a None cell in the code, name or region columns is modelled as the raise it causes. The numeric columns and `nome_municipio_sem_acento` are not carried in `Migration.Municipio`; the five region columns are, as a sequence in the order of `Migration.RegionColumns`.
- Migration.InsertData: a cell csv.DictReader pads in a short row is None and is sent as SQL NULL. All rows of one file hold the header's columns, so `row[col]` never fails; the model reads a column a row lacks as None as well. `batch_size` must be positive because Python's `range` rejects a zero step, and the script always passes 1000. A data row with more fields than the header is not modelled: csv.DictReader files the extra fields under the key None. If the first row is such a row, `sql.Identifier(None)` raises a TypeError that insert_data does not catch and `main` does not handle, so the whole migration aborts. In that case insert_data returns neither 0 nor len(data), which the model cannot represent.
- Migration.MigrateAll: `read_csv`'s file errors appear only as an empty row list. An uncaught non-database error in insert_data (the too-long first row above) aborts `main` and is not modelled, so the total assumes every table load returns. The `--validate` and `--stats` modes and `generate_statistics`, which only logs counts, are not modelled.
- Form state is compared by value. Field values are modelled as strings, a value being falsy exactly when it is empty; a numeric 0 that a form loaded from a stored publication could hold, falsy in JavaScript, is not modelled.
- Attachments.UploadAttachmentWithChunking: `uploadChunk` is an empty stub in the source, so only the slicing and the counter are modelled.
- Attachments.ReplaceAttachment: `archiveAttachmentVersion` only logs, so it appears as a recorded step with no effect.
- `maxFiles` (10) is declared but never enforced by the code, so the model does not enforce it either.
- `downloadAttachment`, `downloadAllAttachments`, `viewAttachment` and `initializeAttachmentWidget` are not modelled, because they only move bytes to the browser or wire up DOM events.

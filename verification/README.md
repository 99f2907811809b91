# Peling Chhokhor Digital Library — a Dafny model of the page catalogue

The library stores every page of a multi-volume book series as a `Page` row.
A row names its volume (1 to 21), its page number and its type. A page may be
`Scanned` (an image PDF) or `Typed` (a transcription PDF). A row holds exactly
one uploaded file, and each upload increments its version number. Visitors see
one row per page: the scanned one, or the typed one when no scan exists. Staff
see every row and can filter by type and by comments. Administrators upload
files through a form that records a change reason in the page's history.

This project models that core in Dafny:

- `wrappers.dfy`, `decimal.dfy` and `text.dfy` hold the helpers:
  - `Option`/`Result`;
  - decimal rendering and parsing of numbers;
  - Python's `strip` and `split`;
  - SQL's case-insensitive substring test.
- `validators.dfy` is the upload validator and the syntax check of the page-range filter.
- `models.dfy` holds the `Page` record:
  - the database's unique and check constraints;
  - the volume validators and the two file slots' validators;
  - the model's `clean`.
- `media.dfy` holds the upload path `volume_<v>/page_<p>/volume_<v>_page_<p>_<type><suffix>` and the file deletion that follows a row's deletion.
- `navigation.dfy` holds `find_next_page` and `find_previous_page`, for staff and for visitors.
- `range_filter.dfy` is the `page_no` filter, which accepts numbers and ranges such as `5, 10-14, 35`.
- `listing.dfy` holds the visitor and staff filter sets, including the visitor's removal of duplicate rows.
- `forms.dfy` holds the admin form: the fields it disables and the version and change reason that `save` records.
- `pagestore.dfy` covers the admin create, update and delete flows, over a table of rows and a set of stored files.
- `views.dfy` holds the list view's choice of table and filter set, the detail view's lookup and the detail context.
- `history.dfy` is the admin history view: each history entry annotated with the reason of the entry before it, plus the view's guards.
- `fixture.dfy` replays the repository's test scenarios on the model:
  - the four-page catalogue of the view tests;
  - the admin add, edit and delete of page 3 of volume 3.

The table is a `seq<Page>` in insertion order. The database ordering (volume, page, type) is a
separate relation, and `.first()`/`.last()` are its minimum and maximum. The
stored type is text, and `"Scanned"` sorts before `"Typed"`.

## Model

| member | source | states |
|---|---|---|
| Validators.CheckFile | core/validators.py:21-37 | An upload is accepted exactly when it is within the ceiling (if one is set) and its detected type is listed (if types are listed). A size violation is reported first, with the ceiling and the size. A type violation names the detected type. |
| Validators.UnsupportedTypeMessageNamesType | core/validators.py:11-15 | The content-type message embeds the rejected type, which can be read back from between the fixed prefix and suffix. |
| Validators.SameValidatorIsEquality | core/validators.py:39-44 | Validators compare equal exactly when their ceiling and their type list agree. |
| Validators.SameValidatorSameVerdict | core/validators.py:39-44 | Validators that compare equal give the same verdict on every upload. |
| Validators.IsPageTokenMatchesPattern | core/validators.py:50 | The token matcher accepts exactly the strings of `^\d+(-\d+)?$`: a number, or two numbers joined by one dash. |
| Validators.ValidatePageFilter | core/validators.py:46-64 | The filter value is accepted exactly when every token, once stripped, matches the pattern. An accepted value is returned unchanged. Otherwise the fixed "range or separate page numbers" message is raised. |
| Models.TypeRankIsNameOrder | books/models.py:40-45 | Ordering by the stored type name is the same as Scanned before Typed. |
| Models.KeyDeterminesRow | books/models.py:107-110 | Under the unique constraint, (volume, page, type) identifies at most one row. |
| Models.VolumeErrors | books/models.py:50-62 | A volume is free of errors exactly when it is in 1..21. Below 1 yields the "greater or equal to 1" message. Above 21 yields the "less or equal to 21" message. |
| Models.VolumeFieldErrors | books/models.py:50-62 | The errors the admin form reports for a volume. None exactly for 1..21. A negative volume gets only the form field's "greater than or equal to 0" message, because the model validators skip a field that already failed. Volume 0 gets the "greater or equal to 1" message, and above 21 gets the "less or equal to 21" message. |
| Models.SlotValidatorLimits | books/models.py:74-98 | Each slot accepts only PDFs: the scanned slot up to 10,240,000 bytes and the typed slot up to 1,024,000 bytes. |
| Models.FindKey | books/models.py:141-145 | The duplicate query returns a row with the given key if one exists, and nothing only when no row has that key. |
| Models.Clean | books/models.py:128-160 | Refuses a record with no file, or with both files. A blank type becomes Typed exactly when the typed slot is filled. A record at version 0 is refused when its key is already taken, and that refusal names the key. An accepted record has exactly one file and keeps the draft's page, volume, version, both slots and comments; only a blank type is filled in. |
| Models.CleanIgnoresRowsAboveZero | books/models.py:140-159 | A record whose version is above 0 gets the same verdict whatever the table holds: the duplicate query runs only at version 0. |
| Models.Where | books/models.py:141-145 | A queryset filter keeps exactly the rows that pass the test. |
| Navigation.First | books/models.py:171-175 | `.first()` is empty only on an empty queryset. Otherwise it returns a row with no row ordered before it. |
| Navigation.Last | books/models.py:190-201 | `.last()` is empty only on an empty queryset. Otherwise it returns a row with no row ordered after it. |
| Navigation.FindNextPage | books/models.py:166-180 | A staff member on a scanned row goes to its typed sibling when there is one. Otherwise: the first later page of the same volume, else the first row of a later volume, else nothing. The result is always a row of the table. |
| Navigation.FindPreviousPage | books/models.py:182-203 | A staff member on a typed row goes to its scanned sibling when there is one. Otherwise the last earlier row of the same volume, else of an earlier volume, else nothing. Visitors use the order with types reversed, so the scanned row of a page comes last. |
| Navigation.StaffNextIsSuccessor | books/models.py:166-180 | For staff, the next page is the immediate successor in the table's ordering, and nothing is returned only when no row follows. |
| Navigation.StaffPreviousIsPredecessor | books/models.py:182-197 | For staff, the previous page is the immediate predecessor in the table's ordering, and nothing is returned only when no row precedes. |
| Navigation.StaffNextThenPrevious | books/models.py:166-197 | For staff, going forward and then back returns to the starting row. |
| Navigation.StaffPreviousThenNext | books/models.py:166-197 | For staff, going back and then forward returns to the starting row. |
| Navigation.NonStaffNextIsVisible | books/models.py:166-180 | A visitor's next page is a row the visitor's list shows: the scanned one, or a typed one with no scan. |
| Navigation.NonStaffPreviousIsVisible | books/models.py:198-203 | A visitor's previous page is a row the visitor's list shows. |
| Navigation.VisibleAtLocationIsUnique | books/filters.py:28-34 | With unique keys, a page of a volume has at most one row visible to visitors. |
| Navigation.NonStaffNextThenPrevious | books/models.py:166-203 | For a visitor on a visible row, going forward and then back returns to the starting row. |
| Navigation.NonStaffPreviousThenNext | books/models.py:166-203 | For a visitor on a visible row, going back and then forward returns to the starting row. |
| Navigation.NextOfLastRowIsNone | books/models.py:176-180 | The last row of the catalogue has no next page. |
| Navigation.PreviousOfFirstRowIsNone | books/models.py:192-203 | The first row of the catalogue has no previous page. |
| RangeFilter.Range | core/filters.py:29-31 | `range(start, end)` holds exactly the numbers from start up to end - 1. It is empty when start is not below end. |
| RangeFilter.SplitRangeToken | core/filters.py:29-30 | Splitting a one-dash token at '-' yields the text before the dash and the text after it. |
| RangeFilter.TokenPages | core/filters.py:24-31 | A number token contributes that number. A range token contributes every number from its start to its end inclusive, and nothing when the range runs backwards. |
| RangeFilter.PageNumbers | core/filters.py:23-31 | The page list holds exactly the numbers that some token names. |
| RangeFilter.FilterAsWritten | core/filters.py:20-34 | With no tokens, or tokens that name no page, every row is returned. Otherwise the rows whose page is named are returned. |
| RangeFilter.Filter | core/filters.py:20-34 | With no tokens every row is returned. Otherwise exactly the rows whose page number some token names are returned. |
| RangeFilter.BackwardsRangeShowsEverything | core/filters.py:20-34 | "5-3" passes the validator, yet the filter as written returns every row. The corrected filter returns none. |
| RangeFilter.AsWrittenAgreesWhenAPageIsNamed | core/filters.py:20-34 | When the value is empty or its tokens name at least one page, the filter as written and the corrected one select the same rows. |
| RangeFilter.SameTokensSameNumbers | core/filters.py:23-31 | Two valid filter values made of the same stripped tokens, in any order and with any repetition, yield the same page numbers. |
| RangeFilter.FilterDependsOnTokenSet | core/filters.py:20-34 | Two valid filter values made of the same stripped tokens, in any order and with any repetition, select the same rows. This holds for the filter as written and for the corrected one. |
| Listing.FilterFields | books/filters.py:10-16 | Both filter sets offer the page and volume filters. Type and comments are offered exactly to staff. |
| Listing.Dedup | books/filters.py:28-34 | The visitor's queryset keeps exactly the scanned rows, plus the typed rows that have no scanned sibling. |
| Listing.DedupKeepsScanned | books/filters.py:32-34 | Every scanned row survives the duplicate removal. |
| Listing.DedupKeepsEveryLocation | books/filters.py:28-34 | Every page that has a row keeps some row after the duplicate removal. |
| Listing.DedupOnePerLocation | books/filters.py:28-34 | After the duplicate removal, no page of a volume is listed twice. |
| Listing.DedupIsVisibleRows | books/filters.py:28-34 | The visitor's list is exactly the rows visible to visitors, the same rule the detail view and navigation follow. |
| Listing.CommonFilters | books/filters.py:10-16 | Malformed page tokens yield the form error. Otherwise exactly the rows matching the volume filter and the page-range filter as written are kept; tokens that name no page, such as "5-3", restrict nothing. |
| Listing.StaffFilters | books/filters.py:37-43 | Exactly the rows matching the type choice and the case-insensitive comments test are kept. |
| Listing.DedupOfFiltered | books/filters.py:28-34 | Filtering by page and volume keeps or drops a page's rows together. Duplicate removal after filtering therefore matches visibility in the whole table. |
| Listing.ListPages | books/filters.py:10-49 | An error exactly when a page token is malformed. Staff get every row that matches all four filters. Visitors get every visible row that matches the page and volume filters. The page-range filter is the one as written, so tokens naming no page restrict nothing. |
| Listing.BackwardsRangeListsEverything | core/filters.py:20-34 | With the page filter "5-3" and no other filter, staff are listed every row and visitors every visible row. |
| Forms.DisabledFields | books/forms.py:13-23 | Adding disables nothing. Editing disables page, volume and the other type's file slot, and leaves the row's own slot and comments editable. |
| Forms.LeadingDigitsOfNumber | books/forms.py:29-32 | The number that opens a change reason is read back intact. |
| Forms.UploadReasonNamesVersion | books/forms.py:29-32 | The reason "Upload n..." names version n. |
| Forms.Save | books/forms.py:25-36 | A changed file raises the version by one and records "Upload n", or "Upload n: comments" when the comments changed. Without a file change the version stays and the reason is "No change.". A reason names an upload exactly when a file changed. |
| Media.FinalComponentAfterLastSlash | books/models.py:213 | The last component of a path holds no '/' and ends the path. It directly follows a '/' when the path has one, and is the whole path otherwise: everything after the last '/'. |
| Media.Suffix | books/models.py:30 | `Path.suffix`: empty, or a dot followed by text with no dot and no slash. |
| Media.SuffixIsLastDotTail | books/models.py:30 | The suffix is a tail of the file name's last component. It is non-empty exactly when that component's last '.' lies strictly inside it, neither first nor last. |
| Media.DirNameSplitsPath | books/models.py:213 | A path with a '/' is its directory part, a '/' and its last component. A path without one has an empty directory part. |
| Media.NoSlashInNumber | books/models.py:24-31 | A rendered number contains no slash. |
| Media.DirNameOfMediaPath | books/models.py:16-35 | A stored file lies in its page's directory, volume_v/page_p. |
| Media.MediaPathInjective | books/models.py:16-35 | Distinct (volume, page, type, suffix) give distinct stored names. The naming scheme never makes two rows share a file. |
| Media.MediaPathInPlace | books/models.py:16-35 | A stored name is the page directory plus the stem volume_v_page_p_type plus the upload's suffix. |
| Media.StemsExclusive | books/models.py:24-31 | A file name starts with the stem of at most one type. |
| Media.PageDirectoryInjective | books/models.py:24-31 | Different pages of different volumes have different directories. |
| Media.DeleteFilesAsWritten | books/models.py:206-216 | Deleting a row removes every file in its page directory and nothing outside it. |
| Media.DeleteFiles | books/models.py:206-216 | The corrected deletion removes, inside the row's page directory, only the files named with the row's own stem volume_v_page_p_type. Files outside the directory are kept. |
| Media.DeleteFilesRemovesOwnFile | books/models.py:206-216 | Deleting a row removes its own file. |
| Media.DeleteFilesRemovesLess | books/models.py:206-216 | The corrected deletion removes a subset of what the handler as written removes. |
| Media.DeleteAsWrittenRemovesSibling | books/models.py:206-216 | As written, deleting a scanned (typed) row also deletes the typed (scanned) file of the same page. |
| Media.DeleteFilesKeepsOtherRows | books/models.py:206-216 | The corrected deletion keeps the file of every other row. |
| PageStore.WithFile | books/models.py:16-35 | Storing an upload keeps the row's key and comments, and fills the row's own slot with the stored name. |
| PageStore.Create | books/models.py:50-160 | An add fails on a volume out of range (a negative one with the form's minimum message), then on an invalid file, then in `clean`: no file, both files, or a key already taken. Success appends one row with a fresh key and version 1. The reason is "Upload 1". The stored name is added to the files. |
| PageStore.UpdateAsWritten | books/models.py:140-159 | Under the duplicate check as written, an edit can succeed only on a row whose version is above 0. |
| PageStore.UpdateAsWrittenAgreesAboveZero | books/models.py:140-159 | On a row whose version is above 0, the change view as written gives exactly the corrected view's result, so every property of `Update` holds for it there. |
| PageStore.Update | books/forms.py:25-36 | An edit fails exactly on an out-of-range volume or an invalid new file. Success changes only the edited row and keeps its key. The version rises by one exactly when a file was uploaded. |
| PageStore.SaveEdit | books/forms.py:25-36 | The save after a successful `clean` replaces only the edited row and keeps its key and comments. The version rises by one, with an "Upload n" reason, exactly when a file was uploaded. An upload's stored name is added to the files. Without an upload the reason is "No change." and the slot and files are kept. |
| PageStore.Delete | books/models.py:206-216 | Deleting removes exactly that row from the table, and never adds a stored file. |
| PageStore.DeleteAsWritten | books/models.py:206-216 | Deleting removes exactly that row from the table. |
| PageStore.StoredFileInPlace | books/models.py:16-35 | A slot holding a generated name refers to a file in the row's own page directory. |
| PageStore.CreatePreservesConsistency | books/models.py:104-119 | A successful add keeps the constraints and keeps every row's file present. |
| PageStore.CreateTwiceIsRefused | books/models.py:140-159 | Submitting the same page again is refused as already existing. |
| PageStore.UpdateReportsNoDuplicate | books/models.py:140-159 | The corrected edit never reports a row as a duplicate of itself. |
| PageStore.UpdateAcceptsValidEdit | books/forms.py:25-36 | An edit with a valid volume and a valid file always succeeds. |
| PageStore.UpdateAsWrittenRefusesVersionZero | books/models.py:140-159 | As written, a row stored with version 0 cannot be edited: it is reported as a duplicate of itself. The corrected edit succeeds. |
| PageStore.UpdatePreservesConsistency | books/models.py:104-119 | A successful edit keeps the constraints and keeps every row's file present. |
| PageStore.ReuploadKeepsName | books/models.py:16-35 | Re-uploading a file with the same suffix keeps the row's stored name. |
| PageStore.UploadAddsOwnFile | books/models.py:16-35 | An upload adds exactly the row's own stored name to the files. |
| PageStore.ReuploadKeepsFiles | books/models.py:32-35 | Replacing a file with one of the same suffix leaves the set of stored files unchanged: the old file is overwritten, not duplicated. |
| PageStore.OthersKeepUniqueKeys | books/models.py:106-110 | Removing a row keeps the keys unique. |
| PageStore.OthersAreOtherKeys | books/models.py:106-110 | Every remaining row has a key different from the removed row's key. |
| PageStore.DeletePreservesConsistency | books/models.py:206-216 | The corrected delete keeps the constraints and every remaining row's file, and removes the deleted row's file. |
| PageStore.DeleteAsWrittenBreaksSibling | books/models.py:206-216 | As written, deleting one representation of a page leaves its sibling pointing at a deleted file. |
| Views.TableColumns | books/tables.py:7-41 | Both tables show page and volume. Type, upload number and comments appear exactly in the staff table. |
| Views.ListClasses | books/views.py:17-21 | Staff get the staff table and the staff filter set; everyone else gets the visitor ones. |
| Views.VisitorTableHidesStaffColumns | books/views.py:17-18 | The table chosen for visitors shows neither type, upload number nor comments. |
| Views.Get | books/views.py:47-58 | `.get()` succeeds exactly on a one-row queryset. It fails with DoesNotExist exactly on an empty queryset. |
| Views.DetailObject | books/views.py:35-64 | The object found is a row at the requested volume and page. For staff its type is the requested one. For visitors it is the visible row. A 404 is raised exactly when no such row exists. |
| Views.TypeNameInjective | books/models.py:40-45 | Distinct types have distinct stored names. |
| Views.AtLocationAtMostOne | books/views.py:39-58 | Under the unique constraint, a lookup by volume, page and type matches at most one row. |
| Views.DetailNeverServerError | books/views.py:35-64 | Under the unique constraint, the lookup never hits MultipleObjectsReturned. |
| Views.StaffDetailFindsRow | books/views.py:56-58 | Staff asking for a row's own volume, page and type get exactly that row. |
| Views.VisitorDetailIsListedRow | books/views.py:45-55 | A visitor's detail lookup returns a row exactly when that row appears in the visitor's list. |
| Views.Context | books/views.py:67-78 | The context holds the page. Its links are computed with the user's staff flag. For staff on a scanned page with a typed sibling, next is that sibling; on a typed page with a scanned sibling, previous is that sibling. Otherwise next is the first row at a later location in type order, and previous is the last row at an earlier location, in type order for staff and reverse type order for visitors. Each link is absent exactly when no such row exists. Visitors' links are visible rows. |
| Views.Detail | books/views.py:35-78 | The detail page renders exactly when the lookup finds a row, and it shows that row. |
| Views.ContextLinksResolve | books/views.py:67-78 | Every next or previous link, followed with the link's own volume, page and type, leads back to the same row. |
| History.ActionList | core/admin.py:27 | The history list holds exactly the records of the object. It is empty exactly when the object has none. |
| History.LatestBefore | core/admin.py:28-29 | The previous record is the most recent record strictly earlier, and is absent only when no record is earlier. |
| History.Annotate | core/admin.py:28-29 | Each entry keeps its record and carries the change reason of the most recent earlier record. The earliest entry carries none. |
| History.AnnotateNewestFirst | core/admin.py:28-29 | On a list ordered newest first, with distinct dates, each entry carries the reason of the entry that follows it. |
| History.HistoryViewAsWritten | core/admin.py:35-44 | As written, the view renders the history or fails with a server error. It never answers 404 or 403. |
| History.HistoryView | core/admin.py:35-44 | 404 exactly when the object neither exists nor has history. 403 exactly when it is found but may not be changed. Otherwise the object's annotated history is rendered. |
| History.UnknownObjectAsWritten | core/admin.py:35-41 | For an unknown object with no history, the view as written fails with a server error. The corrected view answers 404. |
| History.AsWrittenDiffersOnlyInErrors | core/admin.py:35-44 | Whenever the corrected view renders, the view as written renders the same page. Whenever it does not, the view as written fails with a server error. |
| Fixture.RowsAreValid | books/tests.py:282-318 | The four-row test catalogue satisfies the table's constraints. |
| Fixture.StaffListsEveryRow | books/tests.py:322-334 | Staff are listed exactly the four rows of the table ("Total: 4"). |
| Fixture.VisitorListsThreeRows | books/tests.py:336-347 | Visitors are listed exactly three rows ("Total: 3"): scanned 23, scanned 35 and scanned 36. The typed duplicate of page 23 is hidden. |
| Fixture.StaffNextOfScannedIsTyped | books/models.py:170-173 | On the fixture, staff go from scanned page 23 to its typed sibling. |
| Fixture.VisitorNextSkipsTyped | books/models.py:166-180 | On the fixture, visitors go from page 23 straight to page 35. |
| Fixture.PreviousOfPage35 | books/models.py:182-203 | On the fixture, staff go back from page 35 to the typed page 23, and visitors to the scanned page 23. |
| Fixture.VisitorDetailPrefersScanned | books/views.py:45-58 | On the fixture, a visitor asking for typed page 23 is shown the scanned row. Staff get the typed one. |
| Fixture.RangeTokenNames | core/filters.py:20-34 | "23-35" is valid and names exactly pages 23 to 35. |
| Fixture.StaffRangeFilter | books/tests.py:365-368 | Filtering by "23-35" lists three rows. |
| Fixture.MalformedTokens | books/tests.py:353-364 | "a", "22-a", "a-24", "22;24" and "22.24" are all rejected by the validator. |
| Fixture.CommaSeparatedTokens | books/tests.py:359-360 | "22-24,a" splits into two tokens, and the second one is rejected. |
| AdminScenario.StoredNameOfPage3 | books/tests.py:151-163 | A typed PDF for page 3 of volume 3 is stored as volume_3/page_3/volume_3_page_3_typed.pdf. |
| AdminScenario.AddCreatesVersionOne | books/tests.py:151-163 | The admin add succeeds and produces version 1 under the stored name. |
| AdminScenario.AddIsConsistent | books/models.py:104-119 | The table after the add satisfies the constraints. |
| AdminScenario.AddTwiceRefused | books/tests.py:165-182 | Adding the same page again is refused as already existing. |
| AdminScenario.ReuploadMakesVersionTwo | books/tests.py:184-209 | Uploading again keeps one file under the same name and raises the version to 2. |
| AdminScenario.DeleteRemovesFile | books/tests.py:211-219 | Deleting the page with the delete handler as written removes the row and its file, and leaves no file in `volume_3/page_3`. |
| AdminScenario.VolumeOutOfRange | books/tests.py:35-60 | Volumes 0 and 22 are refused with the matching message. |
| AdminScenario.WrongContentType | books/tests.py:62-87 | A PNG in the typed slot and a text file in the scanned slot are refused as unsupported types. |
| AdminScenario.WrongNumberOfFiles | books/tests.py:89-120 | No file, or two files, are refused by `clean`. |

## Left out

- Storage, the ORM and transactions. The table is a sequence of rows and the media directory a set of path names, so SQL, locking and concurrent requests are not modelled.
- File contents: the MIME type sniffed from the bytes is a parameter of each upload (`detectedType`).
- Validators.CheckFile: reports the raw ceiling and size, where the source renders them with a human-readable size formatter.
- Error reporting: Django collects the form errors of several fields at once. The model reports the first failure, in this order: volume, scanned file, typed file, `clean`.
- `Page.clean`: the link to the existing page's admin URL inside the message is not modelled, only the key it names.
- `__str__`, `get_absolute_url` and URL reversing: page and volume slugs are modelled as integers and the type slug as text. The URL converters and `unquote` of the admin object id are outside the model.
- The type field is read-only in the admin, so the model always infers the type from the filled slot. A blank own slot on delete, which would make the handler empty the media root, cannot arise in the model.
- Ties in history dates: `LatestBefore` picks the first record in sequence order, where the database picks an unspecified one. `AnnotateNewestFirst` assumes distinct dates.
- Permissions: `has_change_permission` is a boolean parameter. Login requirements, authentication, templates, widgets, crispy-form layout, table rendering and pagination are out of scope.
- Text: only ASCII digits and ASCII whitespace are modelled for `\d` and `str.strip`, and only ASCII letters for case-insensitive matching.
- The integer-range validators a database backend may add to an integer column are not modelled. For the volume, only the form field's minimum of 0 and the model's two validators are.
- `populate_pages` and the users application are not part of this model.
- The list page is modelled with the page-range filter as written (`RangeFilter.FilterAsWritten`). The corrected `RangeFilter.Filter` of the findings stands beside it and is proved to agree with it whenever the tokens name a page.

## Findings

| source | as written | input that shows it | evidently intended | confidence | as-written member | corrected member |
|---|---|---|---|---|---|---|
| books/models.py:206-216 | the pre-delete handler removes every file in the deleted row's directory volume_v/page_p | a page with a scanned and a typed row: deleting the scanned row also deletes volume_v_page_p_typed.pdf, and the typed row keeps pointing at it | remove only the deleted row's own file | not executed | PageStore.DeleteAsWrittenBreaksSibling | PageStore.DeletePreservesConsistency |
| books/models.py:140-159 | the duplicate check runs whenever version_no is 0, and the row being edited is not excluded from the query | a row created directly with version 0 (as the view tests do), edited in the admin: reported as already existing | check duplicates only for new rows, excluding the row itself | not executed | PageStore.UpdateAsWrittenRefusesVersionZero | PageStore.UpdateReportsNoDuplicate |
| core/filters.py:20-34 | a backwards range such as "5-3" passes the validator and yields an empty page list, which the base filter treats as no filter at all | `?page_no=5-3` lists every page | a range naming no page matches no row | not executed | RangeFilter.BackwardsRangeShowsEverything | RangeFilter.Filter |
| core/admin.py:41 | `http` and `PermissionDenied` are used but never imported (lines 1-7), so both guards end in a NameError | the history of an object id that neither exists nor has history records: a server error instead of 404 | 404 for an unknown object, 403 without change permission | not executed | History.UnknownObjectAsWritten | History.HistoryView |

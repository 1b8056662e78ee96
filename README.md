# Berlin libraries pipeline: cleaning and loading rules in Dafny

This project models the part of the Berlin libraries ETL pipeline that holds
actual rules. It covers two steps.

- The cleaning step, `clean_libraries`, works on raw OpenStreetMap library features.
  - It keeps the allow-listed columns and renames them to the target schema.
  - It merges each contact field (email, phone, website) with its `contact:*` alternative.
  - It derives a representative point and its longitude and latitude.
  - It replaces a missing name with `"unknown"`.
  - It keeps the first row of each (name, street, house number) key.
- The loading step, `insert_libraries`, builds one tuple per row in the order of `COLUMNS`.
  - The statement's column list comes from the same `COLUMNS`.
  - It reports the number of tuples it built.

A data frame is a `Table`: an ordered list of column names plus rows. Each row
maps every column name to a `Cell`. A cell is `None` for a missing value (the
frame library's NaN) or `Some(value)`. Each exception the source raises is a
`Failure` in a `Result`, not a precondition.
- A `KeyError` on an absent column is `MissingColumn`.
- A missing active geometry column is `NoGeometry`.
- `fillna` called without a fill value is `NoFillValue`.

Modules:

- `Masks` covers boolean-mask selection. It gives the positions a mask keeps and
  the elements at those positions. It also holds the order-preserving filter
  behind the column-selection comprehension.
- `Frames` defines tables, cells and the column operations the cleaning step uses
  (`t[c]`, `t.get(c)`, `fillna`, `rename`).
- `Dedup` models `drop_duplicates(keep="first")` as a `duplicated` mask
  followed by boolean indexing. It proves the keep-first guarantees.
- `Transform` models `clean_libraries`.
  - `CleanLibraries` is the step as written, including the error the contact merge raises when a `contact:*` column is absent.
  - `CleanLibrariesIntended` is the same step with that merge as evidently intended (see "## Findings").
  - Selection and renaming are table functions.
  - The column assignments of steps 3 to 6 only combine cells of the same row, so they are successive row maps.
  - The geometry library's centroid is a function parameter. A geometry is opaque.
- `CleanProps` states what `clean_libraries` promises about its output, in terms of the raw input.
- `Loader` models the tuple construction, the column list and the reported count of `insert_libraries`.

The source and its specification disagree about the representative point, and the model follows the source.
- The specification says every cleaned record has a representative point.
- The source takes the centroid of whatever the geometry column holds.
- So a row with a missing geometry gets a missing point and missing coordinates (`CentroidOf`).

The contact merge also differs from what it evidently intends.
- As written, `fillna(t.get("contact_email"))` raises when the `contact:email` column is absent, and likewise for phone and website.
- `CleanLibraries` follows the source: it fails with `NoFillValue` in that case.
- `CleanLibrariesIntended` keeps the primary value instead.
- The two agree on every table that has all three `contact:*` columns (`CleanProps.CleanLibrariesIntendedAgrees`).

## Model

| member | source | states |
|---|---|---|
| Transform.KeepColumnsDistinct | scripts/transform_libraries.py:15-38 | the allow-list has no repeated name and shares no name with the columns the step creates |
| Masks.FilterIn | scripts/transform_libraries.py:47 | the comprehension keeps exactly the listed names that are allowed, without repeats, in list order |
| Transform.SelectColumns | scripts/transform_libraries.py:47 | a column survives selection iff it is allow-listed and present; the survivors follow allow-list order; cells are unchanged; absent allow-listed columns raise nothing |
| Transform.RenameInjectiveOnKeep | scripts/transform_libraries.py:50-65 | no two allow-listed columns get the same new name, and no new name is one the step later creates |
| Frames.RenameTable | scripts/transform_libraries.py:50-65 | a renaming that merges no two columns renames column k in place, keeps names distinct, and moves every cell to its column's new name |
| Transform.RenameColumns | scripts/transform_libraries.py:50-65 | column k is renamed to Rename(column k), names stay distinct, and every cell moves to its renamed column |
| Transform.RenamedHasNoDerived | scripts/transform_libraries.py:47-65 | after selection and renaming, none of the six derived column names is taken |
| Transform.Renamed | scripts/transform_libraries.py:47-65 | selection then renaming keeps the table well-formed and keeps every row; what survives is stated by RenamedHas and RenamedCells |
| CleanProps.RenamedHas | scripts/transform_libraries.py:47-65 | an allow-listed raw column is present after renaming under its new name iff it was present before |
| CleanProps.RenamedCells | scripts/transform_libraries.py:47-65 | an allow-listed raw column's cells are, row for row, the cells of its renamed column; both are missing together |
| CleanProps.RenamedReadColumns | scripts/transform_libraries.py:47-83 | each of the ten columns the step reads is present after renaming, under its new name, iff the raw table has it |
| Transform.MergeContactAsWritten | scripts/transform_libraries.py:68-70 | the merge as written raises iff the fallback column is absent, with the no-fill-value error |
| Transform.FillContact | scripts/transform_libraries.py:68-70 | the target is the primary value when present, else the fallback column's value, and is present iff either is; no other cell changes |
| Transform.MergeContactAgreesWhenFallbackPresent | scripts/transform_libraries.py:68-70 | when the fallback column exists, the merge as written and the row-wise merge give the same cell in every row |
| Transform.MergeContactAsWrittenRaisesWithoutFallback | scripts/transform_libraries.py:68 | a one-row table with an email and no contact column makes the merge as written raise; the intended merge yields the email |
| Transform.MergeContacts | scripts/transform_libraries.py:68-70 | final_email, final_phone and website_url take the primary value when present, else the `contact_*` value; the primary wins when both are present; nothing else changes |
| Transform.AddCoordinates | scripts/transform_libraries.py:73-77 | geom_point is the geometry's representative point; longitude and latitude are that same point's x and y; nothing else changes |
| Transform.DefaultName | scripts/transform_libraries.py:80 | the name is never missing afterwards: a present name is unchanged and a missing one becomes "unknown"; nothing else changes |
| Transform.Prepare | scripts/transform_libraries.py:47-80 | steps 1 to 6 as written; failures are stated by CleanProps.CleanLibrariesFails, success by CleanProps.PrepareRows, and the merge by CleanProps.PrepareMergesAsWritten |
| Transform.PrepareIntended | scripts/transform_libraries.py:47-80 | steps 1 to 6 with the intended contact merge never fail for a missing fill value |
| Transform.PreparePoint | scripts/transform_libraries.py:73-80 | the geometry and name checks before the row-wise stages never fail for a missing fill value |
| Transform.PrepareAgrees | scripts/transform_libraries.py:68-70 | when every `contact_*` column exists after renaming, steps 1 to 6 as written and as intended give the same result |
| CleanProps.PrepareMergesAsWritten | scripts/transform_libraries.py:68-70 | wherever steps 1 to 6 succeed, each merged contact column equals the column that `t[p].fillna(t.get(f))` computes on the renamed table |
| CleanProps.PreparedMergesAsWritten | scripts/transform_libraries.py:68-70 | on a renamed table with both columns of every merge, the row-wise stages' merged cells equal the merge as written, row by row |
| Transform.PrepareRow | scripts/transform_libraries.py:68-80 | steps 3 to 6 add exactly the six derived columns to a row and remove none |
| Transform.Prepared | scripts/transform_libraries.py:68-80 | the derived columns follow the renamed ones in creation order, and each row is its own row passed through steps 3 to 6 |
| CleanProps.PrepareRowDerived | scripts/transform_libraries.py:68-80 | in a cleaned row the name, the merged contacts, the point and its coordinates are each given by the renamed row's cells, and street and house number are kept |
| CleanProps.PrepareRowCleaned | scripts/transform_libraries.py:47-80 | a row through steps 1 to 6 keeps every allow-listed raw value, renamed, and derives the new cells from the raw cells; its key equals the raw key with the name defaulted |
| CleanProps.PrepareSucceeds | scripts/transform_libraries.py:47-80 | with the five columns the row-wise stages read and the three `contact:*` columns present, steps 1 to 6 as written succeed with the row-wise stages applied to the renamed table |
| CleanProps.PrepareIntendedSucceeds | scripts/transform_libraries.py:47-80 | with the intended merge, the five columns suffice: no `contact:*` column is needed |
| CleanProps.PrepareRows | scripts/transform_libraries.py:41-80 | with all ten columns the step reads present, steps 1 to 6 succeed, keep every row in order, and turn each into its cleaned form |
| CleanProps.MissingRequiredNone | scripts/transform_libraries.py:68-83 | the reference error is absent iff all ten columns the step reads (the seven read with `[]` or as the key, and the three `contact:*` columns read with `get`) are present |
| CleanProps.MissingIntendedNone | scripts/transform_libraries.py:68-83 | the intended reference error is absent iff the seven columns read with `[]` or as the key are present |
| CleanProps.CleanLibrariesFails | scripts/transform_libraries.py:41-85 | `clean_libraries` fails iff a column it reads is absent, with the error for the first one in read order: email, contact:email (a missing fill value), phone, contact:phone, website, contact:website, geometry, name, street, house number |
| CleanProps.CleanLibrariesIntendedFails | scripts/transform_libraries.py:41-85 | the step with the intended merge fails iff one of the seven columns read with `[]` or as the key is absent, with the first one's error; an absent `contact:*` column is never an error |
| CleanProps.CleanLibrariesIntendedAgrees | scripts/transform_libraries.py:68-70 | on a table with every `contact:*` column, the step as written and as intended give the same result |
| CleanProps.CleanLibrariesRaisesWithoutContacts | scripts/transform_libraries.py:68-70 | on a table with the seven needed columns but without some `contact:*` column, the step as written fails with a missing fill value while the intended one succeeds |
| CleanProps.ContactsReportedFirst | scripts/transform_libraries.py:68-70 | with every other read column present, an absent `contact:*` column is reported as a missing fill value, and the intended step reports nothing |
| CleanProps.CleanedOutput | scripts/transform_libraries.py:47-85 | with the seven needed columns, deduplicating the row-wise result keeps the first row of each raw key, in order and in cleaned form, under the renamed columns followed by the derived ones |
| CleanProps.CleanLibrariesSucceeds | scripts/transform_libraries.py:41-85 | with all ten columns present, `clean_libraries` is the deduplication of the row-wise result, whose rows carry their raw rows' keys |
| CleanProps.CleanLibrariesOutput | scripts/transform_libraries.py:41-85 | with all ten columns present, the step succeeds; the output columns are the renamed ones followed by the derived ones. The output rows are the input rows at strictly increasing positions, each the first with its raw key, and each in cleaned form. There are no more output rows than input rows |
| CleanProps.CleanLibrariesIntendedOutput | scripts/transform_libraries.py:41-85 | the same output for the intended step, which needs only the seven columns |
| CleanProps.CleanLibrariesUniqueKeys | scripts/transform_libraries.py:83 | with all ten columns present, the step succeeds and no two output rows share a (name, street, house number) key |
| CleanProps.CleanLibrariesKeepsKeys | scripts/transform_libraries.py:83 | with all ten columns present, the step succeeds and every input row's key is the key of some output row |
| CleanProps.CleanLibrariesNamed | scripts/transform_libraries.py:80-83 | with all ten columns present, the step succeeds and no output row lacks a name |
| Transform.CleanLibraries | scripts/transform_libraries.py:41-85 | `clean_libraries` as written; its contract is stated by CleanLibrariesFails, CleanLibrariesOutput, CleanLibrariesUniqueKeys, CleanLibrariesKeepsKeys and CleanLibrariesNamed |
| Transform.CleanLibrariesIntended | scripts/transform_libraries.py:41-85 | the step with the intended merge never fails for a missing fill value; CleanLibrariesIntendedFails, CleanLibrariesIntendedAgrees and CleanLibrariesIntendedOutput state the rest |
| Transform.DropDuplicateLibraries | scripts/transform_libraries.py:83 | `drop_duplicates` on the key raises only a missing-column error (for street, then house number); the kept rows are stated by CleanProps.DeduplicateAt |
| Transform.LibraryKey | scripts/transform_libraries.py:83 | the subset (name, street, house number), missing cells included; CleanProps.PrepareRowCleaned ties it to the raw key |
| CleanProps.DropDuplicatesAfterPrepare | scripts/transform_libraries.py:83 | after the row-wise stages, the step fails iff street or house number is absent, with the first one's error |
| CleanProps.DroppedIffEarlierSameKey | scripts/transform_libraries.py:80-83 | a row is dropped iff an earlier row has the same defaulted key; a nameless row goes after an earlier nameless or "unknown" row at the same address |
| CleanProps.DeduplicateAt | scripts/transform_libraries.py:83 | when each cleaned row's key is its raw row's key, deduplicating the cleaned rows keeps exactly the rows at the positions deduplicating the raw rows keeps |
| CleanProps.DeduplicateCleaned | scripts/transform_libraries.py:83 | the k-th row kept by deduplicating cleaned rows is the cleaned form of the k-th raw row kept by deduplicating on the raw key |
| CleanProps.DeduplicateWellFormed | scripts/transform_libraries.py:83 | dropping duplicate rows keeps the table's columns and every kept row still has exactly those columns |
| Masks.Where | scripts/transform_libraries.py:83 | boolean indexing `xs[keep]` equals the element-by-element reference `Kept`: an element is kept iff its mask entry is true, in order |
| Masks.TakePositionsKept | scripts/transform_libraries.py:83 | taking the positions the mask keeps is boolean indexing element by element |
| Dedup.DuplicatedFrom | scripts/transform_libraries.py:83 | the left-to-right scan marks an element iff its key was seen before or occurs earlier in the scan |
| Dedup.Duplicated | scripts/transform_libraries.py:83 | an element is marked duplicate iff an earlier element has the same key |
| Dedup.Retained | scripts/transform_libraries.py:83 | retained positions are increasing and in range; each is the first with its key, and every first occurrence is retained |
| Dedup.DropDuplicates | scripts/transform_libraries.py:83 | the output is the input at the retained positions and is no longer than the input |
| Dedup.FirstWithKey | scripts/transform_libraries.py:83 | every element's key is carried by a retained element at or before it |
| Dedup.DropDuplicatesUniqueKeys | scripts/transform_libraries.py:83 | no two output elements share a key |
| Dedup.DropDuplicatesKeepsKeys | scripts/transform_libraries.py:83 | every input key is the key of some output element |
| Dedup.DropDuplicatesSameKeys | scripts/transform_libraries.py:83 | the set of output keys equals the set of input keys |
| Dedup.RetainedSameKeys | scripts/transform_libraries.py:83 | two sequences with equal keys at every position retain the same positions |
| Loader.Project | scripts/load_libraries_to_db.py:75 | the tuple exists iff the row has every column; entry i is the row's value for column i; otherwise the error names the first absent column |
| Loader.BuildValues | scripts/load_libraries_to_db.py:74-77 | values exist iff every row projects; there is one tuple per row in row order, each the row's projection |
| Loader.FirstFailingRow | scripts/load_libraries_to_db.py:74-77 | when building fails, the error is that of the first row that lacks a column; every earlier row projects |
| Loader.BuildValuesTable | scripts/load_libraries_to_db.py:74-77 | on a well-formed table, building fails iff there is a row and a column is absent, with the first absent column; otherwise entry i of tuple k is row k's value for column i |
| Loader.JoinColumns | scripts/load_libraries_to_db.py:68 | `", ".join(cols)`; Loader.SplitJoin is its inverse on comma-free names |
| Loader.SplitJoin | scripts/load_libraries_to_db.py:68 | splitting a `", "`-joined list of comma-free names gives the names back |
| Loader.ColumnListIsColumns | scripts/load_libraries_to_db.py:67-68 | the statement's column list reads back as exactly `COLUMNS`, in order |
| Loader.InsertLibraries | scripts/load_libraries_to_db.py:58-90 | on success the target is the libraries table and the reported count is the number of input rows |
| Loader.InsertLibrariesSpec | scripts/load_libraries_to_db.py:66-90 | the loader fails iff the table has a row and lacks a `COLUMNS` entry, before anything is sent. Otherwise it sends one 23-entry tuple per row in row order, entry i is the row's value for the statement's i-th column, and the reported count is the row count |
| Loader.ProjectIgnores | scripts/load_libraries_to_db.py:75 | changing or adding a column outside the list leaves every tuple unchanged |
| Loader.GeometryNotLoaded | scripts/load_libraries_to_db.py:27-51 | geometry and geom_point are not among the loaded columns |
| Loader.ContactsNotLoaded | scripts/load_libraries_to_db.py:27-51 | the unmerged contact columns (email, phone, website and their `contact_*` forms) are not among the loaded columns |

## Left out

- scripts/extract_osm_libraries.py and scripts/spatial_enrichment.py are not part of this model. One is a remote feature query and coordinate reprojection. The other is a spatial join delegated to the geometry library.
- The representative point is the geometry library's centroid. It is a function parameter, and geometries are opaque. Floating-point geometry and the coordinate reference system are not modelled.
- A geometry cell that holds something other than a shape gets a missing point (`CentroidOf`). A geometry column cannot hold such a value.
- Database effects are not modelled. This covers the connection from `DB_CONFIG`, `execute_values` paging, commit and close, and the `ON CONFLICT DO NOTHING` rule, which depends on a constraint defined outside this code. The model ends at the statement's column list, the tuples and the reported count.
- Printed messages are not modelled, except the count that the final message reports.
- Column dtypes and the type conversion `iterrows` may apply to a row's values are not modelled. A tuple entry is the row's cell as it is.
- Frame index labels are not modelled. Rows are positional, and `fillna` with a series aligns by position.
- The exceptions carry only the offending column, not the library's message.
- CleanLibraries: when both street and house number are absent, the frame library's `KeyError` lists both. The model reports only street, the first.
- Transform.RenameColumns: requires that every column is allow-listed, which selection always guarantees.
- Transform.Prepared: requires that the renamed table holds the five columns steps 3 to 6 read and none they create. `Prepare` establishes both before calling it (see Transform.RenamedHasNoDerived).
- Transform.MergeContactAsWritten: states only the error case and the length of the merged column. The cells are stated through Transform.MergeContactAgreesWhenFallbackPresent.

## Findings

| source | as written | input that shows it | evidently intended | confidence | as-written member | corrected member |
|---|---|---|---|---|---|---|
| scripts/transform_libraries.py:68-70 | `gdf["email"].fillna(gdf.get("contact_email"))` passes `None` when the `contact_email` column is absent, and `fillna` without a fill value raises; the same holds for phone and website | a raw table with an `email` column and no `contact:email` column, e.g. one row with email `a@b.example` (Transform.MergeContactAsWrittenRaisesWithoutFallback) | the fallback applies only when the `contact_*` column exists; otherwise the primary value is kept (`.get` was used to tolerate the missing column), as Transform.FillContact does row by row | not executed | CleanProps.CleanLibrariesRaisesWithoutContacts | Transform.CleanLibrariesIntended |

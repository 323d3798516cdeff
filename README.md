# Klinger document library and chat parser: a Dafny model

This project models the logic of the Klinger Insight Chat web application:
the document and version lifecycle, the category-path rules around it, the
backend mutation sequences, the read-side assembly of documents from table
rows, the list projection and counters, and the small parsers, serialisers
and index state machines beside them. React rendering, the Supabase client
and the webhook plumbing are not modelled.

One Dafny module stands for each source file:

- `DocumentsPage` (`documents_page.dfy`) is the in-memory documents page.
  A class `Page` holds the documents, the selected category and the staged
  uploads. Its methods are the page's handlers. Each one is stated through a
  pure function on the documents, and the lemmas beside those functions say
  what each handler does.
- `DocumentMutations` is the mutation hook. The class `Backend` holds the
  storage bucket and the documents, versions and categories tables as maps
  from row id to row. Each method performs the hook's writes in the hook's
  order. Only the failures the hook checks appear, as flags.
- `KlingerDocuments` is the read hook. The fetched tables and the fetch
  failures are its inputs.
- `DocumentList`, `DocumentSummary`, `SortDropdown`, `DocumentRow`,
  `VersionHistory`, `DocumentTypes`, `CategoryBreadcrumb`, `CategoryTree`
  and `CategorySelect` model the document components.
- `TableEditor` models the OCR table editor.
- `VectorText` models the OCR-to-text serialiser of the approve-pages
  function.
- `ImagePanel` is the chat image carousel. `ReviewPager` is the pager of the
  review page.
- `ChatScan`, `ChatImages` and `ChatMarkdown` model the chat reply parser.
  Each regular expression becomes a deterministic scanner: a pattern is
  tried at one position at a time, a search finds the leftmost match, and a
  global replace continues after each match. The `exec` loops, the
  successive replace passes and the placeholder list are methods with
  loops, proved equal to functions. The lemmas are stated about those
  functions.
- `Wrappers`, `Text`, `Seqs` and `Tables` hold the shared types and the
  JavaScript string and array behaviour the code relies on. That covers
  `split`, `join`, `trim`, ASCII case mapping, `replace` with a string
  pattern (first occurrence only), a stable `sort`, `filter` and `map`.

The behaviour follows the code, in the places where the code and the
system's design description disagree:

- A status is one of active, pending, inactive and deleted. No "processing"
  status exists.
- Deleting a document is a soft delete.
- `updateCategory` writes only the category. It creates no ancestor
  categories.
- `createCategory` is a plain insert that fails on error; it is not an
  upsert.
- The backend's `renameCategory` takes the new path, not a new name.
- The writes whose errors the hooks ignore are not checked, so a failed
  step does not abort the rest.
- No rule keeps a single version active.
  `DocumentsPage.RollbackToNewerKeepsOlderActive` shows two active versions
  after a rollback.
- A document read without versions gets a synthesised current version that
  is not in its version list.
- The document list applies only the search and status filters.

## Model

| member | source | states |
|---|---|---|
| SortDropdown.HandleSelect | src/components/documents/SortDropdown.tsx:29-37 | the new state sorts by the picked field; picking the current field flips the direction, picking another sorts it descending |
| SortDropdown.SelectSameTwice | src/components/documents/SortDropdown.tsx:29-37 | picking the current field twice gives back the original state |
| SortDropdown.SelectAwayAndBack | src/components/documents/SortDropdown.tsx:29-37 | leaving a field and picking it again sorts it descending whatever its old direction |
| SortDropdown.EveryFieldOffered | src/components/documents/SortDropdown.tsx:19-24 | each of the four fields is on the menu, and no field twice |
| DocumentList.MatchesSearch | src/components/documents/DocumentList.tsx:46-50 | the search hit test: the lower-cased query occurs in the lower-cased title or file name; DocumentList.FilteredDocumentsMembership uses it |
| DocumentList.SearchFilter | src/components/documents/DocumentList.tsx:44-52 | an empty query keeps every document; otherwise exactly those whose lower-cased title or file name contains the lower-cased query |
| DocumentList.StatusFilterOf | src/components/documents/DocumentList.tsx:54-57 | "all" keeps everything; a status keeps exactly the documents whose current version has it |
| DocumentList.Comparator | src/components/documents/DocumentList.tsx:60-76 | the sort comparison of the chosen field, negated for "desc"; DocumentList.ComparatorValid proves it a valid comparator |
| DocumentList.FilteredDocuments | src/components/documents/DocumentList.tsx:41-79 | the shown list; DocumentList.FilteredDocumentsArePassing, DocumentList.FilteredDocumentsSorted and DocumentList.FilteredDocumentsStable prove it a permutation of the passing documents, ordered by the comparator, with ties in input order |
| DocumentList.FiltersArePassing | src/components/documents/DocumentList.tsx:44-57 | search then status filter keep exactly the documents that pass both, in input order |
| DocumentList.FilteredDocumentsArePassing | src/components/documents/DocumentList.tsx:41-79 | the shown list is a permutation of the input documents that pass both filters |
| DocumentList.FilteredDocumentsMembership | src/components/documents/DocumentList.tsx:41-79 | a document is shown iff it is in the input and passes search and status filter |
| DocumentList.DescNegatesAsc | src/components/documents/DocumentList.tsx:75 | the "desc" comparison is the negated "asc" comparison |
| DocumentList.ComparatorValid | src/components/documents/DocumentList.tsx:60-76 | with a total-preorder collation every field and direction yields a total preorder |
| DocumentList.FilteredDocumentsStable | src/components/documents/DocumentList.tsx:59-76 | the sort is stable: for any document, the shown documents that compare equal to it appear in the same order as among the passing input documents |
| DocumentList.FilteredDocumentsSorted | src/components/documents/DocumentList.tsx:59-76 | the shown list is ordered by the chosen comparator |
| DocumentList.ExtensionSortKeepsOrder | src/components/documents/DocumentList.tsx:60-76 | sorting by "extension" compares everything equal, so the filtered order is kept |
| DocumentList.StatusCountsSum | src/components/documents/DocumentList.tsx:82-96 | the four status counts add up to the number of documents |
| DocumentList.CountWithStatusZero | src/components/documents/DocumentList.tsx:91-93 | a status count is zero iff no document's current version has that status |
| DocumentList.Counts | src/components/documents/DocumentList.tsx:82-96 | "all" is the number of documents and each status counter is the number of documents with that current status |
| DocumentSummary.Summarize | src/components/documents/DocumentSummary.tsx:13-26 | the total is the number of documents and pending, active and inactive count the documents with that current status; deleted documents count nowhere |
| DocumentSummary.CardsAddUpIffNoneDeleted | src/components/documents/DocumentSummary.tsx:14-23 | the three cards add up to at most the total, and to the total iff no document is deleted |
| DocumentSummary.HighlightIffSomePending | src/components/documents/DocumentSummary.tsx:36 | the pending card is highlighted iff some document's current version is pending |
| DocumentRow.VersionBadge | src/components/documents/DocumentRow.tsx:35-58 | the "{n} v" badge is shown iff there are at least two versions, and then shows their number |
| DocumentRow.MenuByStatus | src/components/documents/DocumentRow.tsx:86-103 | activate for inactive and deleted rows, deactivate for active ones, neither for pending, never both; delete unless deleted |
| DocumentRow.Menu | src/components/documents/DocumentRow.tsx:77-103 | the menu never offers both activate and deactivate |
| DocumentRow.RollbackEntryWithBadge | src/components/documents/DocumentRow.tsx:54-82 | the rollback entry is offered iff the version badge is shown |
| DocumentRow.MenuAfterAction | src/components/documents/DocumentRow.tsx:86-103 | after activating the row offers deactivate; after deactivating or deleting it offers activate; a deleted row no longer offers delete |
| VersionHistory.ConnectorsBetweenEntries | src/components/documents/VersionHistory.tsx:26-28 | every timeline entry but the last has a connector |
| VersionHistory.CanRollback | src/components/documents/VersionHistory.tsx:72 | an entry offers rollback when it is not the current one and not deleted; VersionHistory.RollbackOfferedNeedsTwoVersions uses it |
| VersionHistory.RollbackOfferedNeedsTwoVersions | src/components/documents/VersionHistory.tsx:72-90 | an entry offering rollback implies at least two versions, so the tip, the row's rollback entry and its badge are shown |
| VersionHistory.RollbackFromTimeline | src/components/documents/VersionHistory.tsx:26-72 | rolling back to an offered entry makes it the only current entry, which then offers no rollback, and every newer entry inactive and offering one |
| DocumentTypes.ExtensionDot | src/lib/documentTypes.ts:28 | the extension pattern matches at the returned position and, when none is returned, nowhere |
| DocumentTypes.StripExtension | src/lib/documentTypes.ts:28 | the result is a prefix of the file name |
| DocumentTypes.StripExtensionSpec | src/lib/documentTypes.ts:28 | the extension pattern matches at most once; the name is cut just before that match, or kept whole when there is none |
| DocumentTypes.DashesToSpaces | src/lib/documentTypes.ts:30 | same length; every '-' and '_' becomes a space and every other character stays |
| DocumentTypes.GenerateTitleSpec | src/lib/documentTypes.ts:26-33 | the title has the stem's length, no '-' or '_', its first character upper-cased and the rest of the stem unchanged |
| DocumentTypes.GenerateTitleFromFilename | src/lib/documentTypes.ts:26-33 | the title is no longer than the file name and has no '-' or '_' after its first character |
| DocumentTypes.TitleExampleLastExtension | src/lib/documentTypes.ts:28 | "a.tar.gz" gives "A.tar": only the last extension goes |
| DocumentTypes.TitleExampleDashes | src/lib/documentTypes.ts:26-33 | "my_file-v2.pdf" gives "My file v2" |
| DocumentTypes.TitleExampleTrailingDot | src/lib/documentTypes.ts:28 | "notes." keeps its trailing dot |
| DocumentTypes.TitleExampleDotInDirectory | src/lib/documentTypes.ts:28 | a dot before a '/' is not an extension |
| DocumentTypes.TitleExampleDotFile | src/lib/documentTypes.ts:28 | a dot-file such as ".pdf" gets the empty title |
| CategoryBreadcrumb.CrumbsOf | src/components/documents/CategoryBreadcrumb.tsx:32-52 | one crumb per segment |
| CategoryBreadcrumb.BreadcrumbOf | src/components/documents/CategoryBreadcrumb.tsx:10-21 | a trail is shown iff the category is non-empty and not the "uncategorized" key; that key shows "Okategoriserade" |
| CategoryBreadcrumb.LastCrumbIsCategory | src/components/documents/CategoryBreadcrumb.tsx:21-46 | a trail has one crumb per '/'-segment, only the last is highlighted, and it leads to the category itself |
| CategoryBreadcrumb.CrumbPathsChain | src/components/documents/CategoryBreadcrumb.tsx:33 | each crumb's path is the previous crumb's path, '/', and its own segment |
| CategoryBreadcrumb.CrumbIsAncestor | src/components/documents/CategoryBreadcrumb.tsx:33-40 | every crumb leads to the category or to a category above it |
| CategoryBreadcrumb.CrumbsOfPrefix | src/components/documents/CategoryBreadcrumb.tsx:33 | the crumbs of a shorter run of segments agree with the first crumbs of the longer run |
| CategoryBreadcrumb.FollowCrumb | src/components/documents/CategoryBreadcrumb.tsx:21-40 | following a crumb (with a usable path) shows exactly the trail up to that crumb: split and join round-trip |
| CategoryBreadcrumb.LeadingSlashCrumbShowsAll | src/components/documents/CategoryBreadcrumb.tsx:10-33 | a path "/a" yields an empty first crumb, and following it shows all documents |
| CategoryTree.SelectAll | src/components/documents/CategoryTree.tsx:31-32 | "Alla dokument" selects no category |
| CategoryTree.UncategorizedEntry | src/components/documents/CategoryTree.tsx:60-62 | the "Okategoriserade" entry is listed iff it has documents, and selects the "uncategorized" key |
| CategoryTree.IsParentOfSelected | src/components/documents/CategoryTree.tsx:101 | the selection lies strictly under the node; CategoryTree.ParentMeansStrictlyUnder states it as a path relation |
| CategoryTree.InitiallyExpanded | src/components/documents/CategoryTree.tsx:96-98 | the raw prefix test of the initial expansion; CategoryTree.RawPrefixExpandsNonAncestor shows it also opens a non-ancestor |
| CategoryTree.ParentMeansStrictlyUnder | src/components/documents/CategoryTree.tsx:100-101 | a node is parent of the selection iff the selection lies strictly below it in the '/'-path sense; never both selected and parent |
| CategoryTree.SelectedPathStartsExpanded | src/components/documents/CategoryTree.tsx:96-101 | the selected node and every node above it start expanded |
| CategoryTree.RawPrefixExpandsNonAncestor | src/components/documents/CategoryTree.tsx:96-101 | the raw prefix test also expands "A" for the selection "AB", though "A" is neither selected nor its parent |
| CategoryTree.TreeItem.constructor | src/components/documents/CategoryTree.tsx:96-99 | a node starts expanded iff the selection starts with its path |
| CategoryTree.TreeItem.Click | src/components/documents/CategoryTree.tsx:103-108 | clicking selects the node and opens it when it has children; nothing else changes |
| CategoryTree.TreeItem.Toggle | src/components/documents/CategoryTree.tsx:110-113 | toggling flips the expansion |
| CategorySelect.CanCreate | src/components/documents/CategorySelect.tsx:35-39 | the create test, the trimmed input being non-empty; CategorySelect.CanCreateIffNotBlank restates it as "some character is not white space" |
| CategorySelect.CanCreateIffNotBlank | src/components/documents/CategorySelect.tsx:35-39 | creating is enabled iff the input has a character that is not white space |
| CategorySelect.CreatedCategoryIsTrimmed | src/components/documents/CategorySelect.tsx:36-38 | a created category is non-empty, starts and ends with no white space, and trimming it again changes nothing |
| CategorySelect.NoCategoryChoice | src/components/documents/CategorySelect.tsx:63-72 | choosing "Ingen kategori" emits "", which highlights that entry, selects no category and expands none |
| CategorySelect.Picker.constructor | src/components/documents/CategorySelect.tsx:26-27 | the popover starts closed with an empty text field |
| CategorySelect.Picker.Type | src/components/documents/CategorySelect.tsx:95 | typing sets the text field and nothing else |
| CategorySelect.Picker.Select | src/components/documents/CategorySelect.tsx:31-34 | selecting emits the path and closes the popover; the text field is kept |
| CategorySelect.Picker.CreateCategory | src/components/documents/CategorySelect.tsx:36-42 | blank input changes nothing and emits nothing; otherwise the trimmed input is emitted, the field cleared and the popover closed |
| TableEditor.RemoveAt | src/components/review/TableEditor.tsx:46-64 | drops exactly the element at the index when there is one; otherwise the sequence is unchanged |
| TableEditor.CellOf | src/components/review/TableEditor.tsx:30 | the empty text is stored as an empty cell, any other text as itself |
| TableEditor.ColumnChange | src/components/review/TableEditor.tsx:15-19 | only the chosen header changes; rows unchanged; a rectangular grid stays rectangular |
| TableEditor.RowLabelChange | src/components/review/TableEditor.tsx:21-25 | only the chosen row's label changes; rectangular stays rectangular |
| TableEditor.CellChange | src/components/review/TableEditor.tsx:27-33 | only the chosen cell changes, to the text or to an empty cell for ""; rectangular stays rectangular |
| TableEditor.AddColumn | src/components/review/TableEditor.tsx:35-42 | a header "Kolumn {n+1}" is appended and every row gets one empty cell; rectangular stays rectangular |
| TableEditor.RemoveColumn | src/components/review/TableEditor.tsx:44-52 | with one column nothing changes; otherwise the header and each row's cell at the index are dropped; rectangular stays rectangular |
| TableEditor.AddRow | src/components/review/TableEditor.tsx:54-60 | a row "Rad {m+1}" with one empty cell per column is appended; rectangular stays rectangular |
| TableEditor.RemoveRow | src/components/review/TableEditor.tsx:62-65 | with one row nothing changes; otherwise the row at the index is dropped |
| TableEditor.AddThenRemoveColumn | src/components/review/TableEditor.tsx:35-52 | removing the column just added gives the grid back |
| TableEditor.AddThenRemoveRow | src/components/review/TableEditor.tsx:54-65 | removing the row just added gives the grid back |
| TableEditor.NeverEmptied | src/components/review/TableEditor.tsx:45-63 | the grid never loses its last column or its last row |
| TableEditor.CellRoundTrip | src/components/review/TableEditor.tsx:27-33 | a written cell reads back as the text, or as "" when it was emptied |
| ImagePanel.StepsStayInRange | src/components/chat/ImagePanel.tsx:21-27 | both buttons keep an index in range, "next" wrapping from the last image to the first and "previous" from the first to the last |
| ImagePanel.PreviousIndex | src/components/chat/ImagePanel.tsx:21-23 | from an index in range, "previous" is the index one step back around the circle of images |
| ImagePanel.NextIndex | src/components/chat/ImagePanel.tsx:25-27 | from an index in range, "next" is the index one step on around the circle of images |
| ImagePanel.StepsAreInverse | src/components/chat/ImagePanel.tsx:21-27 | "previous" undoes "next" and "next" undoes "previous" |
| ImagePanel.NextTimesAdvances | src/components/chat/ImagePanel.tsx:25-27 | short of the last image, k presses of "next" move k places on |
| ImagePanel.NextTimesSplit | src/components/chat/ImagePanel.tsx:25-27 | a presses then b presses is a + b presses |
| ImagePanel.FullRoundReturns | src/components/chat/ImagePanel.tsx:25-27 | one press per image comes back to the starting image |
| ImagePanel.Carousel.constructor | src/components/chat/ImagePanel.tsx:19 | the carousel starts at the first image |
| ImagePanel.Carousel.Previous | src/components/chat/ImagePanel.tsx:21-23 | the index becomes the previous index, wrapping |
| ImagePanel.Carousel.Next | src/components/chat/ImagePanel.tsx:25-27 | the index becomes the next index, wrapping |
| ImagePanel.Carousel.SelectThumbnail | src/components/chat/ImagePanel.tsx:109 | a thumbnail click jumps to its image |
| ReviewPager.StepsClamp | src/pages/Review.tsx:29-35 | with at least one page both buttons keep the index in range, stopping at the ends, and each undoes the other away from the ends |
| ReviewPager.PreviousIndex | src/pages/Review.tsx:29-31 | "previous" is the larger of 0 and one less than the index |
| ReviewPager.NextIndex | src/pages/Review.tsx:33-35 | "next" is the smaller of the last index and one more than the index |
| ReviewPager.NextOnEmptyQueue | src/pages/Review.tsx:33-35 | with no pages "next" sets the index to -1 |
| ReviewPager.NextTimesStopsAtLast | src/pages/Review.tsx:33-35 | k presses of "next" move k pages on, stopping at the last page |
| ReviewPager.ApproveAllIds | src/pages/Review.tsx:37-39 | "approve all" sends the id of every queued page, in queue order |
| ReviewPager.Pager.constructor | src/pages/Review.tsx:24 | the pager starts at the first page |
| ReviewPager.Pager.Previous | src/pages/Review.tsx:29-31 | the index becomes the clamped previous index |
| ReviewPager.Pager.Next | src/pages/Review.tsx:33-35 | the index becomes the clamped next index |
| VectorText.LineFor | supabase/functions/approve-ocr-pages/index.ts:55-60 | a filled value yields its "- product: value (meaning)" line, anything else no line |
| VectorText.AppendValueLines | supabase/functions/approve-ocr-pages/index.ts:54-61 | the loop appends exactly the lines of the filled values, in column order |
| VectorText.AppendRow | supabase/functions/approve-ocr-pages/index.ts:46-62 | one row appends its header when its category changes, its "### " label and its value lines, and the category in force moves on |
| VectorText.ConvertJsonToVectorText | supabase/functions/approve-ocr-pages/index.ts:34-67 | the text built by appending equals the specification text of the page |
| VectorText.NoTableGivesContext | supabase/functions/approve-ocr-pages/index.ts:36-66 | without a flagged table the text is the trimmed page context, "" when there is none |
| VectorText.VectorTextOf | supabase/functions/approve-ocr-pages/index.ts:34-67 | the stored text neither starts nor ends with white space, so trimming it again changes nothing |
| VectorText.RowsText | supabase/functions/approve-ocr-pages/index.ts:42-63 | the rows' text, row by row in order; VectorText.AppendRow and VectorText.ConvertJsonToVectorText prove the loop builds exactly it |
| VectorText.CategoryAfterIsLastFilled | supabase/functions/approve-ocr-pages/index.ts:43-50 | the category in force after some rows is the last filled category among them, "" if none |
| VectorText.HeaderOnlyOnChange | supabase/functions/approve-ocr-pages/index.ts:47-50 | a row opens a header iff its category is filled and differs from the one in force; an unfilled category keeps the one in force, and a repeated category opens no header |
| VectorText.EmptyValuesWriteNothing | supabase/functions/approve-ocr-pages/index.ts:54-61 | a row without filled values writes no value line |
| VectorText.OneValueLine | supabase/functions/approve-ocr-pages/index.ts:56-59 | one value with a grouped column and a legend entry gives "- {group} - {label}: {value} ({meaning})" |
| KlingerDocuments.NewestFirstIsComparator | src/hooks/useKlingerDocuments.ts:13-15 | the newest-first comparison handed to sort is a valid comparator (antisymmetric sign, transitive) |
| KlingerDocuments.SortedVersions | src/hooks/useKlingerDocuments.ts:13-15 | the sorted copy is a permutation of the version rows, ordered by creation time, newest first |
| KlingerDocuments.FirstActive | src/hooks/useKlingerDocuments.ts:17 | the found position holds an active row and no earlier row is active; no result means no row is active |
| KlingerDocuments.MapVersion | src/hooks/useKlingerDocuments.ts:19-25 | a version keeps the row's id, storage path, creation time and status; its file name is the last path segment, or the document's file name when that is empty |
| KlingerDocuments.FallbackVersion | src/hooks/useKlingerDocuments.ts:34-40 | a document without versions gets a current version built from its own id, file name, path, time and status |
| KlingerDocuments.MapSupabaseVersions | src/hooks/useKlingerDocuments.ts:13-41 | the document lists exactly its version rows (as a multiset), each mapped, newest first; header fields come from the row and an empty category becomes no category |
| KlingerDocuments.MapSupabaseToDocument | src/hooks/useKlingerDocuments.ts:10-43 | the document keeps the row's id, name and file name, and has one version per version row |
| KlingerDocuments.PickCurrent | src/hooks/useKlingerDocuments.ts:17-40 | with rows, the current version is the mapping of one of them; with none, it is the fallback built from the document row |
| KlingerDocuments.CurrentIsFirstActive | src/hooks/useKlingerDocuments.ts:17-34 | with an active row the current version is the first active one in newest-first order |
| KlingerDocuments.CurrentIsNewest | src/hooks/useKlingerDocuments.ts:17-34 | with rows but none active the current version is the newest row |
| KlingerDocuments.CurrentFallback | src/hooks/useKlingerDocuments.ts:34-41 | with no rows the current version is synthesised from the document and the version list is empty |
| KlingerDocuments.LiveDocuments | src/hooks/useKlingerDocuments.ts:50-54 | the documents query returns exactly the rows not marked deleted, newest first |
| KlingerDocuments.VersionsOf | src/hooks/useKlingerDocuments.ts:71 | the per-document filter keeps exactly the version rows carrying that document id |
| KlingerDocuments.VersionsOfFetched | src/hooks/useKlingerDocuments.ts:60-71 | filtering the rows fetched for the listed ids gives the same rows as filtering the whole table, for a listed document |
| KlingerDocuments.AssembleAt | src/hooks/useKlingerDocuments.ts:68-73 | the i-th document is built from the i-th live row and exactly the version rows with its id |
| KlingerDocuments.Assemble | src/hooks/useKlingerDocuments.ts:59-73 | one document per listed row, in the same order, with its id and name |
| KlingerDocuments.ListDocuments | src/hooks/useKlingerDocuments.ts:46-73 | a successful read has exactly as many documents as there are live rows |
| KlingerDocuments.ListDocumentsFailure | src/hooks/useKlingerDocuments.ts:56-65 | the read fails iff the documents fetch fails, or a live document exists and the versions fetch fails |
| KlingerDocuments.ListDocumentsShape | src/hooks/useKlingerDocuments.ts:53-68 | a successful read has one document per live row, ordered newest first |
| KlingerDocuments.ListDocumentsContents | src/hooks/useKlingerDocuments.ts:68-73 | every document of a successful read comes from a live row with exactly its own version rows |
| KlingerDocuments.ListDocumentsAt | src/hooks/useKlingerDocuments.ts:53-73 | a successful read lists the live rows newest first as a permutation of them, and its i-th document is built from the i-th live row with exactly that row's version rows |
| DocumentMutations.SafeName | src/hooks/useDocumentMutations.ts:6 | the safe name has the file name's length; each letter, digit, '.' and '-' is kept and every other character becomes '_' |
| DocumentMutations.SafeNameIdempotent | src/hooks/useDocumentMutations.ts:6 | a safe name holds only safe characters and '_', and making it safe again changes nothing |
| DocumentMutations.StoragePath | src/hooks/useDocumentMutations.ts:5-7 | the storage path lies in the user's folder "documents/{userId}/" |
| DocumentMutations.StoragePathShape | src/hooks/useDocumentMutations.ts:5-7 | the storage path lies under "documents/{userId}/" and its last segment is the timestamp, '_' and the safe name |
| DocumentMutations.ExtensionOf | src/hooks/useDocumentMutations.ts:34 | the extension is a dot-free suffix of the name, preceded by '.' when shorter than it, and the whole name when it has no '.' |
| DocumentMutations.VersionLabelRoundTrip | src/hooks/useDocumentMutations.ts:108 | the new version's label is decimal digits followed by ".0" whose integer part reads back as the count plus one |
| DocumentMutations.VersionLabel | src/hooks/useDocumentMutations.ts:108 | the label ends in ".0" and has at least one digit before it |
| DocumentMutations.SetVersionStatus | src/hooks/useDocumentMutations.ts:92-95 | the status update touches exactly the listed rows, only their status, and removes none |
| DocumentMutations.VersionIdsOf | src/hooks/useDocumentMutations.ts:210-213 | the ids selected by document id are exactly the version rows of that document |
| DocumentMutations.RollbackVersionRows | src/hooks/useDocumentMutations.ts:176-190 | the rollback writes keep exactly the table's row ids: no row is added or removed |
| DocumentMutations.RollbackVersionRowsSpec | src/hooks/useDocumentMutations.ts:177-190 | after a rollback the target is active even when also listed as newer, the other listed rows are inactive and every other row is unchanged |
| DocumentMutations.RenameCategoryRowPath | src/hooks/useDocumentMutations.ts:263-265 | a category at or under the old path gets the same new path that the documents page gives a document there |
| DocumentMutations.RenameCategoryRow | src/hooks/useDocumentMutations.ts:263-270 | a renamed category row changes only its path and name |
| DocumentMutations.RenameCategoryRowName | src/hooks/useDocumentMutations.ts:269 | a renamed category is named after the last segment of its new path, or keeps its name when that is empty; nothing else changes |
| DocumentMutations.RenameCategoryRows | src/hooks/useDocumentMutations.ts:256-272 | exactly the rows at or under the old path are renamed, the others are unchanged, and no row is added or removed |
| DocumentMutations.DeleteCategoryRows | src/hooks/useDocumentMutations.ts:244-247 | exactly the rows at or under the path are removed and the remaining rows are unchanged |
| DocumentMutations.RenameAfterDeleteIsNoop | src/hooks/useDocumentMutations.ts:244-261 | after deleting a category subtree, renaming it finds nothing to change |
| DocumentMutations.Backend.constructor | src/hooks/useDocumentMutations.ts:17-18 | the bucket and the three tables start empty |
| DocumentMutations.Backend.UploadFileToStorage | src/hooks/useDocumentMutations.ts:4-15 | a failed upload writes nothing and fails; otherwise the file is stored under its storage path, which is returned; no table changes |
| DocumentMutations.Backend.UploadDocument | src/hooks/useDocumentMutations.ts:21-68 | each failure stops at its step with only the earlier writes done; on success a pending document and its pending version "1.0" with the same path are inserted and the document row returned |
| DocumentMutations.Backend.ReplaceDocument | src/hooks/useDocumentMutations.ts:73-126 | after a successful upload the given version becomes inactive, a pending version labelled one more than the document's version count is added and the document row takes the new title, category, path, size and pending status |
| DocumentMutations.Backend.UpdateStatus | src/hooks/useDocumentMutations.ts:131-150 | the version and the document both take the new status; nothing else changes |
| DocumentMutations.Backend.UpdateCategory | src/hooks/useDocumentMutations.ts:155-160 | only the document's category changes |
| DocumentMutations.Backend.RollbackVersion | src/hooks/useDocumentMutations.ts:166-202 | the version rows follow the rollback rule; the document becomes active with the target's path only when the target row exists |
| DocumentMutations.Backend.DeleteDocument | src/hooks/useDocumentMutations.ts:207-220 | every version of the document and the document itself are marked deleted and no row is removed |
| DocumentMutations.Backend.CreateCategory | src/hooks/useDocumentMutations.ts:225-236 | one category row is inserted, or the insert fails and nothing is written |
| DocumentMutations.Backend.DeleteCategory | src/hooks/useDocumentMutations.ts:241-248 | the categories table loses exactly the subtree; the document rows keep their category strings |
| DocumentMutations.Backend.RenameCategory | src/hooks/useDocumentMutations.ts:253-273 | with a failed or empty read nothing is written; otherwise the categories table becomes the renamed table, whatever order the rows are updated in |
| DocumentsPage.NewCategoryPath | src/pages/Documents.tsx:101 | a category created under a non-empty parent is the parent, '/' and the name; without one it is the name itself |
| DocumentsPage.NewCategoryLastSegment | src/pages/Documents.tsx:101 | a new category's last segment is the name it was created with |
| DocumentsPage.RenamedPath | src/pages/Documents.tsx:115-117 | the renamed path keeps everything up to the last '/' of the old path and ends in the new name |
| DocumentsPage.RenamedPathBack | src/pages/Documents.tsx:115-117 | renaming a path and then renaming it back to its old last segment restores it |
| DocumentsPage.RenamePath | src/pages/Documents.tsx:123-128 | the renamed category itself becomes the new path, one under it gets the new path in front of its rest, every other path is unchanged |
| DocumentsPage.RenameDocCategory | src/pages/Documents.tsx:122-129 | an uncategorized document is untouched; otherwise only its category is renamed |
| DocumentsPage.RenameEffect | src/pages/Documents.tsx:114-131 | a rename changes only the category of documents at or under the old path, as the rename rule says, and no other field |
| DocumentsPage.RenameCategoryInDocs | src/pages/Documents.tsx:120-131 | the rename keeps the number of documents |
| DocumentsPage.RenameSkipsSibling | src/pages/Documents.tsx:126 | renaming "A/B" leaves the sibling "A/BC" alone |
| DocumentsPage.RenamePathBackUnder | src/pages/Documents.tsx:126-127 | a path under the old one moves under the new one and back again unchanged |
| DocumentsPage.RenamePathBack | src/pages/Documents.tsx:123-128 | renaming a path there and back restores it unless it already lay under the new path only |
| DocumentsPage.RenameCategoryRoundTrip | src/pages/Documents.tsx:114-131 | renaming a category and then renaming it back restores every document, when nothing already lay under the new name alone |
| DocumentsPage.RenameSelection | src/pages/Documents.tsx:134-138 | no selection stays none; a selected category follows the rename rule |
| DocumentsPage.ClearCategoryUnder | src/pages/Documents.tsx:147-151 | a document at or under the deleted category loses its category; every other document is unchanged |
| DocumentsPage.DeleteCategoryInDocs | src/pages/Documents.tsx:143-153 | every document goes through the delete rule and the list keeps its length and order |
| DocumentsPage.DeleteSelection | src/pages/Documents.tsx:156-158 | a selection at or under the deleted category is cleared; any other stays |
| DocumentsPage.UncategorizedCount | src/pages/Documents.tsx:78-81 | the uncategorized counter is at most the number of documents and is 0 iff every document has a category |
| DocumentsPage.DeleteCategoryCount | src/pages/Documents.tsx:143-153 | deleting a category raises the uncategorized counter by exactly the number of documents at or under it |
| DocumentsPage.FindByFilename | src/pages/Documents.tsx:168-170 | the found document is the first whose file name equals the chosen name up to case; none is found iff no name matches |
| DocumentsPage.StagingCategory | src/pages/Documents.tsx:175-177 | a staged file gets the selected category unless none, the empty one or the uncategorized entry is selected |
| DocumentsPage.StageFiles | src/pages/Documents.tsx:166-181 | one staged file per chosen file |
| DocumentsPage.StageFilesSpec | src/pages/Documents.tsx:166-181 | each staged file gets a title generated from its name, is a replacement iff some document has its name up to case, and then points at the first such document |
| DocumentsPage.UpdateStagedTitle | src/pages/Documents.tsx:186-190 | only the staged file at the index gets the new title |
| DocumentsPage.UpdateStagedCategory | src/pages/Documents.tsx:192-196 | only the staged file at the index gets the new category |
| DocumentsPage.RemoveStaged | src/pages/Documents.tsx:198-200 | the staged file at the index is dropped and the rest keep their order; an index out of range changes nothing |
| DocumentsPage.RemoveAfterEdit | src/pages/Documents.tsx:186-200 | editing the title or the category of a staged file and then removing it is the same as removing it |
| DocumentsPage.UploadedVersion | src/pages/Documents.tsx:212-244 | an uploaded file's version is pending, carries the file's name and the upload time |
| DocumentsPage.ReplaceWithNewVersion | src/pages/Documents.tsx:207-233 | the new version goes in front and becomes current; the old current version turns inactive; title and category come from the staged file |
| DocumentsPage.NewUploadDocument | src/pages/Documents.tsx:239-254 | a new document has the staged title, name and category and one pending version, which is current |
| DocumentsPage.ApplyStaged | src/pages/Documents.tsx:206-257 | a replacement updates the documents with the named id in place; any other upload puts a new document at the front |
| DocumentsPage.ApplyAllStaged | src/pages/Documents.tsx:206-258 | the staged files applied in order, the i-th with the i-th generated ids; DocumentsPage.ApplyAllStagedLength proves it adds exactly one document per new upload, and DocumentsPage.ReplacementTouchesOnlyTarget what each replacement does |
| DocumentsPage.ApplyAllStagedLength | src/pages/Documents.tsx:206-258 | confirming adds exactly one document per new upload and none per replacement |
| DocumentsPage.ReplacementTouchesOnlyTarget | src/pages/Documents.tsx:207-236 | a replacement leaves other documents alone and gives its target exactly one more version, pending |
| DocumentsPage.ChangeDocumentCategory | src/pages/Documents.tsx:270-275 | only the named document changes, and an empty category is stored as none |
| DocumentsPage.ChangeToEmptyUncategorizes | src/pages/Documents.tsx:273 | choosing the empty category leaves the document uncategorized |
| DocumentsPage.SetCurrentStatusOf | src/pages/Documents.tsx:283-289 | the current version and its entry in the history take the new status; nothing else changes |
| DocumentsPage.SetCurrentStatus | src/pages/Documents.tsx:279-326 | the list keeps its length and ids; a document with the named id becomes `SetCurrentStatusOf` of itself with the new status, and every other document is unchanged |
| DocumentsPage.SetCurrentStatusEffect | src/pages/Documents.tsx:279-326 | activate, deactivate and delete touch only their target; its current version and the history entry with the same id take the new status, the other entries and all other fields are kept, and a delete keeps the document in the list |
| DocumentsPage.VersionIndex | src/pages/Documents.tsx:339-341 | the index is that of the first version with the id, or -1 when there is none |
| DocumentsPage.RollbackDoc | src/pages/Documents.tsx:339-360 | the version history keeps its length, and only the current version and the history change |
| DocumentsPage.RollbackSpec | src/pages/Documents.tsx:339-360 | an unknown version changes nothing; otherwise newer versions become inactive, the target becomes active and current, and older ones keep their status |
| DocumentsPage.Rollback | src/pages/Documents.tsx:334-362 | the list keeps its length and ids; a document with the named id becomes `RollbackDoc` of itself, and every other document is unchanged |
| DocumentsPage.RollbackEffect | src/pages/Documents.tsx:334-362 | in the list, the rolled-back document ends with the target version active and current, the newer versions inactive and the older ones as they were; an unknown version leaves it unchanged |
| DocumentsPage.RollbackToNewerKeepsOlderActive | src/pages/Documents.tsx:345-354 | rolling back to a newer version leaves an older active version active, so two versions can be active at once |
| DocumentsPage.Page.constructor | src/pages/Documents.tsx:47-62 | the page starts with the given documents, no selected category and nothing staged |
| DocumentsPage.Page.Uncategorized | src/pages/Documents.tsx:78-81 | the counter is at most the number of documents and is 0 iff every document has a category |
| DocumentsPage.Page.CreateCategory | src/pages/Documents.tsx:100-112 | the new path becomes the selection and the documents do not change |
| DocumentsPage.Page.RenameCategory | src/pages/Documents.tsx:114-141 | the documents and the selection follow the rename rule |
| DocumentsPage.Page.DeleteCategory | src/pages/Documents.tsx:143-164 | the documents and the selection follow the delete rule |
| DocumentsPage.Page.FilesSelected | src/pages/Documents.tsx:166-184 | the staged list is rebuilt from the chosen files |
| DocumentsPage.Page.EditStagedTitle | src/pages/Documents.tsx:186-190 | the staged list takes the new title at the index |
| DocumentsPage.Page.EditStagedCategory | src/pages/Documents.tsx:192-196 | the staged list takes the new category at the index |
| DocumentsPage.Page.RemoveStagedFile | src/pages/Documents.tsx:198-200 | the staged file at the index is removed |
| DocumentsPage.Page.ConfirmUpload | src/pages/Documents.tsx:202-268 | the staged files are applied in order, one document is added per new upload, and the staged list is emptied |
| DocumentsPage.Page.ChangeCategory | src/pages/Documents.tsx:270-277 | the documents follow the category change |
| DocumentsPage.Page.Activate | src/pages/Documents.tsx:279-294 | the target's current version becomes active |
| DocumentsPage.Page.Deactivate | src/pages/Documents.tsx:296-311 | the target's current version becomes inactive |
| DocumentsPage.Page.Delete | src/pages/Documents.tsx:313-332 | the target's current version is marked deleted and the list keeps its length |
| DocumentsPage.Page.RollbackTo | src/pages/Documents.tsx:334-369 | the documents follow the rollback rule |
| ChatScan.RunOf | src/lib/n8nChat.ts:33-101 | a character-class run ends at the first character outside the class or at the end of the text, and every character before that is in the class |
| ChatScan.RunOfStops | src/lib/n8nChat.ts:33-101 | a run is determined by where the class first fails, so any position with that property is the run's end |
| ChatScan.ClickableAt | src/lib/n8nChat.ts:33-74 | a clickable image match is non-empty and lies inside the text |
| ChatScan.PlainImageAt | src/lib/n8nChat.ts:35 | a plain image match is non-empty, lies inside the text and has no link URL |
| ChatScan.LinkAt | src/lib/n8nChat.ts:95 | a markdown link match is non-empty and lies inside the text |
| ChatScan.RawUrlAt | src/lib/n8nChat.ts:101 | a bare URL match is non-empty and lies inside the text |
| ChatScan.LazyClose | src/lib/n8nChat.ts:109-112 | the lazy `.+?` closing: a closing found is the delimiter itself, at or after the start, with no line terminator before it; laziness and the none case are in ChatScan.LazyCloseSpec |
| ChatScan.LazyCloseSpec | src/lib/n8nChat.ts:109-112 | the closing found is the first delimiter from the start (no delimiter starts before it); nothing is found iff no delimiter starts before the first line terminator or the end |
| ChatScan.NewlineRunEnd | src/lib/n8nChat.ts:92 | a run of line feeds is matched only when it is non-empty and inside the text |
| ChatScan.DelimitedEnd | src/lib/n8nChat.ts:109-112 | a delimited emphasis match is non-empty and lies inside the text |
| ChatScan.CodeSpanEnd | src/lib/n8nChat.ts:113 | a code span match is non-empty and lies inside the text |
| ChatScan.Search | src/lib/n8nChat.ts:38-76 | the match found is the leftmost one at or after the start; none is found iff the pattern matches at no position |
| ChatScan.MatchesFrom | src/lib/n8nChat.ts:38-76 | the successive matches of a global scan are real matches, in order and without overlap; the first is the leftmost from the start, and there is none iff the pattern matches nowhere from the start |
| ChatScan.MatchesFromGap | src/lib/n8nChat.ts:38-76 | between two successive matches the pattern matches nowhere, so the scan skips no match |
| ChatScan.MatchesFromTail | src/lib/n8nChat.ts:38-76 | after the last match, or from the start when there is none, the pattern matches nowhere |
| ChatScan.ReplaceFromStep | src/lib/n8nChat.ts:49-92 | a global replace copies the text up to the leftmost match, substitutes it and continues after it, or copies the rest when nothing matches |
| ChatScan.SubstCharAppend | src/lib/n8nChat.ts:106-114 | replacing a character distributes over concatenation |
| ChatScan.SubstCharAbsent | src/lib/n8nChat.ts:106-114 | replacing a character that does not occur changes nothing |
| ChatScan.ReplaceLiteralStep | src/lib/n8nChat.ts:106-114 | one step of a one-character global replace: no occurrence before the stop, and the occurrence at the stop is substituted |
| ChatScan.ReplaceLiteralIsSubst | src/lib/n8nChat.ts:106-114 | a global replace of one character replaces every occurrence of it, and nothing else |
| ChatScan.JoinNoTriple | src/lib/n8nChat.ts:92 | two texts without three line feeds in a row join without them unless both line feeds meet at the seam |
| ChatScan.CollapseStep | src/lib/n8nChat.ts:92 | the text up to the next run of three or more line feeds has no three in a row |
| ChatScan.CollapseStart | src/lib/n8nChat.ts:92 | after a run of line feeds, the collapsed rest starts with the next character of the text |
| ChatScan.CollapseJoin | src/lib/n8nChat.ts:92 | a collapsed run of two line feeds between texts without three in a row creates none |
| ChatScan.CollapseLeavesNoTriple | src/lib/n8nChat.ts:92 | after the collapse no three line feeds follow each other anywhere |
| ChatImages.WordAt | src/lib/n8nChat.ts:24 | a matching word fits in the text; the case-insensitive match itself is in ChatImages.WordAtSpec |
| ChatImages.WordAtSpec | src/lib/n8nChat.ts:24 | the word matches iff it fits in the text and every character equals the word's letter once lower-cased (the `i` flag) |
| ChatImages.DigitsAt | src/lib/n8nChat.ts:24 | a run found is non-empty and all digits; maximality and the none case are in ChatImages.DigitsAtSpec |
| ChatImages.DigitsAtSpec | src/lib/n8nChat.ts:24 | the greedy `\d+`: the run is the text from the position and is not followed by a digit; there is none iff no digit stands at the position |
| ChatImages.WordThenDigits | src/lib/n8nChat.ts:24 | a capture is non-empty and all digits; the shape of the match is in ChatImages.WordThenDigitsSpec |
| ChatImages.WordThenDigitsSpec | src/lib/n8nChat.ts:24 | `word[_-]?(\d+)`: a match needs the word, and its capture is the digits right after the word or after one '_' or '-'; there is no match iff neither choice of the optional separator is followed by digits |
| ChatImages.PageDigitsAt | src/lib/n8nChat.ts:24 | a page capture is non-empty and all digits; the order of the alternatives is in ChatImages.PageDigitsAtSpec |
| ChatImages.PageDigitsAtSpec | src/lib/n8nChat.ts:24 | the three alternatives in order: the "page" capture when it matches, else the "sida" capture, else the digits after "p"; no match iff none of the three matches |
| ChatImages.NoPageStart | src/lib/n8nChat.ts:24 | no page number starts at a character that is neither 'p' nor 's' in any case |
| ChatImages.LeftmostPage | src/lib/n8nChat.ts:24 | the position found matches the page-number pattern and lies at or after the start |
| ChatImages.LeftmostPageFirst | src/lib/n8nChat.ts:24 | no earlier position matches, and finding nothing means no position matches |
| ChatImages.ExtractPageNumberLeftmost | src/lib/n8nChat.ts:23-26 | there is a page number iff the pattern matches somewhere, and it is the decimal value of the digits at the leftmost match |
| ChatImages.ExtractPageNumber | src/lib/n8nChat.ts:23-26 | a page number found is the value of the digits of some match of the page pattern |
| ChatImages.PageAfterSida | src/lib/n8nChat.ts:24-25 | "sida-12" gives page 12 |
| ChatImages.LeftmostPageWins | src/lib/n8nChat.ts:24-25 | in "Bild_p3_Page4" the earlier "p3" wins, giving page 3 |
| ChatImages.PagesIsNoPage | src/lib/n8nChat.ts:24-25 | "pages5" has no page number |
| ChatImages.ImageOf | src/lib/n8nChat.ts:39-57 | an image gets its number as id, its image URL, the alt text as title or "Dokumentbild" when empty, the page read from the alt text or else from the link or image URL, and a link URL only when clickable |
| ChatImages.Numbered | src/lib/n8nChat.ts:41-53 | numbering makes one image per capture |
| ChatImages.NumberedAt | src/lib/n8nChat.ts:41-53 | image k of a list numbered from n is made from capture k with number n + k |
| ChatImages.ImagePatterns | src/lib/n8nChat.ts:33-35 | both image patterns always advance and provide their captures wherever they match |
| ChatImages.Collect | src/lib/n8nChat.ts:38-58 | the exec loop turns every successive match, in order, into an image numbered on from the current count |
| ChatImages.ExtractImages | src/lib/n8nChat.ts:29-60 | the result is the clickable images, then the plain images of the text with the clickable ones removed |
| ChatImages.Images | src/lib/n8nChat.ts:29-60 | one image per clickable capture and one per plain capture, no more and no fewer |
| ChatImages.MadeImages | src/lib/n8nChat.ts:40-57 | clickable images are numbered and carry a link URL; plain ones are numbered and carry none |
| ChatImages.NumberedIds | src/lib/n8nChat.ts:41-53 | linked images numbered from 0 followed by unlinked ones numbered on are numbered by position, the linked ones first |
| ChatImages.ImagesNumberedClickableFirst | src/lib/n8nChat.ts:29-60 | the images are numbered "img-0", "img-1", ... by position, and exactly the first ones, the clickable images, carry a link URL |
| ChatImages.ImageIdsDistinct | src/lib/n8nChat.ts:41-53 | no two images of a reply share an id |
| ChatImages.ClickableExample | src/lib/n8nChat.ts:33 | "[![a](u)](p)" gives one clickable capture with alt "a", image URL "u" and link "p" |
| ChatImages.ClickableExampleRemoved | src/lib/n8nChat.ts:49-50 | once that clickable image is removed, no plain image is left to find |
| ChatImages.ClickableCountedOnce | src/lib/n8nChat.ts:29-60 | a clickable image is reported once, not again as the plain image inside it |
| ChatMarkdown.PageAnchorEnd | src/lib/n8nChat.ts:79 | a match ends beyond the six characters of "#page=" and inside the text; what it covers is in ChatMarkdown.PageAnchorEndSpec |
| ChatMarkdown.PageAnchorEndSpec | src/lib/n8nChat.ts:79 | a match covers "#page=" and the whole digit run after it; there is one iff "#page=" is followed by a digit |
| ChatMarkdown.PageOf | src/lib/n8nChat.ts:79-83 | a page found is non-empty and all digits; which anchor gives it is in ChatMarkdown.PageOfSpec |
| ChatMarkdown.PageOfSpec | src/lib/n8nChat.ts:79-83 | the page is the digit run of the leftmost "#page=" anchor; there is none iff no position holds an anchor |
| ChatMarkdown.LastDotPdf | src/lib/n8nChat.ts:80 | the ".pdf" found (any ASCII case) lies in the range and no later one does; none found means there is none in the range |
| ChatMarkdown.PdfNameEnd | src/lib/n8nChat.ts:80 | a match is non-empty and inside the text; its shape and greedy end are in ChatMarkdown.PdfNameEndSpec |
| ChatMarkdown.PdfNameEndSpec | src/lib/n8nChat.ts:80 | a match is '/'-free text ending in ".pdf", and it ends at the last ".pdf" of the '/'-free run (the greedy `[^/]+`); there is none iff that run holds no ".pdf" after its first character |
| ChatMarkdown.PdfNameAt | src/lib/n8nChat.ts:80 | a matched file name has at least five characters, no '/', and ends in ".pdf" in any case |
| ChatMarkdown.PdfNameShape | src/lib/n8nChat.ts:80 | the file name found is a '/'-free piece of the text ending in ".pdf", taken from the leftmost matching position; none is found iff no position matches |
| ChatMarkdown.PdfLinkOf | src/lib/n8nChat.ts:77-86 | a clickable image gives a PDF link iff its alt text or its link URL names a PDF file (the alt text first); the link keeps the URL and its title is the file name, or "{name} (sida {page})" when the URL has a page |
| ChatMarkdown.LinksOf | src/lib/n8nChat.ts:76-87 | there are at most as many links as clickable images |
| ChatMarkdown.LinksOfMembership | src/lib/n8nChat.ts:76-87 | a link is collected iff some capture gives it |
| ChatMarkdown.PdfLinksFromClickable | src/lib/n8nChat.ts:72-87 | every PDF link of a reply comes from one of its clickable images |
| ChatMarkdown.CollectLinks | src/lib/n8nChat.ts:73-87 | the exec loop collects the links of all clickable images in order |
| ChatMarkdown.Token | src/lib/n8nChat.ts:67 | a placeholder starts with "§§§PLACEHOLDER_" and ends with "§§§" |
| ChatMarkdown.TokensDistinct | src/lib/n8nChat.ts:65-67 | different placeholder numbers give different placeholders |
| ChatMarkdown.ProtectFrom | src/lib/n8nChat.ts:64-103 | a protecting pass only appends to the placeholder list, and without a match copies the rest unchanged |
| ChatMarkdown.ProtectStep | src/lib/n8nChat.ts:95-103 | one step of a protecting pass: the text before the match, then the kept text or the next placeholder, then the rest |
| ChatMarkdown.ProtectAll | src/lib/n8nChat.ts:64-103 | the replace with a placeholder-setting callback yields the protected text and placeholder list of the pass |
| ChatMarkdown.SingleMatch | src/lib/n8nChat.ts:95-103 | a text matched as a whole is replaced by its callback's result alone |
| ChatMarkdown.SingleLink | src/lib/n8nChat.ts:95 | a text that is one markdown link is matched once, as a whole |
| ChatMarkdown.SingleRawUrl | src/lib/n8nChat.ts:101 | a text that is one bare http(s) URL is matched once, as a whole |
| ChatMarkdown.UnsafeLinkBecomesText | src/lib/n8nChat.ts:95-97 | a text that is one link to a URL not starting with http:// or https:// (any case) becomes its bare text and sets nothing aside |
| ChatMarkdown.SafeLinkBecomesPlaceholder | src/lib/n8nChat.ts:95-99 | a text that is one link to an http(s) URL becomes the next placeholder, and its anchor is set aside |
| ChatMarkdown.WholeUrlProtected | src/lib/n8nChat.ts:101-103 | a text the bare-URL pattern matches once, as a whole, becomes one placeholder with the URL's self-anchor |
| ChatMarkdown.BareUrlBecomesPlaceholder | src/lib/n8nChat.ts:101-103 | a text that is one bare http(s) URL becomes the next placeholder and its anchor is set aside |
| ChatMarkdown.ProtectedSatisfy | src/lib/n8nChat.ts:64-103 | a protecting pass sets aside only contents the callback sets aside at some match of the pattern |
| ChatMarkdown.LinkPassSetsAsideSafeAnchors | src/lib/n8nChat.ts:95-99 | in any reply, every content the link pass sets aside is the anchor of an http(s) link found in the text, so no link to another URL is ever put behind a placeholder |
| ChatMarkdown.SafeLinkSetAside | src/lib/n8nChat.ts:95-99 | the link callback sets a link aside only when its URL starts with http:// or https://, and then as the anchor of that link |
| ChatMarkdown.RawUrlPassSetsAsideSelfAnchors | src/lib/n8nChat.ts:100-103 | in any text, every content the bare-URL pass sets aside is an anchor linking a URL found in the text to itself, and that URL starts with http:// or https:// |
| ChatMarkdown.UrlSetAside | src/lib/n8nChat.ts:100-103 | the bare-URL callback sets aside an anchor of the matched http(s) URL to itself |
| ChatMarkdown.EscapeHtml | src/lib/n8nChat.ts:106 | an escaped text contains no '<' and no '>' |
| ChatMarkdown.UnescapeChar | src/lib/n8nChat.ts:106 | unescaping an escaped character gives the character back |
| ChatMarkdown.EscapeRoundTrip | src/lib/n8nChat.ts:106 | escaping loses nothing: unescaping the result gives the original text |
| ChatMarkdown.Subst3Append | src/lib/n8nChat.ts:106 | the three character replaces distribute over concatenation |
| ChatMarkdown.SubstCharSingle | src/lib/n8nChat.ts:106 | replacing a character in a one-character text gives the replacement or the character |
| ChatMarkdown.Subst3Char | src/lib/n8nChat.ts:106 | the three replaces in order, '&' first, escape one character correctly without escaping it twice |
| ChatMarkdown.Subst3IsEscape | src/lib/n8nChat.ts:106 | the three replaces in order escape a text character by character |
| ChatMarkdown.EscapePassesEscape | src/lib/n8nChat.ts:106 | the three global replaces of the escape step equal the character-by-character escape |
| ChatMarkdown.StrongExample | src/lib/n8nChat.ts:109 | "**a**" becomes "<strong>a</strong>" |
| ChatMarkdown.Formatted | src/lib/n8nChat.ts:109-113 | the five formatting passes in the code's order |
| ChatMarkdown.SubstCharRemoves | src/lib/n8nChat.ts:114 | replacing a character by a text without it leaves none of it |
| ChatMarkdown.BreaksLeaveNoNewline | src/lib/n8nChat.ts:114 | every line feed becomes "<br />" and none is left |
| ChatMarkdown.Restore | src/lib/n8nChat.ts:116-119 | each placeholder, in order, replaced at its first occurrence by its content; ChatMarkdown.RestoreLonePlaceholder and ChatMarkdown.RestoreWithoutTokens state its effect |
| ChatMarkdown.RestorePlaceholders | src/lib/n8nChat.ts:117-119 | the loop puts placeholder i back, for each i in order, by replacing its first occurrence |
| ChatMarkdown.RestoreLonePlaceholder | src/lib/n8nChat.ts:117-119 | a lone placeholder is restored to its content |
| ChatMarkdown.RestoreWithoutTokens | src/lib/n8nChat.ts:117-119 | placeholders whose tokens do not occur change nothing |
| ChatScan.LiteralAdvances | src/lib/n8nChat.ts:106-114 | a one-character pattern always advances |
| ChatMarkdown.DelimitedAdvances | src/lib/n8nChat.ts:109-112 | an emphasis pattern always advances |
| ChatMarkdown.MarkdownPatterns | src/lib/n8nChat.ts:90-114 | every pattern of the parse advances, so each global replace ends |
| ChatMarkdown.PdfAnchors | src/lib/n8nChat.ts:123-125 | there is one anchor per PDF link, labelled "PDF: " and its title, in order |
| ChatMarkdown.StrippedHasNoTripleNewline | src/lib/n8nChat.ts:90-92 | after the images are removed and line feeds collapsed, no three line feeds follow each other |
| ChatMarkdown.Stripped | src/lib/n8nChat.ts:90-92 | the reply with the images removed and the line feeds collapsed; ChatMarkdown.StrippedHasNoTripleNewline states what it leaves |
| ChatMarkdown.NoMatchKeeps | src/lib/n8nChat.ts:90-114 | a global replace of a pattern that matches nowhere changes nothing |
| ChatMarkdown.NoMatchProtects | src/lib/n8nChat.ts:95-103 | a protecting pass of a pattern that matches nowhere sets nothing aside and changes nothing |
| ChatMarkdown.PlainTextMatchesNoMarkup | src/lib/n8nChat.ts:90-101 | in a text of plain characters no image, line-feed run, link or bare URL matches |
| ChatMarkdown.PlainTextMatchesNoFormat | src/lib/n8nChat.ts:106-114 | in a text of plain characters no escaped character, emphasis, code span or line feed matches |
| ChatMarkdown.NoDelimitedStart | src/lib/n8nChat.ts:109-112 | a bold or italic pattern does not match where its opening delimiter does not start |
| ChatMarkdown.PlainStripped | src/lib/n8nChat.ts:90-92 | image removal and the collapse leave plain text unchanged |
| ChatMarkdown.Protection | src/lib/n8nChat.ts:95-103 | the link pass, then the bare-URL pass, sharing the placeholder list; ChatMarkdown.LinkPassSetsAsideSafeAnchors and ChatMarkdown.RawUrlPassSetsAsideSelfAnchors state what each sets aside |
| ChatMarkdown.PlainProtection | src/lib/n8nChat.ts:95-103 | plain text has nothing to set aside |
| ChatMarkdown.PlainEscaped | src/lib/n8nChat.ts:106 | plain text needs no escape |
| ChatMarkdown.PlainFormatted | src/lib/n8nChat.ts:109-114 | plain text has no emphasis, code span or line break |
| ChatMarkdown.PlainHasNoPdfLinks | src/lib/n8nChat.ts:72-87 | plain text has no PDF links |
| ChatMarkdown.PlainTextUnchanged | src/lib/n8nChat.ts:63-130 | a reply of plain characters is returned unchanged |
| ChatMarkdown.Markdown | src/lib/n8nChat.ts:63-130 | the HTML of a reply, the composition of the passes; ChatMarkdown.PlainTextUnchanged states it for plain replies and ChatMarkdown.ParseMarkdown computes it |
| ChatMarkdown.ParseMarkdown | src/lib/n8nChat.ts:63-130 | the parse returns the HTML of the reply: images removed, line feeds collapsed, links and URLs protected, escaped, formatted, line breaks, placeholders restored, and the PDF links appended when there are any |
| Seqs.SortBy | src/components/documents/DocumentList.tsx:60-76 | the sort returns a permutation of its input; its stability is Seqs.SortByStable |
| Seqs.InsertByTies | src/components/documents/DocumentList.tsx:60-76 | an inserted element goes behind none of the elements it ties with |
| Seqs.SortByKeepsTies | src/components/documents/DocumentList.tsx:60-76 | any set of pairwise-tied elements keeps its input order through the sort |
| Seqs.SortByStable | src/components/documents/DocumentList.tsx:60-76 | stability: under a valid comparator, the elements that compare equal to any given one come out in input order |
| Seqs.SortBySorted | src/components/documents/DocumentList.tsx:60-76 | with a valid comparator the sorted list has no element after a later one |
| Seqs.SortByAllTies | src/components/documents/DocumentList.tsx:60-76 | when the comparator ties every pair, the stable sort keeps the order |

## Left out

- Rendering, toasts, dialogs, drawers and React effects are not modelled. Each handler is modelled only by its effect on state.
- The Supabase transport is not modelled: the client, query-string building and storage upload. Tables are maps from row id to row, and the storage bucket is a map from path to file.
- The filter `path.like.p/%` is modelled as a prefix test on `p + "/"`. The LIKE wildcards `_` and `%` inside a path are not modelled.
- DocumentMutations.Backend: writes whose errors the hook ignores are assumed to succeed. The checked failures are parameters.
- DocumentMutations.Backend.RenameCategory: the failed read and the empty read are one flag, since both write nothing.
- DocumentsPage.ApplyStaged: one version id serves every document whose id is the replacement target. The source draws a fresh id for each matching document inside `map`. The two agree whenever document ids are unique.
- Generated values are parameters: `Date.now()` timestamps, `Math.random()` ids, database-generated ids and `new Date()`.
- Timestamps are integers in milliseconds. Date parsing and formatting are not modelled.
- The Swedish `localeCompare` collation is the parameter `collate`. Only the comparator laws are assumed of it.
- `toLowerCase`, `toUpperCase` and case-insensitive regular expressions are restricted to ASCII letters.
- Strings are sequences of characters, not UTF-16 code units.
- The `$1` in the replacement texts of the formatting passes is modelled by `Wrap`, which puts the first captured group between the opening and closing tags. Every other `$` pattern in the replacement text of `String.prototype.replace` is not interpreted.
- A URL or link text holding `$&`, `` $` `` or `$'` would be expanded by `replace` during placeholder restoration. The model inserts it literally.
- ChatImages.ExtractPageNumber: `parseInt` is exact for every digit string. JavaScript's loss of precision above 2^53 is not modelled.
- ChatScan.ClickableAt: the contract states only that a match is non-empty and inside the text. The correspondence to the regular expression is the body itself.
- ChatScan.PlainImageAt: the contract states only that a match is non-empty, inside the text and without a link URL. The correspondence to the regular expression is the body itself.
- ChatScan.LinkAt: the contract states only that a match is non-empty and inside the text. The correspondence to the regular expression is the body itself.
- ChatScan.RawUrlAt: the contract states only that a match is non-empty and inside the text. The correspondence to the regular expression is the body itself.
- ChatScan.DelimitedEnd: the contract states only that a match is non-empty and inside the text. The lazy closing is stated in ChatScan.LazyCloseSpec.
- ChatScan.CodeSpanEnd: the contract states only that a match is non-empty and inside the text.
- ChatScan.NewlineRunEnd: the contract states only that a match is non-empty and inside the text. The effect of the collapse is stated in ChatScan.CollapseLeavesNoTriple.
- ChatScan.CollapseLeavesNoTriple: it proves that no run of three line feeds remains. It does not prove that each run becomes exactly two line feeds.
- ChatMarkdown.ParseMarkdown: it does not prove that every link survives. Any other `_` on the same line as a placeholder can pair with the `_` inside `PLACEHOLDER_i` under the `_(.+?)_` emphasis rule (src/lib/n8nChat.ts:112), and restoration (src/lib/n8nChat.ts:117-119) then no longer finds that token: one link and a "foo_bar" on its line are enough.
- ChatMarkdown.UnsafeLinkBecomesText: the rewriting of a non-http link into its bare text is proved for a text that is one link. For any reply, ChatMarkdown.LinkPassSetsAsideSafeAnchors proves only that no such link is set aside behind a placeholder.
- ChatMarkdown.PlainTextUnchanged: it covers only replies without any of the markup characters, not every reply.
- `getOrCreateSessionId` and `sendMessageToN8n` are not modelled, since they are session storage and network I/O. The chat hooks are left out as well.
- The HTTP handlers of the edge functions are not modelled: CORS, environment lookup, calls to n8n, and the approve handler's status flow around `convertJsonToVectorText`.
- VectorText.ConvertJsonToVectorText: it requires every filled value to have a column. The source reads `cols[index]` without a check and throws when there is none.
- TableEditor.ColumnChange: it requires an existing index. The editor only passes the indices of existing cells, headers and rows.
- TableEditor.RowLabelChange: it requires an existing index, for the same reason.
- TableEditor.CellChange: it requires an existing index, for the same reason.
- The page imports `parseCategories` and `getUniqueExtensions` from `@/lib/documentTypes` (src/pages/Documents.tsx:16-17), which does not define them: src/lib/documentTypes.ts exports only the types, `generateTitleFromFilename` and `formatDate`. So the category tree builder, the stored-category merge and the extension list are not part of this model.
- The page passes extension, category and show-deleted filters to `DocumentList`, which neither accepts nor applies them (its props, src/components/documents/DocumentList.tsx:9-23, have no such fields), so they are not modelled.
- Concurrent mutations on the same document are not modelled. Every mutation runs to completion before the next one starts.
- The floating-point zoom and resize geometry of the image viewer and the layout are not modelled.
- VectorText.Meaning: the legend is a plain dictionary. The JavaScript lookup `legend[val]` (supabase/functions/approve-ocr-pages/index.ts:58) also finds keys inherited from `Object.prototype`, so a cell whose value is "constructor" gets a function's text as its meaning; a Dafny `map` has no such keys.

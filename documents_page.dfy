/** The in-memory document page (src/pages/Documents.tsx): category
    creation, rename and delete as rewrites of '/'-paths, staging and
    confirming uploads, status changes, rollback and the uncategorized
    counter. Each handler replaces page state with a value computed by the
    pure functions of this module; the class `Page` holds that state. */
module DocumentsPage {
  import opened Wrappers
  import opened Text
  import opened Seqs
  import opened DocumentTypes

  // ---------------------------------------------------------------------
  // category paths

  /** The path of a category created under `parent` (`parent/name`), or the
      top-level path `name` when there is no parent. */
  function NewCategoryPath(parent: Option<string>, name: string): (r: string)
    ensures Truthy(parent) ==> StartsWith(r, parent.value + "/") && r[|parent.value| + 1..] == name
    ensures !Truthy(parent) ==> r == name
  {
    if Truthy(parent) then parent.value + "/" + name else name
  }

  /** A new category's last segment is the name it was created with. */
  lemma NewCategoryLastSegment(parent: Option<string>, name: string)
    requires '/' !in name
    ensures LastSegment(NewCategoryPath(parent, name), '/') == name
  {
    var r := NewCategoryPath(parent, name);
    var k := if Truthy(parent) then |parent.value| + 1 else 0;
    SegmentStartUnique(r, '/', k);
    LastSegmentIsSuffix(r, '/');
  }

  /** The renamed path: the last '/'-segment of `oldPath` replaced by `newName`. */
  function RenamedPath(oldPath: string, newName: string): (r: string)
    ensures r == oldPath[..SegmentStart(oldPath, '/')] + newName
  {
    var parts := Split(oldPath, '/');
    JoinReplacedLast(oldPath, '/', newName);
    Join(parts[..|parts| - 1] + [newName], '/')
  }

  /** Renaming a path back with its old last segment restores it, provided
      the new name holds no '/'. */
  lemma RenamedPathBack(oldPath: string, newName: string)
    requires '/' !in newName
    ensures RenamedPath(RenamedPath(oldPath, newName), LastSegment(oldPath, '/')) == oldPath
  {
    var k := SegmentStart(oldPath, '/');
    var p := RenamedPath(oldPath, newName);
    SegmentStartUnique(p, '/', k);
    LastSegmentIsSuffix(oldPath, '/');
  }

  /** One path after `oldPath` is renamed to `newPath`: the path itself
      becomes `newPath`, a path under `oldPath + "/"` gets that prefix
      swapped, anything else stays. */
  function RenamePath(c: string, oldPath: string, newPath: string): (r: string)
    ensures c == oldPath ==> r == newPath
    ensures c != oldPath && StartsWith(c, oldPath + "/") ==> r == newPath + c[|oldPath|..]
    ensures !AtOrUnder(c, oldPath) ==> r == c
  {
    if c == oldPath then newPath
    else if StartsWith(c, oldPath + "/") then
      ReplaceFirstAtPrefix(c, oldPath, newPath);
      ReplaceFirst(c, oldPath, newPath)
    else c
  }

  /** A document's category after a rename; uncategorized documents and
      documents with an empty category are skipped. */
  function RenameDocCategory(d: Document, oldPath: string, newPath: string): (r: Document)
    ensures !HasCategory(d) ==> r == d
    ensures HasCategory(d) ==> r == d.(category := Some(RenamePath(d.category.value, oldPath, newPath)))
  {
    if !HasCategory(d) then d
    else d.(category := Some(RenamePath(d.category.value, oldPath, newPath)))
  }

  /** Every document after `oldPath` is renamed to `newPath`. */
  function RenameCategoryInDocs(docs: seq<Document>, oldPath: string, newPath: string): (r: seq<Document>)
    ensures |r| == |docs|
  {
    Map(docs, d => RenameDocCategory(d, oldPath, newPath))
  }

  /** The effect of a rename on each document: only the category of a
      document at or under the old path changes; the one at the path gets the
      new path, one under it gets the new path in front of its own rest, a
      sibling such as "A/BC" for "A/B" is untouched, and so is every other
      field. */
  lemma RenameEffect(docs: seq<Document>, oldPath: string, newName: string, i: int)
    requires 0 <= i < |docs|
    ensures var newPath := RenamedPath(oldPath, newName);
            var d := docs[i];
            var r := RenameCategoryInDocs(docs, oldPath, newPath)[i];
            && r.(category := d.category) == d
            && (!HasCategory(d) || !AtOrUnder(d.category.value, oldPath) ==> r == d)
            && (HasCategory(d) && d.category.value == oldPath ==>
                  r.category == Some(oldPath[..SegmentStart(oldPath, '/')] + newName))
            && (HasCategory(d) && d.category.value != oldPath && StartsWith(d.category.value, oldPath + "/") ==>
                  r.category == Some(newPath + d.category.value[|oldPath|..]))
  {
  }

  /** A sibling whose name merely starts with the renamed one is untouched. */
  lemma RenameSkipsSibling()
    ensures RenamePath("A/BC", "A/B", RenamedPath("A/B", "X")) == "A/BC"
  {
    assert !StartsWith("A/BC", "A/B/") by {
      assert "A/BC"[..4] != "A/B/" by { assert "A/BC"[3] != "A/B/"[3]; }
    }
  }

  /** A path under `oldPath + "/"` moves under `newPath + "/"` and comes back. */
  lemma RenamePathBackUnder(c: string, oldPath: string, newPath: string)
    requires c != oldPath && StartsWith(c, oldPath + "/")
    ensures RenamePath(RenamePath(c, oldPath, newPath), newPath, oldPath) == c
  {
    var rest := c[|oldPath|..];
    var r := newPath + rest;
    assert c[..|oldPath| + 1] == oldPath + "/";
    assert rest[0] == '/';
    assert r[..|newPath| + 1] == newPath + "/";
    assert r[|newPath|..] == rest;
    assert oldPath + rest == c;
  }

  /** Renaming `oldPath` to `newPath` and then `newPath` back to `oldPath`
      restores a path, unless it sat at or under `newPath` without being at
      or under `oldPath`. */
  lemma RenamePathBack(c: string, oldPath: string, newPath: string)
    requires AtOrUnder(c, newPath) ==> AtOrUnder(c, oldPath)
    ensures RenamePath(RenamePath(c, oldPath, newPath), newPath, oldPath) == c
  {
    if c != oldPath && StartsWith(c, oldPath + "/") {
      RenamePathBackUnder(c, oldPath, newPath);
    }
  }

  /** Renaming a category, then renaming the result back to its old last
      segment, restores every document, when the new name holds no '/' and is
      not empty and no document sat at or under the new path beforehand unless
      it was also at or under the old one. */
  lemma {:induction false} RenameCategoryRoundTrip(docs: seq<Document>, oldPath: string, newName: string)
    requires '/' !in newName && newName != ""
    requires forall i :: 0 <= i < |docs| && HasCategory(docs[i]) && AtOrUnder(docs[i].category.value, RenamedPath(oldPath, newName)) ==>
               AtOrUnder(docs[i].category.value, oldPath)
    ensures var newPath := RenamedPath(oldPath, newName);
            var backPath := RenamedPath(newPath, LastSegment(oldPath, '/'));
            RenameCategoryInDocs(RenameCategoryInDocs(docs, oldPath, newPath), newPath, backPath) == docs
  {
    var newPath := RenamedPath(oldPath, newName);
    RenamedPathBack(oldPath, newName);
    var mid := RenameCategoryInDocs(docs, oldPath, newPath);
    var back := RenameCategoryInDocs(mid, newPath, oldPath);
    forall i | 0 <= i < |docs| ensures back[i] == docs[i] {
      var d := docs[i];
      if HasCategory(d) {
        var c := d.category.value;
        RenamePathBack(c, oldPath, newPath);
        var c2 := RenamePath(c, oldPath, newPath);
        assert mid[i] == d.(category := Some(c2));
        assert c2 != "" by {
          if c == oldPath {
            assert |newPath| > 0;
          } else if StartsWith(c, oldPath + "/") {
            assert |c2| > 0;
          }
        }
        assert back[i] == mid[i].(category := Some(c));
      }
    }
  }

  /** The selection after a rename; unlike the documents, an empty selected
      path is not skipped. */
  function RenameSelection(sel: Option<string>, oldPath: string, newPath: string): (r: Option<string>)
    ensures sel.None? ==> r.None?
    ensures sel.Some? ==> r == Some(RenamePath(sel.value, oldPath, newPath))
  {
    if sel == Some(oldPath) then Some(newPath)
    else if sel.Some? && StartsWith(sel.value, oldPath + "/") then Some(ReplaceFirst(sel.value, oldPath, newPath))
    else sel
  }

  /** A document after the category `path` is deleted. */
  function ClearCategoryUnder(d: Document, path: string): (r: Document)
    ensures HasCategory(d) && AtOrUnder(d.category.value, path) ==> r == d.(category := None)
    ensures !(HasCategory(d) && AtOrUnder(d.category.value, path)) ==> r == d
  {
    if !HasCategory(d) then d
    else if d.category.value == path || StartsWith(d.category.value, path + "/") then d.(category := None)
    else d
  }

  /** Every document after the category `path` is deleted. */
  function DeleteCategoryInDocs(docs: seq<Document>, path: string): (r: seq<Document>)
    ensures |r| == |docs|
    ensures forall i :: 0 <= i < |docs| ==> r[i] == ClearCategoryUnder(docs[i], path)
  {
    Map(docs, d => ClearCategoryUnder(d, path))
  }

  /** The selection after the category `path` is deleted: cleared when it was
      at or under the path. */
  function DeleteSelection(sel: Option<string>, path: string): (r: Option<string>)
    ensures sel.Some? && AtOrUnder(sel.value, path) ==> r.None?
    ensures !(sel.Some? && AtOrUnder(sel.value, path)) ==> r == sel
  {
    if sel == Some(path) || (sel.Some? && StartsWith(sel.value, path + "/")) then None else sel
  }

  predicate IsUncategorized(d: Document) {
    !HasCategory(d)
  }

  /** The document has a category at or under `path`. */
  predicate IsCategorizedUnder(d: Document, path: string) {
    HasCategory(d) && AtOrUnder(d.category.value, path)
  }

  /** The documents without a category (`!doc.category`). */
  function UncategorizedCount(docs: seq<Document>): (n: nat)
    ensures n <= |docs|
    ensures n == 0 <==> forall i :: 0 <= i < |docs| ==> HasCategory(docs[i])
  {
    var r := Filter(docs, IsUncategorized);
    assert |r| > 0 ==> r[0] in docs;
    |r|
  }

  /** Deleting a category makes exactly the documents at or under it
      uncategorized: the counter grows by their number. */
  lemma DeleteCategoryCount(docs: seq<Document>, path: string)
    ensures UncategorizedCount(DeleteCategoryInDocs(docs, path))
         == UncategorizedCount(docs) + Count(docs, d => IsCategorizedUnder(d, path))
  {
    var clear := (d: Document) => ClearCategoryUnder(d, path);
    var under := (d: Document) => IsCategorizedUnder(d, path);
    var after := (d: Document) => IsUncategorized(ClearCategoryUnder(d, path));
    assert DeleteCategoryInDocs(docs, path) == Map(docs, clear);
    CountMap(docs, clear, IsUncategorized, after);
    CountDisjointUnion(docs, IsUncategorized, under, after);
  }

  // ---------------------------------------------------------------------
  // staging

  /** The first document whose file name equals `name` up to ASCII case. */
  function FindByFilename(docs: seq<Document>, name: string): (r: Option<nat>)
    ensures r.Some? ==> r.value < |docs| && Lower(docs[r.value].filename) == Lower(name)
    ensures r.Some? ==> forall j :: 0 <= j < r.value ==> Lower(docs[j].filename) != Lower(name)
    ensures r.None? ==> forall j :: 0 <= j < |docs| ==> Lower(docs[j].filename) != Lower(name)
    decreases |docs|
  {
    if |docs| == 0 then None
    else if Lower(docs[0].filename) == Lower(name) then Some(0)
    else
      var r := FindByFilename(docs[1..], name);
      if r.None? then None else Some(r.value + 1)
  }

  /** The category given to a new staged file: the selected one, unless
      nothing or the uncategorized entry is selected. */
  function StagingCategory(selected: Option<string>): (r: Option<string>)
    ensures r.Some? <==> Truthy(selected) && selected.value != UncategorizedKey
    ensures r.Some? ==> r == selected
  {
    if Truthy(selected) && selected.value != UncategorizedKey then selected else None
  }

  /** A chosen file, staged against the current documents and selection. */
  function StageFile(docs: seq<Document>, selected: Option<string>, file: UploadFile): StagedFile {
    var existing := FindByFilename(docs, file.name);
    StagedFile(
      file,
      GenerateTitleFromFilename(file.name),
      StagingCategory(selected),
      existing.Some?,
      if existing.Some? then Some(docs[existing.value].id) else None)
  }

  /** The staged list built from a batch of chosen files. */
  function StageFiles(docs: seq<Document>, selected: Option<string>, files: seq<UploadFile>): (r: seq<StagedFile>)
    ensures |r| == |files|
  {
    Map(files, f => StageFile(docs, selected, f))
  }

  /** A staged file is a replacement exactly when some document has its name
      up to case, and then it points at the first such document; its
      category is the selection unless none or "uncategorized" is selected. */
  lemma StageFilesSpec(docs: seq<Document>, selected: Option<string>, files: seq<UploadFile>, i: int)
    requires 0 <= i < |files|
    ensures var s := StageFiles(docs, selected, files)[i];
            && s.file == files[i]
            && s.title == GenerateTitleFromFilename(files[i].name)
            && (s.isReplacement <==> exists j :: 0 <= j < |docs| && Lower(docs[j].filename) == Lower(files[i].name))
            && (s.isReplacement ==> exists j :: 0 <= j < |docs| && Lower(docs[j].filename) == Lower(files[i].name)
                                       && s.existingDocumentId == Some(docs[j].id)
                                       && forall k :: 0 <= k < j ==> Lower(docs[k].filename) != Lower(files[i].name))
            && (!s.isReplacement ==> s.existingDocumentId.None?)
            && (s.category.Some? <==> Truthy(selected) && selected.value != UncategorizedKey)
            && (s.category.Some? ==> s.category == selected)
  {
    var s := StageFiles(docs, selected, files)[i];
    var existing := FindByFilename(docs, files[i].name);
    if existing.Some? {
      var j := existing.value;
      assert s.existingDocumentId == Some(docs[j].id);
    }
  }

  /** `list.map((f, i) => i === index ? g(f) : f)` with a new title. */
  function UpdateStagedTitle(staged: seq<StagedFile>, index: int, title: string): (r: seq<StagedFile>)
    ensures |r| == |staged|
    ensures forall i :: 0 <= i < |staged| ==> r[i] == (if i == index then staged[i].(title := title) else staged[i])
  {
    seq(|staged|, i requires 0 <= i < |staged| => if i == index then staged[i].(title := title) else staged[i])
  }

  /** The same with a new category. */
  function UpdateStagedCategory(staged: seq<StagedFile>, index: int, category: Option<string>): (r: seq<StagedFile>)
    ensures |r| == |staged|
    ensures forall i :: 0 <= i < |staged| ==> r[i] == (if i == index then staged[i].(category := category) else staged[i])
  {
    seq(|staged|, i requires 0 <= i < |staged| => if i == index then staged[i].(category := category) else staged[i])
  }

  /** `list.filter((_, i) => i !== index)`: drops that position if it exists. */
  function RemoveStaged(staged: seq<StagedFile>, index: int): (r: seq<StagedFile>)
    ensures 0 <= index < |staged| ==> r == staged[..index] + staged[index + 1..]
    ensures !(0 <= index < |staged|) ==> r == staged
  {
    if 0 <= index < |staged| then staged[..index] + staged[index + 1..] else staged
  }

  /** Editing the title or the category of a staged file and then removing
      it is the same as removing it. */
  lemma RemoveAfterEdit(staged: seq<StagedFile>, index: int, title: string, category: Option<string>)
    ensures RemoveStaged(UpdateStagedTitle(staged, index, title), index) == RemoveStaged(staged, index)
    ensures RemoveStaged(UpdateStagedCategory(staged, index, category), index) == RemoveStaged(staged, index)
  {
    var u := UpdateStagedTitle(staged, index, title);
    var v := UpdateStagedCategory(staged, index, category);
    if 0 <= index < |staged| {
      assert u[..index] == staged[..index] == v[..index];
      assert u[index + 1..] == staged[index + 1..] == v[index + 1..];
    } else {
      assert u == staged == v;
    }
  }

  // ---------------------------------------------------------------------
  // confirming uploads

  /** Whether a staged file updates an existing document (it must also name
      one). */
  predicate IsReplacementUpload(s: StagedFile) {
    s.isReplacement && Truthy(s.existingDocumentId)
  }

  predicate IsNewUpload(s: StagedFile) {
    !IsReplacementUpload(s)
  }

  /** The pending version created for an uploaded file; the page does not
      give it a storage path. */
  function UploadedVersion(s: StagedFile, versionId: string, now: int): (v: Version)
    ensures v.status == Pending && v.filename == s.file.name && v.uploadedAt == now
    ensures v.id == versionId && v.storagePath.None?
  {
    Version(versionId, s.file.name, None, now, Pending)
  }

  /** A document that receives a new version: the new version goes in front
      and becomes current, the previously current one is marked inactive,
      title and category are taken from the staged file. */
  function ReplaceWithNewVersion(d: Document, s: StagedFile, versionId: string, now: int): (r: Document)
    ensures |r.versions| == |d.versions| + 1
    ensures r.currentVersion == r.versions[0] == UploadedVersion(s, versionId, now)
    ensures forall i :: 0 <= i < |d.versions| ==>
              r.versions[i + 1] == (if d.versions[i].id == d.currentVersion.id
                                    then d.versions[i].(status := Inactive) else d.versions[i])
    ensures r.title == s.title && r.category == s.category
    ensures r.id == d.id && r.filename == d.filename && r.storagePath == d.storagePath && r.createdAt == d.createdAt
  {
    var v := UploadedVersion(s, versionId, now);
    var updated := Map(d.versions, (w: Version) => if w.id == d.currentVersion.id then w.(status := Inactive) else w);
    assert forall i :: 0 <= i < |updated| ==> ([v] + updated)[i + 1] == updated[i];
    d.(title := s.title, category := s.category, currentVersion := v, versions := [v] + updated)
  }

  /** The document created for a new upload, with its single version. */
  function NewUploadDocument(s: StagedFile, versionId: string, docId: string, now: int): (r: Document)
    ensures r.versions == [r.currentVersion] && r.currentVersion == UploadedVersion(s, versionId, now)
    ensures r.id == docId && r.title == s.title && r.filename == s.file.name && r.category == s.category
    ensures r.createdAt == now && r.storagePath.None?
  {
    var v := UploadedVersion(s, versionId, now);
    Document(docId, s.title, s.file.name, None, s.category, now, v, [v])
  }

  /** One staged file applied to the documents. */
  function ApplyStaged(docs: seq<Document>, s: StagedFile, versionId: string, docId: string, now: int): (r: seq<Document>)
    ensures IsReplacementUpload(s) ==>
              && |r| == |docs|
              && forall i :: 0 <= i < |docs| ==>
                   r[i] == (if docs[i].id == s.existingDocumentId.value
                            then ReplaceWithNewVersion(docs[i], s, versionId, now) else docs[i])
    ensures !IsReplacementUpload(s) ==> r == [NewUploadDocument(s, versionId, docId, now)] + docs
  {
    if IsReplacementUpload(s) then
      Map(docs, (d: Document) => if d.id == s.existingDocumentId.value then ReplaceWithNewVersion(d, s, versionId, now) else d)
    else [NewUploadDocument(s, versionId, docId, now)] + docs
  }

  /** The staged files applied one after another, in list order; the i-th
      upload uses the i-th generated ids. */
  function ApplyAllStaged(docs: seq<Document>, staged: seq<StagedFile>, versionIds: seq<string>, docIds: seq<string>, now: int): (r: seq<Document>)
    requires |versionIds| == |staged| && |docIds| == |staged|
    decreases |staged|
  {
    if |staged| == 0 then docs
    else
      var n := |staged| - 1;
      ApplyStaged(ApplyAllStaged(docs, staged[..n], versionIds[..n], docIds[..n], now), staged[n], versionIds[n], docIds[n], now)
  }

  /** Confirming adds one document per new upload and none per replacement. */
  lemma {:induction false} ApplyAllStagedLength(docs: seq<Document>, staged: seq<StagedFile>, versionIds: seq<string>, docIds: seq<string>, now: int)
    requires |versionIds| == |staged| && |docIds| == |staged|
    ensures |ApplyAllStaged(docs, staged, versionIds, docIds, now)| == |docs| + Count(staged, IsNewUpload)
    decreases |staged|
  {
    if |staged| > 0 {
      var n := |staged| - 1;
      ApplyAllStagedLength(docs, staged[..n], versionIds[..n], docIds[..n], now);
      assert staged == staged[..n] + [staged[n]];
      CountSnoc(staged[..n], staged[n], IsNewUpload);
    }
  }

  /** A replacement changes only the documents with the named id, and each
      of them gains exactly one version. */
  lemma ReplacementTouchesOnlyTarget(docs: seq<Document>, s: StagedFile, versionId: string, docId: string, now: int, i: int)
    requires IsReplacementUpload(s) && 0 <= i < |docs|
    ensures var r := ApplyStaged(docs, s, versionId, docId, now);
            && (docs[i].id != s.existingDocumentId.value ==> r[i] == docs[i])
            && (docs[i].id == s.existingDocumentId.value ==>
                  |r[i].versions| == |docs[i].versions| + 1 && r[i].currentVersion.status == Pending)
  {
  }

  // ---------------------------------------------------------------------
  // category, status and rollback on one document

  /** `category || undefined`: an empty category is stored as none. */
  function ChangeDocumentCategory(docs: seq<Document>, docId: string, category: Option<string>): (r: seq<Document>)
    ensures |r| == |docs|
    ensures forall i :: 0 <= i < |docs| && docs[i].id != docId ==> r[i] == docs[i]
    ensures forall i :: 0 <= i < |docs| && docs[i].id == docId ==>
              r[i] == docs[i].(category := if Truthy(category) then category else None)
  {
    Map(docs, (d: Document) => if d.id == docId then d.(category := if Truthy(category) then category else None) else d)
  }

  /** Changing a category to the empty string leaves the target uncategorized. */
  lemma ChangeToEmptyUncategorizes(docs: seq<Document>, docId: string)
    ensures var r := ChangeDocumentCategory(docs, docId, Some(""));
            forall i :: 0 <= i < |docs| && docs[i].id == docId ==> !HasCategory(r[i]) && r[i].category.None?
  {
  }

  /** The current version of one document set to `status`, both as
      `currentVersion` and in every version entry with its id. */
  function SetCurrentStatusOf(d: Document, status: Status): (r: Document)
    ensures r.currentVersion == d.currentVersion.(status := status)
    ensures |r.versions| == |d.versions|
    ensures forall i :: 0 <= i < |d.versions| ==>
              r.versions[i] == (if d.versions[i].id == d.currentVersion.id then d.versions[i].(status := status) else d.versions[i])
    ensures r.(currentVersion := d.currentVersion, versions := d.versions) == d
  {
    d.(currentVersion := d.currentVersion.(status := status),
       versions := Map(d.versions, (v: Version) => if v.id == d.currentVersion.id then v.(status := status) else v))
  }

  /** Activate, deactivate and delete: the documents with id `docId` get the
      status on their current version; every document stays in the list. */
  function SetCurrentStatus(docs: seq<Document>, docId: string, status: Status): (r: seq<Document>)
    ensures |r| == |docs|
    ensures forall i :: 0 <= i < |docs| ==> r[i].id == docs[i].id
    ensures forall i :: 0 <= i < |docs| && docs[i].id != docId ==> r[i] == docs[i]
    ensures forall i :: 0 <= i < |docs| && docs[i].id == docId ==> r[i] == SetCurrentStatusOf(docs[i], status)
  {
    Map(docs, (d: Document) => if d.id == docId then SetCurrentStatusOf(d, status) else d)
  }

  /** A status change touches only its target. The target's current
      version and every history entry with the current version's id take
      the new status; the other entries and all other fields of the
      document are kept. Deletion is soft: the list keeps every document. */
  lemma SetCurrentStatusEffect(docs: seq<Document>, docId: string, status: Status, i: int)
    requires 0 <= i < |docs|
    ensures var r := SetCurrentStatus(docs, docId, status);
            && |r| == |docs|
            && (docs[i].id != docId ==> r[i] == docs[i])
            && (docs[i].id == docId ==>
                  && r[i].currentVersion == docs[i].currentVersion.(status := status)
                  && |r[i].versions| == |docs[i].versions|
                  && (forall j :: 0 <= j < |docs[i].versions| ==>
                        r[i].versions[j] == (if docs[i].versions[j].id == docs[i].currentVersion.id
                                             then docs[i].versions[j].(status := status)
                                             else docs[i].versions[j]))
                  && r[i].(currentVersion := docs[i].currentVersion, versions := docs[i].versions) == docs[i])
  {
  }

  /** The first position of a version with id `versionId` (`findIndex`). */
  function VersionIndex(versions: seq<Version>, versionId: string): (r: int)
    ensures -1 <= r < |versions|
    ensures r >= 0 ==> versions[r].id == versionId
    ensures forall j :: 0 <= j < |versions| && (r < 0 || j < r) ==> versions[j].id != versionId
    decreases |versions|
  {
    if |versions| == 0 then -1
    else if versions[0].id == versionId then 0
    else
      var r := VersionIndex(versions[1..], versionId);
      if r < 0 then -1 else r + 1
  }

  /** Rollback of one document to the version `versionId`. */
  function RollbackDoc(d: Document, versionId: string): (r: Document)
    ensures |r.versions| == |d.versions|
    ensures r.(currentVersion := d.currentVersion, versions := d.versions) == d
  {
    var k := VersionIndex(d.versions, versionId);
    if k < 0 then d
    else
      var updated := seq(|d.versions|, i requires 0 <= i < |d.versions| =>
        if i < k then d.versions[i].(status := Inactive)
        else if i == k then d.versions[i].(status := Active)
        else d.versions[i]);
      d.(currentVersion := updated[k], versions := updated)
  }

  /** Rollback marks every newer version inactive, makes the target active
      and current, and leaves the older versions as they were; an unknown id
      changes nothing. */
  lemma RollbackSpec(d: Document, versionId: string)
    ensures (forall j :: 0 <= j < |d.versions| ==> d.versions[j].id != versionId) ==> RollbackDoc(d, versionId) == d
    ensures forall k :: 0 <= k < |d.versions| && d.versions[k].id == versionId
                        && (forall j :: 0 <= j < k ==> d.versions[j].id != versionId) ==>
              var r := RollbackDoc(d, versionId);
              && |r.versions| == |d.versions|
              && r.currentVersion == r.versions[k] == d.versions[k].(status := Active)
              && (forall j :: 0 <= j < k ==> r.versions[j] == d.versions[j].(status := Inactive))
              && (forall j :: k < j < |d.versions| ==> r.versions[j] == d.versions[j])
              && r.(currentVersion := d.currentVersion, versions := d.versions) == d
  {
    forall k | 0 <= k < |d.versions| && d.versions[k].id == versionId
                        && (forall j :: 0 <= j < k ==> d.versions[j].id != versionId)
      ensures VersionIndex(d.versions, versionId) == k
    {
      var r := VersionIndex(d.versions, versionId);
      assert r >= 0;
    }
  }

  /** Rollback applied to the documents with id `docId`. */
  function Rollback(docs: seq<Document>, docId: string, versionId: string): (r: seq<Document>)
    ensures |r| == |docs|
    ensures forall i :: 0 <= i < |docs| && docs[i].id != docId ==> r[i] == docs[i]
    ensures forall i :: 0 <= i < |docs| ==> r[i].id == docs[i].id
    ensures forall i :: 0 <= i < |docs| && docs[i].id == docId ==> r[i] == RollbackDoc(docs[i], versionId)
  {
    Map(docs, (d: Document) => if d.id == docId then RollbackDoc(d, versionId) else d)
  }

  /** Rolling back the listed document `docId` to one of its versions
      makes that version active and current, marks every newer version
      inactive and keeps the older ones; an id the document does not have
      leaves it unchanged. */
  lemma RollbackEffect(docs: seq<Document>, docId: string, versionId: string, i: int)
    requires 0 <= i < |docs| && docs[i].id == docId
    ensures var d := docs[i];
            var r := Rollback(docs, docId, versionId)[i];
            && ((forall j :: 0 <= j < |d.versions| ==> d.versions[j].id != versionId) ==> r == d)
            && (forall k :: 0 <= k < |d.versions| && d.versions[k].id == versionId
                            && (forall j :: 0 <= j < k ==> d.versions[j].id != versionId) ==>
                  && |r.versions| == |d.versions|
                  && r.currentVersion == r.versions[k] == d.versions[k].(status := Active)
                  && (forall j :: 0 <= j < k ==> r.versions[j] == d.versions[j].(status := Inactive))
                  && (forall j :: k < j < |d.versions| ==> r.versions[j] == d.versions[j]))
  {
    RollbackSpec(docs[i], versionId);
  }

  /** There is no single-active rule: rolling back to a version newer than
      the current one leaves the current one active as well. */
  lemma RollbackToNewerKeepsOlderActive()
    ensures var older := Version("v1", "a.pdf", None, 1, Active);
            var newer := Version("v2", "a.pdf", None, 2, Inactive);
            var d := Document("d", "A", "a.pdf", None, None, 1, older, [newer, older]);
            var r := RollbackDoc(d, "v2");
            r.versions[0].status == Active && r.versions[1].status == Active
  {
    var older := Version("v1", "a.pdf", None, 1, Active);
    var newer := Version("v2", "a.pdf", None, 2, Inactive);
    var d := Document("d", "A", "a.pdf", None, None, 1, older, [newer, older]);
    assert VersionIndex(d.versions, "v2") == 0;
  }

  // ---------------------------------------------------------------------
  // the page state

  /** The page's state: the documents, the selected category (none for
      "all documents") and the staged uploads. */
  class Page {
    var documents: seq<Document>
    var selectedCategory: Option<string>
    var stagedFiles: seq<StagedFile>

    constructor(initial: seq<Document>)
      ensures documents == initial && selectedCategory.None? && stagedFiles == []
    {
      documents := initial;
      selectedCategory := None;
      stagedFiles := [];
    }

    /** The counter shown next to the uncategorized entry. */
    function Uncategorized(): (n: nat)
      reads this
      ensures n <= |documents|
      ensures n == 0 <==> forall i :: 0 <= i < |documents| ==> HasCategory(documents[i])
    {
      UncategorizedCount(documents)
    }

    method CreateCategory(parent: Option<string>, name: string)
      modifies this
      ensures selectedCategory == Some(NewCategoryPath(parent, name))
      ensures documents == old(documents) && stagedFiles == old(stagedFiles)
    {
      selectedCategory := Some(NewCategoryPath(parent, name));
    }

    method RenameCategory(oldPath: string, newName: string)
      modifies this
      ensures documents == RenameCategoryInDocs(old(documents), oldPath, RenamedPath(oldPath, newName))
      ensures selectedCategory == RenameSelection(old(selectedCategory), oldPath, RenamedPath(oldPath, newName))
      ensures stagedFiles == old(stagedFiles)
    {
      var newPath := RenamedPath(oldPath, newName);
      documents := RenameCategoryInDocs(documents, oldPath, newPath);
      selectedCategory := RenameSelection(selectedCategory, oldPath, newPath);
    }

    method DeleteCategory(path: string)
      modifies this
      ensures documents == DeleteCategoryInDocs(old(documents), path)
      ensures selectedCategory == DeleteSelection(old(selectedCategory), path)
      ensures stagedFiles == old(stagedFiles)
    {
      documents := DeleteCategoryInDocs(documents, path);
      selectedCategory := DeleteSelection(selectedCategory, path);
    }

    method FilesSelected(files: seq<UploadFile>)
      modifies this
      ensures stagedFiles == StageFiles(old(documents), old(selectedCategory), files)
      ensures documents == old(documents) && selectedCategory == old(selectedCategory)
    {
      stagedFiles := StageFiles(documents, selectedCategory, files);
    }

    method EditStagedTitle(index: int, title: string)
      modifies this
      ensures stagedFiles == UpdateStagedTitle(old(stagedFiles), index, title)
      ensures documents == old(documents) && selectedCategory == old(selectedCategory)
    {
      stagedFiles := UpdateStagedTitle(stagedFiles, index, title);
    }

    method EditStagedCategory(index: int, category: Option<string>)
      modifies this
      ensures stagedFiles == UpdateStagedCategory(old(stagedFiles), index, category)
      ensures documents == old(documents) && selectedCategory == old(selectedCategory)
    {
      stagedFiles := UpdateStagedCategory(stagedFiles, index, category);
    }

    method RemoveStagedFile(index: int)
      modifies this
      ensures stagedFiles == RemoveStaged(old(stagedFiles), index)
      ensures documents == old(documents) && selectedCategory == old(selectedCategory)
    {
      stagedFiles := RemoveStaged(stagedFiles, index);
    }

    /** Applies the staged files in order, each to the documents left by the
      previous one, then empties the staged list. `versionIds[i]` and
      `docIds[i]` stand for the ids generated for the i-th file. */
    method ConfirmUpload(now: int, versionIds: seq<string>, docIds: seq<string>)
      requires |versionIds| == |stagedFiles| && |docIds| == |stagedFiles|
      modifies this
      ensures documents == ApplyAllStaged(old(documents), old(stagedFiles), versionIds, docIds, now)
      ensures |documents| == |old(documents)| + Count(old(stagedFiles), IsNewUpload)
      ensures stagedFiles == [] && selectedCategory == old(selectedCategory)
    {
      var staged := stagedFiles;
      var i := 0;
      while i < |staged|
        invariant 0 <= i <= |staged|
        invariant documents == ApplyAllStaged(old(documents), staged[..i], versionIds[..i], docIds[..i], now)
        invariant stagedFiles == staged && selectedCategory == old(selectedCategory)
      {
        assert staged[..i + 1][..i] == staged[..i];
        assert versionIds[..i + 1][..i] == versionIds[..i];
        assert docIds[..i + 1][..i] == docIds[..i];
        documents := ApplyStaged(documents, staged[i], versionIds[i], docIds[i], now);
        i := i + 1;
      }
      assert staged[..i] == staged && versionIds[..i] == versionIds && docIds[..i] == docIds;
      ApplyAllStagedLength(old(documents), staged, versionIds, docIds, now);
      stagedFiles := [];
    }

    method ChangeCategory(docId: string, category: Option<string>)
      modifies this
      ensures documents == ChangeDocumentCategory(old(documents), docId, category)
      ensures selectedCategory == old(selectedCategory) && stagedFiles == old(stagedFiles)
    {
      documents := ChangeDocumentCategory(documents, docId, category);
    }

    method Activate(docId: string)
      modifies this
      ensures documents == SetCurrentStatus(old(documents), docId, Active)
      ensures selectedCategory == old(selectedCategory) && stagedFiles == old(stagedFiles)
    {
      documents := SetCurrentStatus(documents, docId, Active);
    }

    method Deactivate(docId: string)
      modifies this
      ensures documents == SetCurrentStatus(old(documents), docId, Inactive)
      ensures selectedCategory == old(selectedCategory) && stagedFiles == old(stagedFiles)
    {
      documents := SetCurrentStatus(documents, docId, Inactive);
    }

    /** A soft delete: the document stays, its current version is deleted. */
    method Delete(docId: string)
      modifies this
      ensures documents == SetCurrentStatus(old(documents), docId, Deleted)
      ensures |documents| == |old(documents)|
      ensures selectedCategory == old(selectedCategory) && stagedFiles == old(stagedFiles)
    {
      documents := SetCurrentStatus(documents, docId, Deleted);
    }

    method RollbackTo(docId: string, versionId: string)
      modifies this
      ensures documents == Rollback(old(documents), docId, versionId)
      ensures selectedCategory == old(selectedCategory) && stagedFiles == old(stagedFiles)
    {
      documents := Rollback(documents, docId, versionId);
    }
  }
}

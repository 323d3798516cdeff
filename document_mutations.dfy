/** The backend mutations of src/hooks/useDocumentMutations.ts over the
    three tables, modelled as maps from row id to row in the class `Backend`.
    Every mutation is the same ordered sequence of row writes as the hook's.
    Only the failures the hook checks are modelled, as flags that say
    whether that call fails; the writes whose errors it ignores succeed. */
module DocumentMutations {
  import opened Wrappers
  import opened Text
  import opened DocumentTypes
  import opened Tables
  import DocumentsPage

  /** The failures the hook turns into a thrown error. */
  datatype MutationError = StorageUploadFailed | DocumentInsertFailed | VersionInsertFailed | CategoryInsertFailed

  // ---------------------------------------------------------------------
  // storage path

  /** A character matched by `[a-zA-Z0-9.-]`. */
  predicate IsSafeChar(c: char) {
    ('a' <= c <= 'z') || ('A' <= c <= 'Z') || ('0' <= c <= '9') || c == '.' || c == '-'
  }

  /** `name.replace(/[^a-zA-Z0-9.-]/g, '_')`: same length, safe characters
      kept, every other one replaced by '_'. */
  function SafeName(name: string): (r: string)
    ensures |r| == |name|
    ensures forall i :: 0 <= i < |name| ==> r[i] == (if IsSafeChar(name[i]) then name[i] else '_')
  {
    seq(|name|, i requires 0 <= i < |name| => if IsSafeChar(name[i]) then name[i] else '_')
  }

  /** A sanitised name holds only safe characters and '_', and sanitising it
      again changes nothing. */
  lemma SafeNameIdempotent(name: string)
    ensures forall i :: 0 <= i < |name| ==> IsSafeChar(SafeName(name)[i]) || SafeName(name)[i] == '_'
    ensures SafeName(SafeName(name)) == SafeName(name)
  {
  }

  /** `documents/{userId}/{timestamp}_{safeName}`. */
  function StoragePath(userId: string, timestamp: nat, fileName: string): (r: string)
    ensures StartsWith(r, "documents/" + userId + "/")
  {
    "documents/" + userId + "/" + NatToString(timestamp) + "_" + SafeName(fileName)
  }

  /** The storage path sits in the user's folder, and its last '/'-segment
      (the file name the read side shows) is the time stamp and the
      sanitised name, whatever the user id holds. */
  lemma StoragePathShape(userId: string, timestamp: nat, fileName: string)
    ensures StartsWith(StoragePath(userId, timestamp, fileName), "documents/" + userId + "/")
    ensures LastSegment(StoragePath(userId, timestamp, fileName), '/') == NatToString(timestamp) + "_" + SafeName(fileName)
  {
    var p := StoragePath(userId, timestamp, fileName);
    var head := "documents/" + userId + "/";
    var tail := NatToString(timestamp) + "_" + SafeName(fileName);
    assert p == head + tail;
    assert p[..|head|] == head;
    assert '/' !in tail by {
      forall i | 0 <= i < |tail| ensures tail[i] != '/' {
        if i < |NatToString(timestamp)| {
          assert IsDigit(tail[i]);
        } else if i > |NatToString(timestamp)| {
          assert tail[i] == SafeName(fileName)[i - |NatToString(timestamp)| - 1];
        }
      }
    }
    assert p[|head|..] == tail;
    SegmentStartUnique(p, '/', |head|);
    LastSegmentIsSuffix(p, '/');
  }

  /** `file.name.split('.').pop() || ''`: the text after the last '.', or
      the whole name when it has none. */
  function ExtensionOf(name: string): (r: string)
    ensures '.' !in name ==> r == name
    ensures '.' !in r && EndsWith(name, r)
    ensures |r| < |name| ==> name[|name| - |r| - 1] == '.'
  {
    LastSegmentIsSuffix(name, '.');
    assert '.' !in name ==> SegmentStart(name, '.') == 0 by {
      if '.' !in name {
        SegmentStartUnique(name, '.', 0);
      }
    }
    LastSegment(name, '.')
  }

  // ---------------------------------------------------------------------
  // version label

  /** `${(count || 0) + 1}.0`. */
  function VersionLabel(count: nat): (r: string)
    ensures EndsWith(r, ".0") && |r| >= 3
  {
    NatToString(count + 1) + ".0"
  }

  /** The label ends in ".0" and its integer part reads back as one more than
      the count. */
  lemma VersionLabelRoundTrip(count: nat)
    ensures var l := VersionLabel(count);
            && EndsWith(l, ".0") && |l| >= 3
            && (forall i :: 0 <= i < |l| - 2 ==> IsDigit(l[i]))
            && DigitsValue(l[..|l| - 2]) == count + 1
  {
    var l := VersionLabel(count);
    assert l[..|l| - 2] == NatToString(count + 1);
    NatToStringRoundTrip(count + 1);
  }

  // ---------------------------------------------------------------------
  // row updates

  /** `update({ status }).in('id', ids)`: the rows with those ids get the
      status; no row is added or removed. */
  function SetVersionStatus(vs: map<string, VersionRow>, ids: set<string>, s: Status): (r: map<string, VersionRow>)
    ensures r.Keys == vs.Keys
    ensures forall k :: k in vs ==> r[k] == (if k in ids then vs[k].(status := s) else vs[k])
  {
    map k | k in vs :: if k in ids then vs[k].(status := s) else vs[k]
  }

  /** The ids of the version rows of one document. */
  function VersionIdsOf(vs: map<string, VersionRow>, documentId: string): (r: set<string>)
    ensures r <= vs.Keys
    ensures forall k :: k in vs ==> (k in r <==> vs[k].documentId == documentId)
  {
    set k | k in vs && vs[k].documentId == documentId
  }

  /** The version rows after a rollback: the newer ids inactive (skipped
      when there are none), then the target active. */
  function RollbackVersionRows(vs: map<string, VersionRow>, newerIds: seq<string>, targetId: string): (r: map<string, VersionRow>)
    ensures r.Keys == vs.Keys
  {
    var marked := if |newerIds| > 0 then SetVersionStatus(vs, (set i | i in newerIds), Inactive) else vs;
    SetVersionStatus(marked, {targetId}, Active)
  }

  /** The target ends active even when it is also listed as newer; the other
      listed rows end inactive; all other rows keep their status. */
  lemma RollbackVersionRowsSpec(vs: map<string, VersionRow>, newerIds: seq<string>, targetId: string)
    ensures var r := RollbackVersionRows(vs, newerIds, targetId);
            && (targetId in vs ==> r[targetId] == vs[targetId].(status := Active))
            && (forall k :: k in vs && k != targetId && k in newerIds ==> r[k] == vs[k].(status := Inactive))
            && (forall k :: k in vs && k != targetId && k !in newerIds ==> r[k] == vs[k])
  {
  }

  /** A category row after the rename of `oldPath` to `newPath`
      (`cat.path === oldPath ? newPath : cat.path.replace(oldPath + '/',
      newPath + '/')`), named after the last segment of its new path unless
      that segment is empty. */
  function RenameCategoryRow(row: CategoryRow, oldPath: string, newPath: string): (r: CategoryRow)
    ensures r.(path := row.path, name := row.name) == row
  {
    var updated := if row.path == oldPath then newPath else ReplaceFirst(row.path, oldPath + "/", newPath + "/");
    var last := LastSegment(updated, '/');
    row.(path := updated, name := if last != "" then last else row.name)
  }

  /** A renamed row at or under the old path gets the same path as the page
      gives a document there. */
  lemma RenameCategoryRowPath(row: CategoryRow, oldPath: string, newPath: string)
    requires AtOrUnder(row.path, oldPath)
    ensures RenameCategoryRow(row, oldPath, newPath).path == DocumentsPage.RenamePath(row.path, oldPath, newPath)
  {
    if row.path != oldPath {
      ReplaceFirstAtPrefix(row.path, oldPath + "/", newPath + "/");
      assert row.path[|oldPath|..] == "/" + row.path[|oldPath| + 1..];
    }
  }

  /** A renamed row is named after the text after the last '/' of its new
      path, or keeps its old name when that text is empty; its id and other
      fields do not change. */
  lemma RenameCategoryRowName(row: CategoryRow, oldPath: string, newPath: string)
    ensures var r := RenameCategoryRow(row, oldPath, newPath);
            && r.name == (if r.path[SegmentStart(r.path, '/')..] != "" then r.path[SegmentStart(r.path, '/')..] else row.name)
            && r.(path := row.path, name := row.name) == row
  {
    var r := RenameCategoryRow(row, oldPath, newPath);
    LastSegmentIsSuffix(r.path, '/');
  }

  /** The categories table after the rename of `oldPath` to `newPath`. */
  function RenameCategoryRows(cs: map<string, CategoryRow>, oldPath: string, newPath: string): (r: map<string, CategoryRow>)
    ensures r.Keys == cs.Keys
    ensures forall k :: k in cs && !AtOrUnder(cs[k].path, oldPath) ==> r[k] == cs[k]
    ensures forall k :: k in cs && AtOrUnder(cs[k].path, oldPath) ==> r[k] == RenameCategoryRow(cs[k], oldPath, newPath)
  {
    map k | k in cs :: if AtOrUnder(cs[k].path, oldPath) then RenameCategoryRow(cs[k], oldPath, newPath) else cs[k]
  }

  /** The categories table after the delete of `path`: exactly the rows at
      or under it are gone. */
  function DeleteCategoryRows(cs: map<string, CategoryRow>, path: string): (r: map<string, CategoryRow>)
    ensures r.Keys <= cs.Keys
    ensures forall k :: k in cs ==> (k in r <==> !AtOrUnder(cs[k].path, path))
    ensures forall k :: k in r ==> r[k] == cs[k]
  {
    map k | k in cs && !AtOrUnder(cs[k].path, path) :: cs[k]
  }

  /** Deleting a category and then renaming it has nothing left to rename. */
  lemma RenameAfterDeleteIsNoop(cs: map<string, CategoryRow>, path: string, newPath: string)
    ensures RenameCategoryRows(DeleteCategoryRows(cs, path), path, newPath) == DeleteCategoryRows(cs, path)
  {
  }

  // ---------------------------------------------------------------------
  // the backend

  /** The storage bucket and the three tables. */
  class Backend {
    var storage: map<string, UploadFile>
    var documents: map<string, DocumentRow>
    var versions: map<string, VersionRow>
    var categories: map<string, CategoryRow>

    constructor()
      ensures storage == map[] && documents == map[] && versions == map[] && categories == map[]
    {
      storage := map[];
      documents := map[];
      versions := map[];
      categories := map[];
    }

    /** `uploadFileToStorage`: stores the file under its storage path, or
        fails without writing. */
    method UploadFileToStorage(file: UploadFile, userId: string, timestamp: nat, fails: bool)
      returns (r: Result<string, MutationError>)
      modifies this
      ensures fails ==> r == Failure(StorageUploadFailed) && storage == old(storage)
      ensures !fails ==> r == Success(StoragePath(userId, timestamp, file.name))
                         && storage == old(storage)[r.value := file]
      ensures documents == old(documents) && versions == old(versions) && categories == old(categories)
    {
      if fails {
        return Failure(StorageUploadFailed);
      }
      var path := StoragePath(userId, timestamp, file.name);
      storage := storage[path := file];
      return Success(path);
    }

    /** `uploadDocument`: upload, then insert a pending document, then insert
        its pending version "1.0" with the same storage path. A failed
        document insert stops before any version row is written. */
    method UploadDocument(file: UploadFile, title: string, category: Option<string>, userId: string,
                          timestamp: nat, docId: string, versionId: string, now: int,
                          storageFails: bool, docInsertFails: bool, versionInsertFails: bool)
      returns (r: Result<DocumentRow, MutationError>)
      modifies this
      ensures var path := StoragePath(userId, timestamp, file.name);
              var doc := DocumentRow(docId, title, file.name, ExtensionOf(file.name),
                                     if Truthy(category) then category.value else "",
                                     path, file.size, userId, Pending, now);
              var ver := VersionRow(versionId, docId, "1.0", path, file.size, userId, Pending, now);
              && (storageFails ==>
                    r == Failure(StorageUploadFailed) && storage == old(storage) && documents == old(documents) && versions == old(versions))
              && (!storageFails ==> storage == old(storage)[path := file])
              && (!storageFails && docInsertFails ==>
                    r == Failure(DocumentInsertFailed) && documents == old(documents) && versions == old(versions))
              && (!storageFails && !docInsertFails ==> documents == old(documents)[docId := doc])
              && (!storageFails && !docInsertFails && versionInsertFails ==>
                    r == Failure(VersionInsertFailed) && versions == old(versions))
              && (!storageFails && !docInsertFails && !versionInsertFails ==>
                    r == Success(doc) && versions == old(versions)[versionId := ver])
      ensures categories == old(categories)
    {
      var stored := UploadFileToStorage(file, userId, timestamp, storageFails);
      if stored.Failure? {
        return Failure(stored.error);
      }
      var path := stored.value;
      var extension := ExtensionOf(file.name);
      if docInsertFails {
        return Failure(DocumentInsertFailed);
      }
      var doc := DocumentRow(docId, title, file.name, extension,
                             if Truthy(category) then category.value else "",
                             path, file.size, userId, Pending, now);
      documents := documents[docId := doc];
      if versionInsertFails {
        return Failure(VersionInsertFailed);
      }
      versions := versions[versionId := VersionRow(versionId, docId, "1.0", path, file.size, userId, Pending, now)];
      return Success(doc);
    }

    /** `replaceDocument`: upload; mark the given version inactive; count the
        document's versions; insert the new pending version labelled one more
        than that count; update the document row. Only the upload's failure
        is checked. */
    method ReplaceDocument(documentId: string, file: UploadFile, title: string, category: Option<string>,
                           userId: string, currentVersionId: string, timestamp: nat, versionId: string,
                           now: int, storageFails: bool)
      returns (r: Result<(), MutationError>)
      modifies this
      ensures storageFails ==> r == Failure(StorageUploadFailed) && storage == old(storage)
                               && documents == old(documents) && versions == old(versions)
      ensures !storageFails ==>
                var path := StoragePath(userId, timestamp, file.name);
                var marked := SetVersionStatus(old(versions), {currentVersionId}, Inactive);
                var versionName := VersionLabel(|VersionIdsOf(old(versions), documentId)|);
                && r == Success(())
                && storage == old(storage)[path := file]
                && versions == marked[versionId := VersionRow(versionId, documentId, versionName, path, file.size, userId, Pending, now)]
                && (documentId in old(documents) ==>
                      documents == old(documents)[documentId := old(documents)[documentId].(
                        name := title, category := if Truthy(category) then category.value else "",
                        storagePath := path, size := file.size, status := Pending)])
                && (documentId !in old(documents) ==> documents == old(documents))
      ensures categories == old(categories)
    {
      var stored := UploadFileToStorage(file, userId, timestamp, storageFails);
      if stored.Failure? {
        return Failure(stored.error);
      }
      var path := stored.value;
      versions := SetVersionStatus(versions, {currentVersionId}, Inactive);
      var count := |VersionIdsOf(versions, documentId)|;
      assert VersionIdsOf(versions, documentId) == VersionIdsOf(old(versions), documentId);
      versions := versions[versionId := VersionRow(versionId, documentId, VersionLabel(count), path, file.size, userId, Pending, now)];
      if documentId in documents {
        documents := documents[documentId := documents[documentId].(
          name := title, category := if Truthy(category) then category.value else "",
          storagePath := path, size := file.size, status := Pending)];
      }
      return Success(());
    }

    /** `updateStatus`: the same status on the version row and on the
        document row. The hook's type admits no "pending" here. */
    method UpdateStatus(documentId: string, versionId: string, status: Status)
      requires status != Pending
      modifies this
      ensures versions == SetVersionStatus(old(versions), {versionId}, status)
      ensures documentId in old(documents) ==> documents == old(documents)[documentId := old(documents)[documentId].(status := status)]
      ensures documentId !in old(documents) ==> documents == old(documents)
      ensures storage == old(storage) && categories == old(categories)
    {
      versions := SetVersionStatus(versions, {versionId}, status);
      if documentId in documents {
        documents := documents[documentId := documents[documentId].(status := status)];
      }
    }

    /** `updateCategory`: only the category field of one document row. */
    method UpdateCategory(documentId: string, category: string)
      modifies this
      ensures documentId in old(documents) ==> documents == old(documents)[documentId := old(documents)[documentId].(category := category)]
      ensures documentId !in old(documents) ==> documents == old(documents)
      ensures versions == old(versions) && storage == old(storage) && categories == old(categories)
    {
      if documentId in documents {
        documents := documents[documentId := documents[documentId].(category := category)];
      }
    }

    /** `rollbackVersion`: newer versions inactive (when there are any), the
        target active, and, only when the target row exists, its storage path
        copied onto the document, which becomes active. */
    method RollbackVersion(documentId: string, targetVersionId: string, newerVersionIds: seq<string>)
      modifies this
      ensures versions == RollbackVersionRows(old(versions), newerVersionIds, targetVersionId)
      ensures targetVersionId in old(versions) && documentId in old(documents) ==>
                documents == old(documents)[documentId := old(documents)[documentId].(
                  storagePath := old(versions)[targetVersionId].storagePath, status := Active)]
      ensures !(targetVersionId in old(versions) && documentId in old(documents)) ==> documents == old(documents)
      ensures storage == old(storage) && categories == old(categories)
    {
      if |newerVersionIds| > 0 {
        versions := SetVersionStatus(versions, (set i | i in newerVersionIds), Inactive);
      }
      versions := SetVersionStatus(versions, {targetVersionId}, Active);
      if targetVersionId in versions {
        var target := versions[targetVersionId];
        if documentId in documents {
          documents := documents[documentId := documents[documentId].(storagePath := target.storagePath, status := Active)];
        }
      }
    }

    /** `deleteDocument`: a soft delete; every version of the document and
        the document itself are marked deleted and no row is removed. */
    method DeleteDocument(documentId: string)
      modifies this
      ensures versions == SetVersionStatus(old(versions), VersionIdsOf(old(versions), documentId), Deleted)
      ensures versions.Keys == old(versions).Keys && documents.Keys == old(documents).Keys
      ensures documentId in old(documents) ==> documents == old(documents)[documentId := old(documents)[documentId].(status := Deleted)]
      ensures documentId !in old(documents) ==> documents == old(documents)
      ensures storage == old(storage) && categories == old(categories)
    {
      versions := SetVersionStatus(versions, VersionIdsOf(versions, documentId), Deleted);
      if documentId in documents {
        documents := documents[documentId := documents[documentId].(status := Deleted)];
      }
    }

    /** `createCategory`: inserts one row, or fails without writing. */
    method CreateCategory(path: string, name: string, userId: string, categoryId: string, now: int, insertFails: bool)
      returns (r: Result<CategoryRow, MutationError>)
      modifies this
      ensures insertFails ==> r == Failure(CategoryInsertFailed) && categories == old(categories)
      ensures !insertFails ==> r == Success(CategoryRow(categoryId, path, name, userId, now))
                               && categories == old(categories)[categoryId := r.value]
      ensures storage == old(storage) && documents == old(documents) && versions == old(versions)
    {
      if insertFails {
        return Failure(CategoryInsertFailed);
      }
      var row := CategoryRow(categoryId, path, name, userId, now);
      categories := categories[categoryId := row];
      return Success(row);
    }

    /** `deleteCategory`: removes the rows at or under `path`; document rows
        keep their category strings. */
    method DeleteCategory(path: string)
      modifies this
      ensures categories == DeleteCategoryRows(old(categories), path)
      ensures storage == old(storage) && documents == old(documents) && versions == old(versions)
    {
      categories := DeleteCategoryRows(categories, path);
    }

    /** `renameCategory`: reads the rows at or under `oldPath`, then updates
        them one at a time. When the read returns nothing (or fails) nothing
        is written. The order of the rows does not matter, since each update
        touches only its own row. */
    method RenameCategory(oldPath: string, newPath: string, selectFails: bool)
      modifies this
      ensures selectFails ==> categories == old(categories)
      ensures !selectFails ==> categories == RenameCategoryRows(old(categories), oldPath, newPath)
      ensures storage == old(storage) && documents == old(documents) && versions == old(versions)
    {
      if selectFails {
        return;
      }
      var snapshot := categories;
      var renamed := RenameCategoryRows(snapshot, oldPath, newPath);
      var matching := set k | k in snapshot && AtOrUnder(snapshot[k].path, oldPath);
      var rows := snapshot;
      var todo := matching;
      while todo != {}
        invariant todo <= matching
        invariant rows.Keys == snapshot.Keys
        invariant forall k :: k in snapshot ==> rows[k] == (if k in todo then snapshot[k] else renamed[k])
        decreases |todo|
      {
        var k :| k in todo;
        var cat := snapshot[k];
        rows := rows[k := RenameCategoryRow(cat, oldPath, newPath)];
        todo := todo - {k};
      }
      categories := rows;
    }
  }
}

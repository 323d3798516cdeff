/** The read side (src/hooks/useKlingerDocuments.ts): document rows and
    version rows assembled into the page's documents, with versions sorted
    newest first and a current version picked or synthesised. The fetches
    are inputs: the table contents and whether each query fails. */
module KlingerDocuments {
  import opened Wrappers
  import opened Text
  import opened Seqs
  import opened DocumentTypes
  import opened Tables

  /** The failures that make the whole read fail. */
  datatype ReadError = DocumentsFetchFailed | VersionsFetchFailed

  /** `(a, b) => time(b.created_at) - time(a.created_at)`: newest first. */
  function NewestFirst(a: VersionRow, b: VersionRow): int {
    b.createdAt - a.createdAt
  }

  /** The newest-first comparison is a valid sort comparator. */
  lemma NewestFirstIsComparator()
    ensures IsComparator(NewestFirst)
  {
  }

  /** The sorted copy of a document's version rows. */
  function SortedVersions(versions: seq<VersionRow>): (r: seq<VersionRow>)
    ensures multiset(r) == multiset(versions) && |r| == |versions|
    ensures forall i, j :: 0 <= i < j < |r| ==> r[i].createdAt >= r[j].createdAt
  {
    NewestFirstIsComparator();
    SortBySorted(versions, NewestFirst);
    var r := SortBy(versions, NewestFirst);
    assert forall i, j :: 0 <= i < j < |r| ==> NewestFirst(r[i], r[j]) <= 0;
    r
  }

  /** The position of the first active row (`find(v => v.status === 'active')`). */
  function FirstActive(rows: seq<VersionRow>): (r: Option<nat>)
    ensures r.Some? ==> r.value < |rows| && rows[r.value].status == Active
    ensures r.Some? ==> forall j :: 0 <= j < r.value ==> rows[j].status != Active
    ensures r.None? ==> forall j :: 0 <= j < |rows| ==> rows[j].status != Active
    decreases |rows|
  {
    if |rows| == 0 then None
    else if rows[0].status == Active then Some(0)
    else
      var r := FirstActive(rows[1..]);
      if r.None? then None else Some(r.value + 1)
  }

  /** The file name shown for a version: the last '/'-segment of its storage
      path, or the document's file name when that segment is empty. */
  function VersionFilename(storagePath: string, docFilename: string): (r: string)
    ensures r == (if storagePath[SegmentStart(storagePath, '/')..] != "" then storagePath[SegmentStart(storagePath, '/')..] else docFilename)
  {
    LastSegmentIsSuffix(storagePath, '/');
    var last := LastSegment(storagePath, '/');
    if last != "" then last else docFilename
  }

  /** `mapVersion`. */
  function MapVersion(doc: DocumentRow, v: VersionRow): (r: Version)
    ensures r.id == v.id && r.storagePath == Some(v.storagePath)
    ensures r.uploadedAt == v.createdAt && r.status == v.status
    ensures r.filename == VersionFilename(v.storagePath, doc.filename)
  {
    Version(v.id, VersionFilename(v.storagePath, doc.filename), Some(v.storagePath), v.createdAt, v.status)
  }

  /** The current version a document without versions gets. */
  function FallbackVersion(doc: DocumentRow): (r: Version)
    ensures r.id == doc.id && r.status == doc.status && r.uploadedAt == doc.createdAt
    ensures r.filename == doc.filename && r.storagePath == Some(doc.storagePath)
  {
    Version(doc.id, doc.filename, Some(doc.storagePath), doc.createdAt, doc.status)
  }

  /** The current version: the first active row in newest-first order,
      else the newest row, else the fallback. */
  function PickCurrent(doc: DocumentRow, sorted: seq<VersionRow>): (r: Version)
    ensures |sorted| > 0 ==> exists k :: 0 <= k < |sorted| && r == MapVersion(doc, sorted[k])
    ensures |sorted| == 0 ==> r == FallbackVersion(doc)
  {
    var active := FirstActive(sorted);
    if active.Some? then MapVersion(doc, sorted[active.value])
    else if |sorted| > 0 then MapVersion(doc, sorted[0])
    else FallbackVersion(doc)
  }

  /** `mapSupabaseToDocument`. */
  function MapSupabaseToDocument(doc: DocumentRow, versions: seq<VersionRow>): (r: Document)
    ensures r.id == doc.id && r.title == doc.name && r.filename == doc.filename
    ensures |r.versions| == |versions|
  {
    var sorted := SortedVersions(versions);
    Document(doc.id, doc.name, doc.filename, Some(doc.storagePath),
             if doc.category != "" then Some(doc.category) else None,
             doc.createdAt, PickCurrent(doc, sorted), Map(sorted, v => MapVersion(doc, v)))
  }

  /** The document's versions are exactly its version rows (none added, none
      dropped), newest first; the header fields come from the document row
      and an empty category becomes no category. */
  lemma MapSupabaseVersions(doc: DocumentRow, versions: seq<VersionRow>)
    ensures var d := MapSupabaseToDocument(doc, versions);
            var sorted := SortedVersions(versions);
            && multiset(sorted) == multiset(versions)
            && |d.versions| == |versions|
            && (forall i :: 0 <= i < |sorted| ==> d.versions[i] == MapVersion(doc, sorted[i]))
            && (forall i, j :: 0 <= i < j < |d.versions| ==> d.versions[i].uploadedAt >= d.versions[j].uploadedAt)
            && d.id == doc.id && d.title == doc.name && d.filename == doc.filename
            && d.createdAt == doc.createdAt && d.storagePath == Some(doc.storagePath)
            && (d.category.None? <==> doc.category == "")
            && (d.category.Some? ==> d.category.value == doc.category)
  {
  }

  /** With an active version, the current one is the first active version
      in newest-first order. */
  lemma CurrentIsFirstActive(doc: DocumentRow, versions: seq<VersionRow>)
    requires exists i :: 0 <= i < |versions| && versions[i].status == Active
    ensures var d := MapSupabaseToDocument(doc, versions);
            exists k :: 0 <= k < |d.versions| && d.currentVersion == d.versions[k] && d.currentVersion.status == Active
                        && forall j :: 0 <= j < k ==> d.versions[j].status != Active
  {
    var sorted := SortedVersions(versions);
    var i :| 0 <= i < |versions| && versions[i].status == Active;
    assert versions[i] in multiset(sorted);
    var m :| 0 <= m < |sorted| && sorted[m] == versions[i];
    var k := FirstActive(sorted).value;
    var d := MapSupabaseToDocument(doc, versions);
    assert d.currentVersion == d.versions[k];
  }

  /** With versions but none active, the current one is the newest. */
  lemma CurrentIsNewest(doc: DocumentRow, versions: seq<VersionRow>)
    requires |versions| > 0
    requires forall i :: 0 <= i < |versions| ==> versions[i].status != Active
    ensures var d := MapSupabaseToDocument(doc, versions);
            && d.currentVersion == d.versions[0]
            && forall j :: 0 <= j < |versions| ==> d.currentVersion.uploadedAt >= versions[j].createdAt
  {
    var sorted := SortedVersions(versions);
    var d := MapSupabaseToDocument(doc, versions);
    forall j | 0 <= j < |sorted| ensures sorted[j].status != Active {
      assert sorted[j] in multiset(versions);
    }
    assert d.currentVersion == MapVersion(doc, sorted[0]);
    forall j | 0 <= j < |versions| ensures sorted[0].createdAt >= versions[j].createdAt {
      assert versions[j] in multiset(sorted);
      var m :| 0 <= m < |sorted| && sorted[m] == versions[j];
    }
  }

  /** Without versions, the current one is synthesised from the document row. */
  lemma CurrentFallback(doc: DocumentRow)
    ensures var d := MapSupabaseToDocument(doc, []);
            && d.currentVersion == FallbackVersion(doc)
            && d.currentVersion.id == doc.id && d.currentVersion.status == doc.status
            && d.versions == []
  {
  }

  /** The document is not soft-deleted (`.neq("status", "deleted")`). */
  predicate IsLive(d: DocumentRow) {
    d.status != Deleted
  }

  /** `.order("created_at", { ascending: false })`. */
  function DocNewestFirst(a: DocumentRow, b: DocumentRow): int {
    b.createdAt - a.createdAt
  }

  /** The documents query: live rows, newest first. */
  function LiveDocuments(allDocs: seq<DocumentRow>): (r: seq<DocumentRow>)
    ensures multiset(r) == multiset(Filter(allDocs, IsLive))
    ensures forall i, j :: 0 <= i < j < |r| ==> r[i].createdAt >= r[j].createdAt
  {
    assert IsComparator(DocNewestFirst);
    SortBySorted(Filter(allDocs, IsLive), DocNewestFirst);
    var r := SortBy(Filter(allDocs, IsLive), DocNewestFirst);
    assert forall i, j :: 0 <= i < j < |r| ==> DocNewestFirst(r[i], r[j]) <= 0;
    r
  }

  /** `.in("document_id", ids)`: the version rows of the listed documents. */
  function FetchVersions(vs: seq<VersionRow>, ids: set<string>): (r: seq<VersionRow>)
    decreases |vs|
  {
    if |vs| == 0 then []
    else (if vs[0].documentId in ids then [vs[0]] else []) + FetchVersions(vs[1..], ids)
  }

  /** `versions.filter(v => v.document_id === doc.id)`. */
  function VersionsOf(vs: seq<VersionRow>, documentId: string): (r: seq<VersionRow>)
    ensures forall i :: 0 <= i < |r| ==> r[i] in vs && r[i].documentId == documentId
    ensures forall i :: 0 <= i < |vs| && vs[i].documentId == documentId ==> vs[i] in r
    decreases |vs|
  {
    if |vs| == 0 then []
    else
      assert vs == [vs[0]] + vs[1..];
      (if vs[0].documentId == documentId then [vs[0]] else []) + VersionsOf(vs[1..], documentId)
  }

  /** Grouping the fetched rows gives the same as grouping all rows, for a
      listed document. */
  lemma {:induction false} VersionsOfFetched(vs: seq<VersionRow>, ids: set<string>, documentId: string)
    requires documentId in ids
    ensures VersionsOf(FetchVersions(vs, ids), documentId) == VersionsOf(vs, documentId)
    decreases |vs|
  {
    if |vs| > 0 {
      VersionsOfFetched(vs[1..], ids, documentId);
      var f := FetchVersions(vs, ids);
      var g := VersionsOf(vs[1..], documentId);
      if vs[0].documentId in ids {
        assert f == [vs[0]] + FetchVersions(vs[1..], ids);
        assert f[1..] == FetchVersions(vs[1..], ids);
      } else {
        assert f == FetchVersions(vs[1..], ids);
        assert VersionsOf(vs, documentId) == [] + g;
        assert [] + g == g;
      }
    }
  }

  /** The query function: a failed fetch fails the whole read, and no live
      documents means no versions query at all. */
  function ListDocuments(allDocs: seq<DocumentRow>, allVersions: seq<VersionRow>,
                         docsFetchFails: bool, versionsFetchFails: bool): (r: Result<seq<Document>, ReadError>)
    ensures r.Success? ==> |r.value| == |LiveDocuments(allDocs)|
  {
    if docsFetchFails then Failure(DocumentsFetchFailed)
    else
      var docs := LiveDocuments(allDocs);
      if |docs| == 0 then Success([])
      else if versionsFetchFails then Failure(VersionsFetchFailed)
      else Success(Assemble(docs, allVersions))
  }

  /** The versions query for the listed documents, then each document
      mapped with its own rows. */
  function Assemble(docs: seq<DocumentRow>, allVersions: seq<VersionRow>): (r: seq<Document>)
    ensures |r| == |docs|
    ensures forall i :: 0 <= i < |docs| ==> r[i].id == docs[i].id && r[i].title == docs[i].name
  {
    var fetched := FetchVersions(allVersions, set d | d in docs :: d.id);
    Map(docs, (d: DocumentRow) => MapSupabaseToDocument(d, VersionsOf(fetched, d.id)))
  }

  /** Each assembled document gets exactly the version rows with its id. */
  lemma AssembleAt(docs: seq<DocumentRow>, allVersions: seq<VersionRow>, i: int)
    requires 0 <= i < |docs|
    ensures |Assemble(docs, allVersions)| == |docs|
    ensures Assemble(docs, allVersions)[i] == MapSupabaseToDocument(docs[i], VersionsOf(allVersions, docs[i].id))
  {
    VersionsOfFetched(allVersions, set d | d in docs :: d.id, docs[i].id);
  }

  /** The read fails exactly when the documents fetch fails, or when there
      is a live document and the versions fetch fails. */
  lemma ListDocumentsFailure(allDocs: seq<DocumentRow>, allVersions: seq<VersionRow>, docsFetchFails: bool, versionsFetchFails: bool)
    ensures var r := ListDocuments(allDocs, allVersions, docsFetchFails, versionsFetchFails);
            r.Failure? <==> docsFetchFails || ((exists i :: 0 <= i < |allDocs| && IsLive(allDocs[i])) && versionsFetchFails)
  {
    if exists i :: 0 <= i < |allDocs| && IsLive(allDocs[i]) {
      var i :| 0 <= i < |allDocs| && IsLive(allDocs[i]);
      assert allDocs[i] in Filter(allDocs, IsLive);
      assert allDocs[i] in multiset(LiveDocuments(allDocs));
    }
  }

  /** A successful read shows one document per live row, newest first. */
  lemma ListDocumentsShape(allDocs: seq<DocumentRow>, allVersions: seq<VersionRow>, docsFetchFails: bool, versionsFetchFails: bool)
    ensures var r := ListDocuments(allDocs, allVersions, docsFetchFails, versionsFetchFails);
            r.Success? ==>
              && |r.value| == Count(allDocs, IsLive)
              && (forall i, j :: 0 <= i < j < |r.value| ==> r.value[i].createdAt >= r.value[j].createdAt)
  {
    var docs := LiveDocuments(allDocs);
    assert |multiset(docs)| == |multiset(Filter(allDocs, IsLive))|;
  }

  /** A successful read lists the live rows newest first, as a permutation
      of the live rows, and its i-th document is built from the i-th of
      them with exactly the version rows that carry its id; so distinct
      documents come from distinct rows. */
  lemma ListDocumentsAt(allDocs: seq<DocumentRow>, allVersions: seq<VersionRow>, docsFetchFails: bool, versionsFetchFails: bool)
    ensures var r := ListDocuments(allDocs, allVersions, docsFetchFails, versionsFetchFails);
            var live := LiveDocuments(allDocs);
            r.Success? ==>
              && multiset(live) == multiset(Filter(allDocs, IsLive))
              && |r.value| == |live|
              && forall i :: 0 <= i < |r.value| ==> r.value[i] == MapSupabaseToDocument(live[i], VersionsOf(allVersions, live[i].id))
  {
    var r := ListDocuments(allDocs, allVersions, docsFetchFails, versionsFetchFails);
    var live := LiveDocuments(allDocs);
    if r.Success? && |live| > 0 {
      forall i | 0 <= i < |r.value|
        ensures r.value[i] == MapSupabaseToDocument(live[i], VersionsOf(allVersions, live[i].id))
      {
        AssembleAt(live, allVersions, i);
      }
    }
  }

  /** Each document of a successful read comes from a live row and is built
      from exactly the version rows that carry its id. */
  lemma ListDocumentsContents(allDocs: seq<DocumentRow>, allVersions: seq<VersionRow>, docsFetchFails: bool, versionsFetchFails: bool)
    ensures var r := ListDocuments(allDocs, allVersions, docsFetchFails, versionsFetchFails);
            r.Success? ==>
              forall i :: 0 <= i < |r.value| ==>
                exists d :: d in allDocs && IsLive(d) && r.value[i] == MapSupabaseToDocument(d, VersionsOf(allVersions, d.id))
  {
    var r := ListDocuments(allDocs, allVersions, docsFetchFails, versionsFetchFails);
    var docs := LiveDocuments(allDocs);
    if r.Success? && |docs| > 0 {
      forall i | 0 <= i < |r.value|
        ensures exists d :: d in allDocs && IsLive(d) && r.value[i] == MapSupabaseToDocument(d, VersionsOf(allVersions, d.id))
      {
        AssembleAt(docs, allVersions, i);
        assert docs[i] in multiset(Filter(allDocs, IsLive));
        assert docs[i] in Filter(allDocs, IsLive);
      }
    }
  }
}

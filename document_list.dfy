/** The document list (src/components/documents/DocumentList.tsx): search,
    status filter and sort of the shown documents, and the per-status
    counters over all documents. The Swedish-locale string comparison is a
    parameter `collate`. */
module DocumentList {
  import opened Text
  import opened Seqs
  import opened DocumentTypes
  import opened SortDropdown

  /** The status filter: everything, or one status. */
  datatype StatusFilter = All | Only(status: Status)

  /** The search hit test for a non-empty query: the lower-cased query
      occurs in the lower-cased title or file name. */
  predicate MatchesSearch(d: Document, query: string) {
    Contains(Lower(d.title), Lower(query)) || Contains(Lower(d.filename), Lower(query))
  }

  /** The search filter; an empty query keeps everything. */
  function SearchFilter(docs: seq<Document>, query: string): (r: seq<Document>)
    ensures query == "" ==> r == docs
    ensures query != "" ==> r == Filter(docs, (d: Document) => MatchesSearch(d, query))
  {
    if query == "" then docs else Filter(docs, (d: Document) => MatchesSearch(d, query))
  }

  /** The status filter. */
  function StatusFilterOf(docs: seq<Document>, f: StatusFilter): (r: seq<Document>)
    ensures f == All ==> r == docs
    ensures f.Only? ==> r == Filter(docs, (d: Document) => d.currentVersion.status == f.status)
  {
    if f == All then docs else Filter(docs, (d: Document) => d.currentVersion.status == f.status)
  }

  /** The ascending comparison of one sort field; "extension" has no case
      and compares every pair as equal. */
  function CompareAsc(field: SortField, collate: (string, string) -> int, a: Document, b: Document): int {
    match field
    case Date => a.currentVersion.uploadedAt - b.currentVersion.uploadedAt
    case Title => collate(a.title, b.title)
    case Filename => collate(a.filename, b.filename)
    case Extension => 0
  }

  /** The comparator handed to `sort`: the ascending one, negated for "desc". */
  function Comparator(field: SortField, direction: SortDirection, collate: (string, string) -> int): (Document, Document) -> int {
    (a: Document, b: Document) =>
      var c := CompareAsc(field, collate, a, b);
      if direction == Asc then c else -c
  }

  /** `filteredDocuments`: search, then status filter, then a stable sort of
      the copy; the input itself is untouched. */
  function FilteredDocuments(docs: seq<Document>, query: string, status: StatusFilter,
                             field: SortField, direction: SortDirection,
                             collate: (string, string) -> int): seq<Document> {
    SortBy(StatusFilterOf(SearchFilter(docs, query), status), Comparator(field, direction, collate))
  }

  /** Whether a document passes both filters. */
  predicate Passes(d: Document, query: string, status: StatusFilter) {
    (query == "" || MatchesSearch(d, query)) && (status == All || d.currentVersion.status == status.status)
  }

  /** The two filters in a row keep exactly the documents that pass both,
      in input order. */
  lemma FiltersArePassing(docs: seq<Document>, query: string, status: StatusFilter)
    ensures StatusFilterOf(SearchFilter(docs, query), status) == Filter(docs, (d: Document) => Passes(d, query, status))
  {
    var search := (d: Document) => MatchesSearch(d, query);
    var passes := (d: Document) => Passes(d, query, status);
    if query == "" && status == All {
      FilterAll(docs, passes);
    } else if query == "" {
      FilterExt(docs, (d: Document) => d.currentVersion.status == status.status, passes);
    } else if status == All {
      FilterExt(docs, search, passes);
    } else {
      FilterFilter(docs, search, (d: Document) => d.currentVersion.status == status.status, passes);
    }
  }

  /** The list holds exactly the documents that pass both filters, each as
      often as in the input. */
  lemma FilteredDocumentsArePassing(docs: seq<Document>, query: string, status: StatusFilter,
                                    field: SortField, direction: SortDirection, collate: (string, string) -> int)
    ensures multiset(FilteredDocuments(docs, query, status, field, direction, collate))
         == multiset(Filter(docs, (d: Document) => Passes(d, query, status)))
  {
    FiltersArePassing(docs, query, status);
  }

  /** The sort is stable: the shown documents that compare equal to any
      document `a` under the chosen field and direction appear in the order
      they have in the input. */
  lemma FilteredDocumentsStable(docs: seq<Document>, query: string, status: StatusFilter,
                                field: SortField, direction: SortDirection, collate: (string, string) -> int,
                                a: Document)
    requires IsComparator(collate)
    ensures var tie := TiesWith(Comparator(field, direction, collate), a);
      Filter(FilteredDocuments(docs, query, status, field, direction, collate), tie)
      == Filter(Filter(docs, (d: Document) => Passes(d, query, status)), tie)
  {
    FiltersArePassing(docs, query, status);
    ComparatorValid(field, direction, collate);
    SortByStable(StatusFilterOf(SearchFilter(docs, query), status), Comparator(field, direction, collate), a);
  }

  /** Hence a document is shown exactly when it is in the input and passes. */
  lemma FilteredDocumentsMembership(docs: seq<Document>, query: string, status: StatusFilter,
                                    field: SortField, direction: SortDirection, collate: (string, string) -> int,
                                    d: Document)
    ensures d in FilteredDocuments(docs, query, status, field, direction, collate) <==> d in docs && Passes(d, query, status)
  {
    var passes := (d: Document) => Passes(d, query, status);
    FilteredDocumentsArePassing(docs, query, status, field, direction, collate);
    var f := Filter(docs, passes);
    assert d in FilteredDocuments(docs, query, status, field, direction, collate) <==> d in multiset(f);
    if d in docs && Passes(d, query, status) {
      var i :| 0 <= i < |docs| && docs[i] == d;
      assert d in f;
    }
  }

  /** "desc" reverses every comparison of "asc". */
  lemma DescNegatesAsc(field: SortField, collate: (string, string) -> int, a: Document, b: Document)
    ensures Comparator(field, Desc, collate)(a, b) == -Comparator(field, Asc, collate)(a, b)
  {
  }

  /** With a valid collation, every field and direction gives a valid
      comparator, so the list comes out ordered by it. */
  lemma ComparatorValid(field: SortField, direction: SortDirection, collate: (string, string) -> int)
    requires IsComparator(collate)
    ensures IsComparator(Comparator(field, direction, collate))
  {
    var asc := Comparator(field, Asc, collate);
    assert IsComparator(asc) by {
      forall a: Document, b: Document, c: Document | asc(a, b) <= 0 && asc(b, c) <= 0 ensures asc(a, c) <= 0 {
        if field == Title {
          assert collate(a.title, b.title) <= 0 && collate(b.title, c.title) <= 0;
        } else if field == Filename {
          assert collate(a.filename, b.filename) <= 0 && collate(b.filename, c.filename) <= 0;
        }
      }
    }
    if direction == Desc {
      var desc := Comparator(field, Desc, collate);
      forall a: Document, b: Document ensures desc(a, b) <= 0 <==> asc(b, a) <= 0 {
        assert desc(a, b) == -asc(a, b);
      }
      forall a: Document, b: Document, c: Document | desc(a, b) <= 0 && desc(b, c) <= 0 ensures desc(a, c) <= 0 {
        assert asc(c, b) <= 0 && asc(b, a) <= 0;
      }
    }
  }

  /** The shown list is ordered by the chosen comparator. */
  lemma FilteredDocumentsSorted(docs: seq<Document>, query: string, status: StatusFilter,
                                field: SortField, direction: SortDirection, collate: (string, string) -> int)
    requires IsComparator(collate)
    ensures SortedBy(FilteredDocuments(docs, query, status, field, direction, collate), Comparator(field, direction, collate))
  {
    ComparatorValid(field, direction, collate);
    SortBySorted(StatusFilterOf(SearchFilter(docs, query), status), Comparator(field, direction, collate));
  }

  /** Sorting by "extension" keeps the filtered order, in either direction. */
  lemma ExtensionSortKeepsOrder(docs: seq<Document>, query: string, status: StatusFilter,
                                direction: SortDirection, collate: (string, string) -> int)
    ensures FilteredDocuments(docs, query, status, Extension, direction, collate)
         == StatusFilterOf(SearchFilter(docs, query), status)
  {
    var t := StatusFilterOf(SearchFilter(docs, query), status);
    var cmp := Comparator(Extension, direction, collate);
    forall i, j | 0 <= i < |t| && 0 <= j < |t| ensures cmp(t[i], t[j]) == 0 {
      assert CompareAsc(Extension, collate, t[i], t[j]) == 0;
    }
    SortByAllTies(t, cmp);
  }

  // ---------------------------------------------------------------------
  // counts

  /** The number of documents whose current version has status `s`. */
  function CountWithStatus(docs: seq<Document>, s: Status): nat
    decreases |docs|
  {
    if |docs| == 0 then 0
    else CountWithStatus(docs[..|docs| - 1], s) + (if docs[|docs| - 1].currentVersion.status == s then 1 else 0)
  }

  /** Every document is counted under exactly one status. */
  lemma {:induction false} StatusCountsSum(docs: seq<Document>)
    ensures CountWithStatus(docs, Active) + CountWithStatus(docs, Pending)
          + CountWithStatus(docs, Inactive) + CountWithStatus(docs, Deleted) == |docs|
    decreases |docs|
  {
    if |docs| > 0 {
      StatusCountsSum(docs[..|docs| - 1]);
    }
  }

  /** A status has count 0 exactly when no document has it. */
  lemma {:induction false} CountWithStatusZero(docs: seq<Document>, s: Status)
    ensures CountWithStatus(docs, s) == 0 <==> forall i :: 0 <= i < |docs| ==> docs[i].currentVersion.status != s
    decreases |docs|
  {
    if |docs| > 0 {
      CountWithStatusZero(docs[..|docs| - 1], s);
    }
  }

  datatype StatusCounts = StatusCounts(all: nat, active: nat, pending: nat, inactive: nat, deleted: nat)

  /** `counts`: "all" is the number of documents and each document adds one
      to the counter of its current status. */
  method Counts(docs: seq<Document>) returns (c: StatusCounts)
    ensures c.all == |docs|
    ensures c.active == CountWithStatus(docs, Active) && c.pending == CountWithStatus(docs, Pending)
    ensures c.inactive == CountWithStatus(docs, Inactive) && c.deleted == CountWithStatus(docs, Deleted)
    ensures c.active + c.pending + c.inactive + c.deleted == c.all
  {
    c := StatusCounts(|docs|, 0, 0, 0, 0);
    var i := 0;
    while i < |docs|
      invariant 0 <= i <= |docs|
      invariant c.all == |docs|
      invariant c.active == CountWithStatus(docs[..i], Active) && c.pending == CountWithStatus(docs[..i], Pending)
      invariant c.inactive == CountWithStatus(docs[..i], Inactive) && c.deleted == CountWithStatus(docs[..i], Deleted)
    {
      assert docs[..i + 1][..i] == docs[..i];
      match docs[i].currentVersion.status {
        case Active => c := c.(active := c.active + 1);
        case Pending => c := c.(pending := c.pending + 1);
        case Inactive => c := c.(inactive := c.inactive + 1);
        case Deleted => c := c.(deleted := c.deleted + 1);
      }
      i := i + 1;
    }
    assert docs[..i] == docs;
    StatusCountsSum(docs);
  }
}

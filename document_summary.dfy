/** The summary cards above the document list
    (src/components/documents/DocumentSummary.tsx). The counter record has
    no "deleted" entry, so a deleted document adds to the total only. */
module DocumentSummary {
  import opened DocumentTypes
  import opened DocumentList

  /** The four numbers the cards show. */
  datatype SummaryCounts = SummaryCounts(all: nat, pending: nat, active: nat, inactive: nat)

  /** `counts`: the total, and one per pending, active and inactive current
      version. */
  method Summarize(docs: seq<Document>) returns (c: SummaryCounts)
    ensures c.all == |docs|
    ensures c.pending == CountWithStatus(docs, Pending)
    ensures c.active == CountWithStatus(docs, Active)
    ensures c.inactive == CountWithStatus(docs, Inactive)
  {
    c := SummaryCounts(|docs|, 0, 0, 0);
    var i := 0;
    while i < |docs|
      invariant 0 <= i <= |docs|
      invariant c.all == |docs|
      invariant c.pending == CountWithStatus(docs[..i], Pending)
      invariant c.active == CountWithStatus(docs[..i], Active)
      invariant c.inactive == CountWithStatus(docs[..i], Inactive)
    {
      assert docs[..i + 1][..i] == docs[..i];
      match docs[i].currentVersion.status {
        case Pending => c := c.(pending := c.pending + 1);
        case Active => c := c.(active := c.active + 1);
        case Inactive => c := c.(inactive := c.inactive + 1);
        case Deleted =>
      }
      i := i + 1;
    }
    assert docs[..i] == docs;
  }

  /** The three status cards add up to the "Totalt" card exactly when no
      current version is deleted; otherwise they fall short by the number of
      deleted documents. */
  lemma CardsAddUpIffNoneDeleted(docs: seq<Document>)
    ensures CountWithStatus(docs, Pending) + CountWithStatus(docs, Active) + CountWithStatus(docs, Inactive)
            == |docs| - CountWithStatus(docs, Deleted)
    ensures CountWithStatus(docs, Pending) + CountWithStatus(docs, Active) + CountWithStatus(docs, Inactive) == |docs|
            <==> forall i :: 0 <= i < |docs| ==> docs[i].currentVersion.status != Deleted
  {
    StatusCountsSum(docs);
    CountWithStatusZero(docs, Deleted);
  }

  /** The "to review" card is highlighted while some document is pending. */
  predicate HighlightPending(c: SummaryCounts) {
    c.pending > 0
  }

  lemma HighlightIffSomePending(docs: seq<Document>, c: SummaryCounts)
    requires c.pending == CountWithStatus(docs, Pending)
    ensures HighlightPending(c) <==> exists i :: 0 <= i < |docs| && docs[i].currentVersion.status == Pending
  {
    CountWithStatusZero(docs, Pending);
  }
}

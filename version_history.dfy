/** The version timeline of the selected document
    (src/components/documents/VersionHistory.tsx): which entry is marked
    current, where the connector line is drawn and which entries offer a
    rollback. */
module VersionHistory {
  import opened DocumentTypes
  import opened DocumentsPage
  import opened DocumentRow

  /** Entry `i` carries the "Nuvarande" badge: its id is the current one. */
  predicate IsCurrent(d: Document, i: int)
    requires 0 <= i < |d.versions|
  {
    d.versions[i].id == d.currentVersion.id
  }

  /** Entry `i` has a connector line to the next one unless it is the last. */
  predicate ShowConnector(d: Document, i: int)
    requires 0 <= i < |d.versions|
  {
    i != |d.versions| - 1
  }

  /** Entry `i` offers "Återställ": it is not current and not deleted. */
  predicate CanRollback(d: Document, i: int)
    requires 0 <= i < |d.versions|
  {
    !IsCurrent(d, i) && d.versions[i].status != Deleted
  }

  /** The tip about newer versions turning inactive. */
  predicate ShowTip(d: Document) {
    |d.versions| > 1
  }

  /** The ids of the versions are pairwise distinct. */
  predicate DistinctIds(vs: seq<Version>) {
    forall i, j :: 0 <= i < j < |vs| ==> vs[i].id != vs[j].id
  }

  /** Every entry but the last has a connector. */
  lemma ConnectorsBetweenEntries(d: Document)
    ensures forall i :: 0 <= i < |d.versions| ==> (ShowConnector(d, i) <==> i + 1 < |d.versions|)
  {
  }

  /** When the current version is in the list, a rollback is offered only if
      there are at least two versions, so the tip, the row's badge and its
      rollback entry are then all shown. */
  lemma {:induction false} RollbackOfferedNeedsTwoVersions(d: Document, i: int, k: int)
    requires 0 <= k < |d.versions| && d.versions[k].id == d.currentVersion.id
    requires 0 <= i < |d.versions| && CanRollback(d, i)
    ensures ShowTip(d) && Menu(d).rollback && VersionBadge(d).Some?
  {
    assert i != k;
  }

  /** Rolling back from the timeline to an offered entry `k` (ids distinct)
      makes `k` the only entry marked current, so it no longer offers a
      rollback; the newer entries become inactive and each offers one. */
  lemma {:induction false} RollbackFromTimeline(d: Document, k: int)
    requires DistinctIds(d.versions)
    requires 0 <= k < |d.versions| && CanRollback(d, k)
    ensures var r := RollbackDoc(d, d.versions[k].id);
            && |r.versions| == |d.versions|
            && IsCurrent(r, k) && !CanRollback(r, k)
            && (forall j :: 0 <= j < |r.versions| && j != k ==> !IsCurrent(r, j))
            && (forall j :: 0 <= j < k ==> r.versions[j].status == Inactive && CanRollback(r, j))
  {
    RollbackSpec(d, d.versions[k].id);
    var r := RollbackDoc(d, d.versions[k].id);
    assert r.currentVersion == r.versions[k];
    forall j | 0 <= j < |r.versions| && j != k ensures !IsCurrent(r, j) {
      assert r.versions[j].id == d.versions[j].id;
      if j < k {
        assert d.versions[j].id != d.versions[k].id;
      } else {
        assert d.versions[k].id != d.versions[j].id;
      }
    }
  }
}

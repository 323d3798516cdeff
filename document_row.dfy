/** One row of the document list (src/components/documents/DocumentRow.tsx):
    the version badge and which entries its action menu offers. */
module DocumentRow {
  import opened Wrappers
  import opened DocumentTypes
  import opened DocumentsPage

  /** The "{n} v" badge: shown with the number of versions when there is
      more than one. */
  function VersionBadge(d: Document): (r: Option<nat>)
    ensures r.Some? <==> |d.versions| > 1
    ensures r.Some? ==> r.value == |d.versions| && r.value >= 2
  {
    if |d.versions| > 1 then Some(|d.versions|) else None
  }

  /** The menu entries of a row. "Show versions" is always there. */
  datatype MenuEntries = MenuEntries(rollback: bool, activate: bool, deactivate: bool, delete: bool)

  /** The action menu, from the number of versions and the current status. */
  function Menu(d: Document): (r: MenuEntries)
    ensures !(r.activate && r.deactivate)
  {
    var s := d.currentVersion.status;
    MenuEntries(
      rollback := |d.versions| > 1,
      activate := s == Inactive || s == Deleted,
      deactivate := !(s == Inactive || s == Deleted) && s == Active,
      delete := s != Deleted)
  }

  /** The menu by status: activate for inactive and deleted, deactivate for
      active, neither for pending; never both; delete unless deleted. */
  lemma MenuByStatus(d: Document)
    ensures var m := Menu(d);
            && !(m.activate && m.deactivate)
            && (d.currentVersion.status == Active ==> !m.activate && m.deactivate && m.delete)
            && (d.currentVersion.status == Pending ==> !m.activate && !m.deactivate && m.delete)
            && (d.currentVersion.status == Inactive ==> m.activate && !m.deactivate && m.delete)
            && (d.currentVersion.status == Deleted ==> m.activate && !m.deactivate && !m.delete)
  {
  }

  /** The rollback entry appears exactly when the badge does. */
  lemma RollbackEntryWithBadge(d: Document)
    ensures Menu(d).rollback <==> VersionBadge(d).Some?
  {
  }

  /** After a menu action on the page, the menu offers its opposite:
      activating offers deactivate, deactivating and deleting offer
      activate, and a deleted row no longer offers delete. */
  lemma MenuAfterAction(docs: seq<Document>, docId: string, i: int)
    requires 0 <= i < |docs| && docs[i].id == docId
    ensures Menu(SetCurrentStatus(docs, docId, Active)[i]).deactivate
    ensures Menu(SetCurrentStatus(docs, docId, Inactive)[i]).activate
    ensures var m := Menu(SetCurrentStatus(docs, docId, Deleted)[i]); m.activate && !m.delete
    ensures Menu(SetCurrentStatus(docs, docId, Active)[i]).rollback == Menu(docs[i]).rollback
  {
    SetCurrentStatusEffect(docs, docId, Active, i);
    SetCurrentStatusEffect(docs, docId, Inactive, i);
    SetCurrentStatusEffect(docs, docId, Deleted, i);
  }
}

/** The category sidebar (src/components/documents/CategoryTree.tsx): the
    "all documents" and "uncategorized" entries, and per node the selection
    tests and the expansion state. */
module CategoryTree {
  import opened Wrappers
  import opened Text
  import opened DocumentTypes

  /** The node is the selected category. */
  predicate IsSelected(selected: Option<string>, path: string) {
    selected == Some(path)
  }

  /** The selected category lies strictly below the node. */
  predicate IsParentOfSelected(selected: Option<string>, path: string) {
    selected.Some? && StartsWith(selected.value, path + "/")
  }

  /** The initial expansion: a raw prefix test, without the '/'. */
  predicate InitiallyExpanded(selected: Option<string>, path: string) {
    selected.Some? && StartsWith(selected.value, path)
  }

  /** "Alla dokument" selects nothing. */
  function SelectAll(): (r: Option<string>)
    ensures r.None?
  {
    None
  }

  /** The "Okategoriserade" entry is listed only while it has documents, and
      selects the uncategorized key. */
  function UncategorizedEntry(uncategorizedCount: nat): (r: Option<Option<string>>)
    ensures r.Some? <==> uncategorizedCount > 0
    ensures r.Some? ==> r.value == Some(UncategorizedKey)
  {
    if uncategorizedCount > 0 then Some(Some(UncategorizedKey)) else None
  }

  /** A node is "parent of selected" exactly when the selection is in its
      subtree and is not the node itself; a node is never both. */
  lemma ParentMeansStrictlyUnder(selected: Option<string>, path: string)
    ensures IsParentOfSelected(selected, path) <==>
              selected.Some? && AtOrUnder(selected.value, path) && selected.value != path
    ensures !(IsSelected(selected, path) && IsParentOfSelected(selected, path))
  {
  }

  /** The selected node and its ancestors start expanded. */
  lemma SelectedPathStartsExpanded(selected: Option<string>, path: string)
    requires IsSelected(selected, path) || IsParentOfSelected(selected, path)
    ensures InitiallyExpanded(selected, path)
  {
    if IsParentOfSelected(selected, path) {
      assert selected.value[..|path|] == (path + "/")[..|path|];
    }
  }

  /** The raw prefix test also expands a node whose path is a mere string
      prefix of the selection: "A" starts expanded when "AB" is selected,
      although it is neither selected nor its parent. */
  lemma RawPrefixExpandsNonAncestor()
    ensures InitiallyExpanded(Some("AB"), "A")
    ensures !IsSelected(Some("AB"), "A") && !IsParentOfSelected(Some("AB"), "A")
  {
    assert "AB"[..1] == "A";
    assert "AB"[..2] == "AB";
    assert "AB"[1] != ("A" + "/")[1];
  }

  /** One node of the tree and its expansion state. */
  class TreeItem {
    const path: string
    const hasChildren: bool
    var isExpanded: bool

    /** A node as first rendered under the current selection. */
    constructor (path: string, childCount: nat, selected: Option<string>)
      ensures this.path == path && hasChildren == (childCount > 0)
      ensures isExpanded == InitiallyExpanded(selected, path)
    {
      this.path := path;
      hasChildren := childCount > 0;
      isExpanded := selected.Some? && StartsWith(selected.value, path);
    }

    /** `handleClick`: select the node, and open it when it has children and
        is closed; a click never closes a node. */
    method Click() returns (selection: Option<string>)
      modifies this
      ensures selection == Some(path) && IsSelected(selection, path)
      ensures isExpanded == (old(isExpanded) || hasChildren)
    {
      selection := Some(path);
      if hasChildren && !isExpanded {
        isExpanded := true;
      }
    }

    /** `handleToggle`: flip the expansion, selection unchanged. */
    method Toggle()
      modifies this
      ensures isExpanded == !old(isExpanded)
    {
      isExpanded := !isExpanded;
    }
  }
}

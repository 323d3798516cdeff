/** The sort control of the document list
    (src/components/documents/SortDropdown.tsx): four fields, two
    directions, and the transition made when a field is picked. */
module SortDropdown {

  datatype SortField = Date | Title | Filename | Extension
  datatype SortDirection = Asc | Desc

  /** The field and direction the list is sorted by. */
  datatype SortState = SortState(field: SortField, direction: SortDirection)

  /** The fields the menu offers, in menu order. */
  const SortOptions: seq<SortField> := [Date, Title, Filename, Extension]

  function Flip(d: SortDirection): SortDirection {
    if d == Asc then Desc else Asc
  }

  /** `handleSelect`: picking the current field flips the direction, picking
      another field sorts by it descending. */
  function HandleSelect(s: SortState, newField: SortField): (r: SortState)
    ensures r.field == newField
    ensures newField == s.field ==> r.direction != s.direction
    ensures newField != s.field ==> r.direction == Desc
  {
    if newField == s.field then SortState(s.field, Flip(s.direction))
    else SortState(newField, Desc)
  }

  /** Picking the current field twice restores the state. */
  lemma SelectSameTwice(s: SortState)
    ensures HandleSelect(HandleSelect(s, s.field), s.field) == s
  {
  }

  /** Picking another field and then the old one sorts by the old field
      descending, whatever the old direction was. */
  lemma SelectAwayAndBack(s: SortState, other: SortField)
    requires other != s.field
    ensures HandleSelect(HandleSelect(s, other), s.field) == SortState(s.field, Desc)
  {
  }

  /** Every field, "extension" included, is on the menu, once. */
  lemma EveryFieldOffered(f: SortField)
    ensures f in SortOptions
    ensures forall i, j :: 0 <= i < j < |SortOptions| ==> SortOptions[i] != SortOptions[j]
  {
  }
}

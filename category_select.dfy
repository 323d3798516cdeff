/** The category picker of the upload and detail views
    (src/components/documents/CategorySelect.tsx): choosing an existing
    category, "no category", or creating one from typed text. */
module CategorySelect {
  import opened Wrappers
  import opened Text
  import opened DocumentTypes
  import opened CategoryTree

  /** The create button is enabled for input that is not blank. */
  predicate CanCreate(input: string) {
    Trim(input) != ""
  }

  /** "Ingen kategori" is highlighted while the value is empty or absent. */
  predicate NoneHighlighted(value: Option<string>) {
    !Truthy(value)
  }

  /** A picker item is highlighted when the value is its path. */
  predicate ItemSelected(value: Option<string>, path: string) {
    value == Some(path)
  }

  /** Creation is possible exactly when the input has a character that is
      not white space. */
  lemma CanCreateIffNotBlank(input: string)
    ensures CanCreate(input) <==> exists k :: 0 <= k < |input| && !IsSpace(input[k])
  {
    TrimEmptyIffBlank(input);
  }

  /** A created category neither starts nor ends with white space, and
      trimming it again changes nothing. */
  lemma CreatedCategoryIsTrimmed(input: string)
    requires CanCreate(input)
    ensures var c := Trim(input); c != "" && !IsSpace(c[0]) && !IsSpace(c[|c| - 1]) && Trim(c) == c
  {
    TrimIdempotent(input);
  }

  /** Choosing "Ingen kategori" emits the empty string, which highlights
      that entry, and neither highlights nor expands any category item with a
      non-empty path. */
  lemma NoCategoryChoice(path: string)
    requires path != ""
    ensures NoneHighlighted(Some("")) && !ItemSelected(Some(""), path)
    ensures !InitiallyExpanded(Some(""), path)
  {
  }

  /** The open popover with its text field. */
  class Picker {
    var open: bool
    var newCategoryInput: string

    constructor ()
      ensures !open && newCategoryInput == ""
    {
      open := false;
      newCategoryInput := "";
    }

    /** Typing into the text field. */
    method Type(text: string)
      modifies this
      ensures newCategoryInput == text && open == old(open)
    {
      newCategoryInput := text;
    }

    /** `handleSelect`: emit the chosen path ("" for "Ingen kategori") and
        close. */
    method Select(path: string) returns (emitted: string)
      modifies this
      ensures emitted == path && !open
      ensures newCategoryInput == old(newCategoryInput)
    {
      emitted := path;
      open := false;
    }

    /** `handleCreateCategory`: blank input does nothing; otherwise emit the
        trimmed input, clear the field and close. */
    method CreateCategory() returns (emitted: Option<string>)
      modifies this
      ensures !CanCreate(old(newCategoryInput)) ==>
                emitted.None? && open == old(open) && newCategoryInput == old(newCategoryInput)
      ensures CanCreate(old(newCategoryInput)) ==>
                emitted == Some(Trim(old(newCategoryInput))) && newCategoryInput == "" && !open
    {
      if Trim(newCategoryInput) != "" {
        emitted := Some(Trim(newCategoryInput));
        newCategoryInput := "";
        open := false;
      } else {
        emitted := None;
      }
    }
  }
}

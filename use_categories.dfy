/**
  The category list of src/hooks/useCategories.ts: the React state `categories` is the
  field of a `CategoryStore`, never empty because every path that would empty it falls
  back to `DEFAULT_CATEGORIES`.
*/
module UseCategories {
  import opened Types

  /** `updateCategories`: `undefined` (None) or an empty list gives the defaults. */
  function UpdatedCategories(newCategories: Option<seq<CategoryConfig>>): (r: seq<CategoryConfig>)
    ensures r != []
    ensures newCategories.Some? && newCategories.value != [] ==> r == newCategories.value
    ensures newCategories.None? || newCategories.value == [] ==> r == DEFAULT_CATEGORIES
  {
    if newCategories.None? || |newCategories.value| == 0 then DEFAULT_CATEGORIES else newCategories.value
  }

  class CategoryStore {
    var categories: seq<CategoryConfig>

    predicate Valid()
      reads this
    {
      categories != []
    }

    constructor()
      ensures categories == DEFAULT_CATEGORIES && Valid()
    {
      categories := DEFAULT_CATEGORIES;
    }

    method UpdateCategories(newCategories: Option<seq<CategoryConfig>>)
      modifies this
      ensures categories == UpdatedCategories(newCategories) && Valid()
    {
      if newCategories.None? || |newCategories.value| == 0 {
        categories := DEFAULT_CATEGORIES;
        return;
      }
      categories := newCategories.value;
    }

    method ResetCategories()
      modifies this
      ensures categories == DEFAULT_CATEGORIES && Valid()
    {
      categories := DEFAULT_CATEGORIES;
    }
  }
}

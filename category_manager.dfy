/**
  The category editor of components/Settings/CategoryManager.tsx. The component's state
  (`error`, `editingValues`, `draggedIndex`, `dragOverIndex`) and the `categories` it is
  given are the fields of a `CategoryManager`. Every handler that calls
  `onCategoriesChange` is modelled with the parent passing the new list straight back,
  after which the effect on `categories` rebuilds `editingValues`.
*/
module CategoryManagerModel {
  import opened Types
  import opened Strings

  const EMPTY_NAME_MESSAGE: string := "Category name cannot be empty"
  const LAST_CATEGORY_MESSAGE: string := "Cannot delete the last category"
  const MAX_CATEGORIES_MESSAGE: string := "Maximum of 4 categories allowed"
  const MAX_CATEGORIES: nat := 4

  function DuplicateMessage(name: string): string {
    "Category \"" + name + "\" already exists"
  }

  /** `categories.reduce((acc, cat) => ({ ...acc, [cat.id]: cat.label }), {})`. */
  function LabelMap(categories: seq<CategoryConfig>): (m: map<string, string>)
    ensures m.Keys == set i | 0 <= i < |categories| :: categories[i].id
    ensures forall i :: 0 <= i < |categories| ==> categories[i].id in m
    ensures forall i :: 0 <= i < |categories| && (forall j :: i < j < |categories| ==> categories[j].id != categories[i].id) ==>
      m[categories[i].id] == categories[i].labelText
  {
    if categories == [] then map[]
    else
      var init, last := categories[..|categories| - 1], categories[|categories| - 1];
      var m := LabelMap(init);
      assert categories == init + [last];
      LabelMapStep(init, last, m);
      m[last.id := last.labelText]
  }

  /** One more category in the `reduce`: its id becomes a key holding its label. */
  lemma LabelMapStep(init: seq<CategoryConfig>, last: CategoryConfig, m: map<string, string>)
    requires m.Keys == set i | 0 <= i < |init| :: init[i].id
    requires forall i :: 0 <= i < |init| && (forall j :: i < j < |init| ==> init[j].id != init[i].id) ==>
      m[init[i].id] == init[i].labelText
    ensures var c, r := init + [last], m[last.id := last.labelText];
      r.Keys == (set i | 0 <= i < |c| :: c[i].id) &&
      (forall i :: 0 <= i < |c| ==> c[i].id in r) &&
      (forall i :: 0 <= i < |c| && (forall j :: i < j < |c| ==> c[j].id != c[i].id) ==> r[c[i].id] == c[i].labelText)
  {
    var c, r := init + [last], m[last.id := last.labelText];
    assert forall i :: 0 <= i < |init| ==> c[i] == init[i];
    assert c[|init|] == last;
    var ids, initIds := set i | 0 <= i < |c| :: c[i].id, set i | 0 <= i < |init| :: init[i].id;
    forall x | x in ids ensures x in initIds + {last.id} {
      var i :| 0 <= i < |c| && c[i].id == x;
      if i < |init| { assert init[i].id == x; }
    }
    forall x | x in initIds ensures x in ids {
      var i :| 0 <= i < |init| && init[i].id == x;
      assert c[i].id == x;
    }
    assert ids == initIds + {last.id};
    forall i | 0 <= i < |c| && (forall j :: i < j < |c| ==> c[j].id != c[i].id)
      ensures r[c[i].id] == c[i].labelText
    {
      if i < |init| {
        assert c[|init|].id != c[i].id;
        assert forall j :: i < j < |init| ==> init[j].id != init[i].id by {
          forall j | i < j < |init| ensures init[j].id != init[i].id { assert c[j] == init[j]; }
        }
      }
    }
  }

  /** Another category already has this label, compared in lower case. */
  predicate IsDuplicateLabel(categories: seq<CategoryConfig>, index: nat, name: string) {
    exists i :: 0 <= i < |categories| && i != index && ToLower(categories[i].labelText) == ToLower(name)
  }

  /** The list after renaming category `index` to the edited text, or nothing when the
      rename is refused. */
  function Renamed(categories: seq<CategoryConfig>, index: nat, edited: string): (r: Option<seq<CategoryConfig>>)
    requires index < |categories|
    ensures r.None? <==> Trim(edited) == [] || IsDuplicateLabel(categories, index, Trim(edited))
    ensures r.Some? ==> |r.value| == |categories|
    ensures r.Some? ==> r.value[index] == categories[index].(labelText := Trim(edited))
    ensures r.Some? ==> forall i :: 0 <= i < |categories| && i != index ==> r.value[i] == categories[i]
  {
    var name := Trim(edited);
    if name == [] || IsDuplicateLabel(categories, index, name) then None
    else Some(categories[index := categories[index].(labelText := name)])
  }

  function WithColor(categories: seq<CategoryConfig>, index: nat, color: string): (r: seq<CategoryConfig>)
    requires index < |categories|
    ensures |r| == |categories| && r[index] == categories[index].(color := color)
    ensures forall i :: 0 <= i < |categories| && i != index ==> r[i] == categories[i]
  {
    categories[index := categories[index].(color := color)]
  }

  function Toggled(categories: seq<CategoryConfig>, index: nat): (r: seq<CategoryConfig>)
    requires index < |categories|
    ensures |r| == |categories| && r[index] == categories[index].(visible := !categories[index].visible)
    ensures forall i :: 0 <= i < |categories| && i != index ==> r[i] == categories[i]
  {
    categories[index := categories[index].(visible := !categories[index].visible)]
  }

  /** Toggling twice gives back the list. */
  lemma ToggleTwice(categories: seq<CategoryConfig>, index: nat)
    requires index < |categories|
    ensures Toggled(Toggled(categories, index), index) == categories
  {
    var r := Toggled(Toggled(categories, index), index);
    assert forall i :: 0 <= i < |categories| ==> r[i] == categories[i];
  }

  /** `categories.filter((_, i) => i !== index)`: an index past the end removes nothing. */
  function RemoveAt(categories: seq<CategoryConfig>, index: nat): (r: seq<CategoryConfig>)
    ensures index < |categories| ==> |r| == |categories| - 1
    ensures index < |categories| ==> forall i :: 0 <= i < index ==> r[i] == categories[i]
    ensures index < |categories| ==> forall i :: index <= i < |r| ==> r[i] == categories[i + 1]
    ensures index >= |categories| ==> r == categories
  {
    if index < |categories| then categories[..index] + categories[index + 1..] else categories
  }

  // ---------------------------------------------------------------------------
  // The name of a new category
  // ---------------------------------------------------------------------------

  const DEFAULT_NAME: string := "New Category"

  /** The names `handleAdd` tries, from a base name: the base, then the base followed by
      " 1", " 2", … */
  function Candidate(base: string, k: nat): string {
    if k == 0 then base else base + " " + NatToString(k)
  }

  /** `categories.some(cat => cat.label.toLowerCase() === name.toLowerCase())`. */
  predicate Taken(categories: seq<CategoryConfig>, name: string) {
    exists i :: 0 <= i < |categories| && ToLower(categories[i].labelText) == ToLower(name)
  }

  /** The lower-cased labels. */
  function LowerLabels(categories: seq<CategoryConfig>): (s: set<string>)
    ensures |s| <= |categories|
  {
    if categories == [] then {}
    else LowerLabels(categories[..|categories| - 1]) + {ToLower(categories[|categories| - 1].labelText)}
  }

  lemma {:induction false} LabelInLowerLabels(categories: seq<CategoryConfig>, i: nat)
    requires i < |categories|
    ensures ToLower(categories[i].labelText) in LowerLabels(categories)
  {
    if i < |categories| - 1 {
      LabelInLowerLabels(categories[..|categories| - 1], i);
    }
  }

  lemma DigitsAreLower(s: string)
    requires AllDigits(s)
    ensures ToLower(s) == s
  {
    var l := ToLower(s);
    forall i | 0 <= i < |s| ensures l[i] == s[i] {
      assert IsDigit(s[i]);
    }
  }

  /** Lower-casing leaves the number of a candidate alone. */
  lemma LowerCandidate(base: string, k: nat)
    requires k > 0
    ensures ToLower(Candidate(base, k)) == ToLower(base) + " " + NatToString(k)
  {
    ToLowerAppend(base + " ", NatToString(k));
    ToLowerAppend(base, " ");
    DigitsAreLower(NatToString(k));
  }

  /** Different candidates differ even in lower case. */
  lemma CandidatesDiffer(base: string, j: nat, k: nat)
    requires j < k
    ensures ToLower(Candidate(base, j)) != ToLower(Candidate(base, k))
  {
    LowerCandidate(base, k);
    if j > 0 {
      LowerCandidate(base, j);
      assert (ToLower(base) + " " + NatToString(j))[|base| + 1..] == NatToString(j);
      assert (ToLower(base) + " " + NatToString(k))[|base| + 1..] == NatToString(k);
    } else {
      assert |ToLower(Candidate(base, j))| < |ToLower(Candidate(base, k))|;
    }
  }

  /** The lower-cased candidates 0..k, which are k + 1 different strings. */
  function LowerCandidates(base: string, k: nat): (s: set<string>)
    ensures |s| == k + 1
    ensures forall j :: k < j ==> ToLower(Candidate(base, j)) !in s
  {
    if k == 0 then
      forall j | 0 < j ensures ToLower(Candidate(base, j)) != ToLower(Candidate(base, 0)) {
        CandidatesDiffer(base, 0, j);
      }
      {ToLower(Candidate(base, 0))}
    else
      var s := LowerCandidates(base, k - 1);
      forall j | k < j ensures ToLower(Candidate(base, j)) != ToLower(Candidate(base, k)) {
        CandidatesDiffer(base, k, j);
      }
      s + {ToLower(Candidate(base, k))}
  }

  lemma {:induction false} CandidatesTaken(categories: seq<CategoryConfig>, base: string, k: nat)
    requires forall j :: 0 <= j <= k ==> Taken(categories, Candidate(base, j))
    ensures LowerCandidates(base, k) <= LowerLabels(categories)
  {
    assert Taken(categories, Candidate(base, k));
    var i :| 0 <= i < |categories| && ToLower(categories[i].labelText) == ToLower(Candidate(base, k));
    LabelInLowerLabels(categories, i);
    if k > 0 {
      CandidatesTaken(categories, base, k - 1);
    }
  }

  /** Pigeonhole: when the candidates 0..k are all taken, there are more than k
      categories, so the search stops within |categories| + 1 tries. */
  lemma TakenBound(categories: seq<CategoryConfig>, base: string, k: nat)
    requires forall j :: 0 <= j <= k ==> Taken(categories, Candidate(base, j))
    ensures k < |categories|
  {
    var c := LowerCandidates(base, k);
    var l := LowerLabels(categories);
    CandidatesTaken(categories, base, k);
    assert l == c + (l - c);
  }

  lemma TakenOneMore(categories: seq<CategoryConfig>, base: string, k: nat)
    requires forall j :: 0 <= j < k ==> Taken(categories, Candidate(base, j))
    requires Taken(categories, Candidate(base, k))
    ensures k + 1 <= |categories| && forall j :: 0 <= j < k + 1 ==> Taken(categories, Candidate(base, j))
  {
    TakenBound(categories, base, k);
  }

  /** The first candidate from k on that is not taken. */
  function FirstFreeFrom(categories: seq<CategoryConfig>, base: string, k: nat): (n: nat)
    requires k <= |categories| && forall j :: 0 <= j < k ==> Taken(categories, Candidate(base, j))
    ensures k <= n <= |categories| && !Taken(categories, Candidate(base, n))
    ensures forall j :: 0 <= j < n ==> Taken(categories, Candidate(base, j))
    decreases |categories| - k
  {
    if !Taken(categories, Candidate(base, k)) then k
    else
      TakenOneMore(categories, base, k);
      FirstFreeFrom(categories, base, k + 1)
  }

  /** The number of the name `handleAdd` picks: the first candidate not taken. */
  function FreeNameIndex(categories: seq<CategoryConfig>, base: string): (n: nat)
    ensures n <= |categories| && !Taken(categories, Candidate(base, n))
    ensures forall j :: 0 <= j < n ==> Taken(categories, Candidate(base, j))
  {
    FirstFreeFrom(categories, base, 0)
  }

  /** Only one candidate is free with every earlier one taken. */
  lemma FreeNameIsFirst(categories: seq<CategoryConfig>, base: string, m: nat)
    requires !Taken(categories, Candidate(base, m))
    requires forall j :: 0 <= j < m ==> Taken(categories, Candidate(base, j))
    ensures m == FreeNameIndex(categories, base)
  {
    var n := FreeNameIndex(categories, base);
    assert !Taken(categories, Candidate(base, n));
  }

  /** The category `handleAdd` appends. */
  function NewCategory(categories: seq<CategoryConfig>, name: string): CategoryConfig {
    CategoryConfig(ReplaceWhitespaceRuns(ToLower(name), '_'), name,
                   PALETTE[|categories| % |PALETTE|], true)
  }

  /** The new id of a two-word base: the lower-cased words, and the number, joined by
      `_`. */
  lemma NewCategoryId(categories: seq<CategoryConfig>, w1: string, w2: string, k: nat)
    requires w1 != [] && NoWhitespace(w1) && w2 != [] && NoWhitespace(w2)
    ensures k == 0 ==> NewCategory(categories, Candidate(w1 + " " + w2, k)).id == ToLower(w1) + "_" + ToLower(w2)
    ensures k > 0 ==>
      NewCategory(categories, Candidate(w1 + " " + w2, k)).id == ToLower(w1) + "_" + ToLower(w2) + "_" + NatToString(k)
  {
    if k == 0 {
      SlugOfTwo(w1, w2);
    } else {
      SlugOfThree(w1, w2, NatToString(k));
    }
  }

  lemma SlugOfTwo(w1: string, w2: string)
    requires w1 != [] && NoWhitespace(w1) && w2 != [] && NoWhitespace(w2)
    ensures ReplaceWhitespaceRuns(ToLower(w1 + " " + w2), '_') == ToLower(w1) + "_" + ToLower(w2)
  {
    var words := [w1, w2];
    assert words[1..] == [w2];
    LowerSlugOfWords(words, '_');
    assert LowerAll(words)[1..] == [ToLower(w2)];
  }

  lemma SlugOfThree(w1: string, w2: string, d: string)
    requires w1 != [] && NoWhitespace(w1) && w2 != [] && NoWhitespace(w2) && d != [] && AllDigits(d)
    ensures ReplaceWhitespaceRuns(ToLower(w1 + " " + w2 + " " + d), '_') == ToLower(w1) + "_" + ToLower(w2) + "_" + d
  {
    var words := [w1, w2, d];
    Join3(w1, w2, d, " ");
    assert NoWhitespace(d) by {
      forall i | 0 <= i < |d| ensures !IsWhitespace(d[i]) {
        assert IsDigit(d[i]);
      }
    }
    LowerSlugOfWords(words, '_');
    DigitsAreLower(d);
    Join3(ToLower(w1), ToLower(w2), d, "_");
    assert LowerAll(words) == [ToLower(w1), ToLower(w2), d];
  }

  /** "New Category" is the two words "New" and "Category". */
  lemma DefaultNameWords()
    ensures DEFAULT_NAME == "New" + " " + "Category"
  {
  }

  lemma DefaultWordsPlain()
    ensures NoWhitespace("New") && NoWhitespace("Category")
  {
  }

  /** They lower-case to "new" and "category". */
  lemma NewLower()
    ensures ToLower("New") == "new"
  {
  }

  lemma CategoryLower()
    ensures ToLower("Category") == "category"
  {
  }

  /** The ids `handleAdd` gives: "new_category", then "new_category_1", "new_category_2", … */
  lemma DefaultCategoryId(categories: seq<CategoryConfig>, k: nat)
    ensures k == 0 ==> NewCategory(categories, Candidate(DEFAULT_NAME, k)).id == "new" + "_" + "category"
    ensures k > 0 ==>
      NewCategory(categories, Candidate(DEFAULT_NAME, k)).id == "new" + "_" + "category" + "_" + NatToString(k)
  {
    DefaultNameWords();
    DefaultWordsPlain();
    NewLower();
    CategoryLower();
    NewCategoryId(categories, "New", "Category", k);
  }

  // ---------------------------------------------------------------------------
  // Dragging
  // ---------------------------------------------------------------------------

  /** The two `splice` calls: take out the item at `from`, insert it at `to` (at the end
      when `to` is past it). */
  function Moved(categories: seq<CategoryConfig>, from: nat, to: nat): (r: seq<CategoryConfig>)
    requires from < |categories|
    ensures |r| == |categories|
    ensures r[Min(to, |categories| - 1)] == categories[from]
  {
    var rest := categories[..from] + categories[from + 1..];
    var t := Min(to, |rest|);
    rest[..t] + [categories[from]] + rest[t..]
  }

  /** Moving an item only reorders the list. */
  lemma MovedIsPermutation(categories: seq<CategoryConfig>, from: nat, to: nat)
    requires from < |categories|
    ensures multiset(Moved(categories, from, to)) == multiset(categories)
  {
    var x := categories[from];
    var rest := categories[..from] + categories[from + 1..];
    var t := Min(to, |rest|);
    InsertMultiset(categories[..from], categories[from + 1..], x);
    assert categories == categories[..from] + [x] + categories[from + 1..];
    InsertMultiset(rest[..t], rest[t..], x);
    assert rest == rest[..t] + rest[t..];
  }

  lemma InsertMultiset(a: seq<CategoryConfig>, b: seq<CategoryConfig>, x: CategoryConfig)
    ensures multiset(a + [x] + b) == multiset(a + b) + multiset{x}
  {
    assert a + [x] + b == (a + [x]) + b;
  }

  /** The `while` loop of `handleAdd`, for the base name `defaultName`. */
  method UniqueName(categories: seq<CategoryConfig>, defaultName: string) returns (uniqueName: string)
    ensures uniqueName == Candidate(defaultName, FreeNameIndex(categories, defaultName))
  {
    uniqueName := defaultName;
    var counter: nat := 1;
    while Taken(categories, uniqueName)
      invariant 1 <= counter <= |categories| + 1
      invariant uniqueName == Candidate(defaultName, counter - 1)
      invariant forall j :: 0 <= j < counter - 1 ==> Taken(categories, Candidate(defaultName, j))
      decreases |categories| + 1 - counter
    {
      TakenOneMore(categories, defaultName, counter - 1);
      uniqueName := defaultName + " " + NatToString(counter);
      counter := counter + 1;
    }
    FreeNameIsFirst(categories, defaultName, counter - 1);
  }

  class CategoryManager {
    var categories: seq<CategoryConfig>
    var editingValues: map<string, string>
    var error: Option<string>
    var draggedIndex: Option<nat>
    var dragOverIndex: Option<nat>

    /** Every category has an edited text. */
    predicate Valid()
      reads this
    {
      forall i :: 0 <= i < |categories| ==> categories[i].id in editingValues
    }

    constructor(categories: seq<CategoryConfig>)
      ensures this.categories == categories && editingValues == LabelMap(categories)
      ensures error == None && draggedIndex == None && dragOverIndex == None && Valid()
    {
      this.categories := categories;
      editingValues := LabelMap(categories);
      error := None;
      draggedIndex := None;
      dragOverIndex := None;
    }

    /** `onCategoriesChange`, the parent's re-render and the `editingValues` effect. */
    method ChangeCategories(newCategories: seq<CategoryConfig>)
      modifies this
      ensures categories == newCategories && editingValues == LabelMap(newCategories)
      ensures error == old(error) && draggedIndex == old(draggedIndex) && dragOverIndex == old(dragOverIndex)
      ensures Valid()
    {
      categories := newCategories;
      editingValues := LabelMap(newCategories);
    }

    method NameChange(index: nat, newValue: string)
      requires index < |categories| && Valid()
      modifies this
      ensures categories == old(categories) && error == old(error)
      ensures editingValues == old(editingValues)[categories[index].id := newValue] && Valid()
      ensures draggedIndex == old(draggedIndex) && dragOverIndex == old(dragOverIndex)
    {
      editingValues := editingValues[categories[index].id := newValue];
    }

    /** `handleNameBlur`: a refused rename restores the label in the input and sets the
        error; an accepted one relabels that category only. */
    method NameBlur(index: nat)
      requires index < |categories| && Valid()
      modifies this
      ensures Renamed(old(categories), index, old(editingValues)[old(categories)[index].id]).None? ==>
        categories == old(categories) &&
        error == Some(if Trim(old(editingValues)[old(categories)[index].id]) == [] then EMPTY_NAME_MESSAGE
                      else DuplicateMessage(Trim(old(editingValues)[old(categories)[index].id]))) &&
        editingValues == old(editingValues)[categories[index].id := categories[index].labelText]
      ensures var r := Renamed(old(categories), index, old(editingValues)[old(categories)[index].id]);
        r.Some? ==> categories == r.value && error == None && editingValues == LabelMap(r.value)
      ensures draggedIndex == old(draggedIndex) && dragOverIndex == old(dragOverIndex) && Valid()
    {
      error := None;
      var category := categories[index];
      var normalizedNewName := Trim(editingValues[category.id]);
      if |normalizedNewName| == 0 {
        error := Some(EMPTY_NAME_MESSAGE);
        editingValues := editingValues[category.id := category.labelText];
        return;
      }
      if IsDuplicateLabel(categories, index, normalizedNewName) {
        error := Some(DuplicateMessage(normalizedNewName));
        editingValues := editingValues[category.id := category.labelText];
        return;
      }
      ChangeCategories(categories[index := category.(labelText := normalizedNewName)]);
    }

    method ColorChange(index: nat, newColor: string)
      requires index < |categories|
      modifies this
      ensures categories == WithColor(old(categories), index, newColor) && editingValues == LabelMap(categories)
      ensures error == old(error) && Valid()
      ensures draggedIndex == old(draggedIndex) && dragOverIndex == old(dragOverIndex)
    {
      ChangeCategories(WithColor(categories, index, newColor));
    }

    method VisibilityToggle(index: nat)
      requires index < |categories|
      modifies this
      ensures categories == Toggled(old(categories), index) && editingValues == LabelMap(categories)
      ensures error == old(error) && Valid()
      ensures draggedIndex == old(draggedIndex) && dragOverIndex == old(dragOverIndex)
    {
      ChangeCategories(Toggled(categories, index));
    }

    /** `handleDelete`: refused for the last category. */
    method Delete(index: nat)
      modifies this
      ensures |old(categories)| <= 1 ==>
        categories == old(categories) && editingValues == old(editingValues) && error == Some(LAST_CATEGORY_MESSAGE)
      ensures |old(categories)| > 1 ==>
        categories == RemoveAt(old(categories), index) && editingValues == LabelMap(categories) && error == None
      ensures draggedIndex == old(draggedIndex) && dragOverIndex == old(dragOverIndex)
    {
      if |categories| <= 1 {
        error := Some(LAST_CATEGORY_MESSAGE);
        return;
      }
      ChangeCategories(RemoveAt(categories, index));
      error := None;
    }

    /** `handleAdd`: refused at four categories; otherwise appends the first free
        "New Category" name. The search loop runs at most |categories| + 1 times. */
    method Add()
      modifies this
      ensures |old(categories)| >= MAX_CATEGORIES ==>
        categories == old(categories) && editingValues == old(editingValues) && error == Some(MAX_CATEGORIES_MESSAGE)
      ensures |old(categories)| < MAX_CATEGORIES ==>
        categories == old(categories) + [NewCategory(old(categories), Candidate(DEFAULT_NAME, FreeNameIndex(old(categories), DEFAULT_NAME)))] &&
        editingValues == LabelMap(categories) && error == None
      ensures draggedIndex == old(draggedIndex) && dragOverIndex == old(dragOverIndex)
    {
      error := None;
      if |categories| >= MAX_CATEGORIES {
        error := Some(MAX_CATEGORIES_MESSAGE);
        return;
      }
      var uniqueName := UniqueName(categories, DEFAULT_NAME);
      var newCategory := NewCategory(categories, uniqueName);
      ChangeCategories(categories + [newCategory]);
    }

    method DragStart(index: nat)
      modifies this
      ensures draggedIndex == Some(index) && categories == old(categories)
      ensures editingValues == old(editingValues) && dragOverIndex == old(dragOverIndex) && error == old(error)
    {
      draggedIndex := Some(index);
    }

    method DragOver(index: nat)
      modifies this
      ensures dragOverIndex == Some(index) && categories == old(categories)
      ensures editingValues == old(editingValues) && draggedIndex == old(draggedIndex) && error == old(error)
    {
      dragOverIndex := Some(index);
    }

    method DragEnd()
      modifies this
      ensures draggedIndex == None && dragOverIndex == None && categories == old(categories)
      ensures editingValues == old(editingValues) && error == old(error)
    {
      draggedIndex := None;
      dragOverIndex := None;
    }

    /** `handleDrop`: nothing without a drag or onto the dragged item itself; otherwise
        the dragged category moves to the target position. */
    method Drop(targetIndex: nat)
      requires draggedIndex.Some? ==> draggedIndex.value < |categories|
      modifies this
      ensures old(draggedIndex) == None || old(draggedIndex) == Some(targetIndex) ==>
        categories == old(categories) && editingValues == old(editingValues) &&
        draggedIndex == old(draggedIndex) && dragOverIndex == old(dragOverIndex)
      ensures old(draggedIndex).Some? && old(draggedIndex) != Some(targetIndex) ==>
        categories == Moved(old(categories), old(draggedIndex).value, targetIndex) &&
        editingValues == LabelMap(categories) && draggedIndex == None && dragOverIndex == None
      ensures error == old(error)
    {
      if draggedIndex.None? || draggedIndex == Some(targetIndex) {
        return;
      }
      ChangeCategories(Moved(categories, draggedIndex.value, targetIndex));
      draggedIndex := None;
      dragOverIndex := None;
    }
  }
}

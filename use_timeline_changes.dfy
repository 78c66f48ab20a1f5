/**
  The dirty tracking of src/hooks/useTimelineChanges.ts. The tracker keeps the state it
  last saw (`current`), the baseline (`initialState`) and the `hasChanges` flag; the
  effect that recomputes the flag after every render is `Observe`.
*/
module UseTimelineChanges {
  import opened Types

  /** The five tracked parts of a timeline. */
  datatype TimelineState = TimelineState(
    title: string, description: string, events: seq<Event>, categories: seq<CategoryConfig>, scale: ScaleName)

  /** The effect's disjunction. The two `JSON.stringify` comparisons are comparisons of
      the lists element by element, in order. */
  function Changed(current: TimelineState, initial: TimelineState): bool {
    current.events != initial.events || current.categories != initial.categories ||
    current.title != initial.title || current.description != initial.description ||
    current.scale != initial.scale
  }

  /** There are changes exactly when the state differs from the baseline, so restoring
      every part makes the flag false again. */
  lemma ChangedIffDiffers(current: TimelineState, initial: TimelineState)
    ensures Changed(current, initial) <==> current != initial
  {
    if !Changed(current, initial) {
      assert current.events == initial.events && current.categories == initial.categories;
    }
  }

  /** Reordering the events counts as a change. */
  lemma ReorderIsChange(s: TimelineState, a: Event, b: Event)
    requires a != b && s.events == [a, b]
    ensures Changed(s.(events := [b, a]), s)
  {
    assert s.(events := [b, a]).events[0] != s.events[0];
  }

  class ChangeTracker {
    var current: TimelineState
    var initialState: TimelineState
    var hasChanges: bool

    /** The flag is what the effect last computed. */
    predicate Valid()
      reads this
    {
      hasChanges == Changed(current, initialState)
    }

    constructor(state: TimelineState)
      ensures current == state && initialState == state && !hasChanges && Valid()
    {
      current := state;
      initialState := state;
      hasChanges := false;
    }

    /** A render with a new current state, followed by the effect. */
    method Observe(state: TimelineState)
      modifies this
      ensures current == state && initialState == old(initialState)
      ensures hasChanges == Changed(state, initialState) && Valid()
    {
      current := state;
      hasChanges := Changed(current, initialState);
    }

    method MarkAsSaved()
      modifies this
      ensures initialState == current && current == old(current) && !hasChanges && Valid()
    {
      initialState := current;
      hasChanges := false;
    }

    /** The same two assignments as `markAsSaved`. */
    method ResetChanges()
      modifies this
      ensures initialState == current && current == old(current) && !hasChanges && Valid()
    {
      initialState := current;
      hasChanges := false;
    }
  }
}

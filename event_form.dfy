/**
  The add/edit form of components/EventForm/EventForm.tsx. The five pieces of React
  state are the fields of an `EventForm`; the two effects run at the end of the
  operation that changes what they depend on, `onSubmit` becomes the returned event
  data and `alert` the returned message.
*/
module EventFormModel {
  import opened Types

  const CATEGORY_MESSAGE := "Please select a category"
  const TITLE_MESSAGE := "Title must be 55 characters or less"

  /** JavaScript's `a || b` on strings: the empty string is falsy. */
  function OrElse(a: string, b: string): (r: string)
    ensures r == [] <==> a == [] && b == []
    ensures a != [] ==> r == a
  {
    if a != [] then a else b
  }

  /** `categories[0]?.id || ''`. */
  function FirstCategoryId(categories: seq<CategoryConfig>): (r: string)
    ensures categories == [] ==> r == []
    ensures categories != [] ==> r == categories[0].id
  {
    if categories == [] then [] else categories[0].id
  }

  /** The end-date effect: a focused, empty end date takes a set start date. */
  function Autofill(focused: bool, startDate: string, endDate: string): (r: string)
    ensures r == (if focused && endDate == [] then startDate else endDate)
  {
    if focused && endDate == [] && startDate != [] then startDate else endDate
  }

  /** The effect re-runs after it changed the end date, and then does nothing more. */
  lemma AutofillSettles(focused: bool, startDate: string, endDate: string)
    ensures Autofill(focused, startDate, Autofill(focused, startDate, endDate)) == Autofill(focused, startDate, endDate)
    ensures Autofill(focused, startDate, endDate) == [] ==> endDate == [] && (startDate == [] || !focused)
  {
  }

  datatype Submission = Rejected(message: string) | Submitted(data: EventData)

  /** `handleSubmit` on the current fields: no category and an over-long title are
      refused, in that order; otherwise the data goes out with the start date standing
      in for a missing end date. */
  function SubmissionOf(title: string, startDate: string, endDate: string, category: string): (r: Submission)
    ensures r == Rejected(CATEGORY_MESSAGE) <==> category == []
    ensures r == Rejected(TITLE_MESSAGE) <==> category != [] && |title| > MAX_TITLE_LENGTH
    ensures r.Submitted? <==> category != [] && |title| <= MAX_TITLE_LENGTH
    ensures r.Submitted? ==> r.data.title == title && r.data.startDate == startDate && r.data.category == category
    ensures r.Submitted? ==> r.data.endDate == (if endDate == [] then startDate else endDate)
  {
    if category == [] then Rejected(CATEGORY_MESSAGE)
    else if |title| > MAX_TITLE_LENGTH then Rejected(TITLE_MESSAGE)
    else Submitted(EventData(title, startDate, OrElse(endDate, startDate), category))
  }

  /** Editing an event and submitting it unchanged gives back its data, as long as it
      has a category, a title of at most 55 characters and an end date. */
  lemma {:induction false} ResubmitKeepsEvent(e: Event)
    requires e.category != [] && |e.title| <= MAX_TITLE_LENGTH && e.endDate != []
    ensures SubmissionOf(e.title, e.startDate, e.endDate, e.category) == Submitted(DataOf(e))
  {
  }

  /** A submitted event always has a title the input allows, a category, and an end date
      whenever it has a start date. */
  lemma {:induction false} SubmittedIsComplete(title: string, startDate: string, endDate: string, category: string)
    requires SubmissionOf(title, startDate, endDate, category).Submitted?
    ensures var d := SubmissionOf(title, startDate, endDate, category).data;
      |d.title| <= MAX_TITLE_LENGTH && d.category != [] && (d.startDate != [] ==> d.endDate != [])
  {
  }

  class EventForm {
    var title: string
    var startDate: string
    var endDate: string
    var category: string
    var isEndDateFocused: bool

    /** The initial state, then the mount-time run of the `initialEvent` effect, which
        copies an initial event's fields exactly (empty ones included). */
    constructor(categories: seq<CategoryConfig>, initialStartDate: Option<string>, initialEvent: Option<Event>)
      ensures initialEvent.Some? ==>
        title == initialEvent.value.title && startDate == initialEvent.value.startDate &&
        endDate == initialEvent.value.endDate && category == initialEvent.value.category
      ensures initialEvent.None? ==>
        title == [] && endDate == [] && category == FirstCategoryId(categories) &&
        startDate == (if initialStartDate.Some? then initialStartDate.value else [])
      ensures !isEndDateFocused
    {
      var ie := initialEvent;
      title := if ie.Some? then ie.value.title else [];
      startDate := OrElse(if ie.Some? then ie.value.startDate else [],
                          if initialStartDate.Some? then initialStartDate.value else []);
      endDate := if ie.Some? then ie.value.endDate else [];
      category := OrElse(if ie.Some? then ie.value.category else [], FirstCategoryId(categories));
      isEndDateFocused := false;
      if ie.Some? {
        title := ie.value.title;
        startDate := ie.value.startDate;
        endDate := ie.value.endDate;
        category := ie.value.category;
      }
    }

    /** A later change of `initialEvent` (the effect does nothing for none). */
    method LoadEvent(initialEvent: Option<Event>)
      modifies this
      ensures initialEvent.Some? ==>
        title == initialEvent.value.title && startDate == initialEvent.value.startDate &&
        endDate == Autofill(isEndDateFocused, initialEvent.value.startDate, initialEvent.value.endDate) &&
        category == initialEvent.value.category
      ensures initialEvent.None? ==>
        title == old(title) && startDate == old(startDate) && endDate == old(endDate) && category == old(category)
      ensures isEndDateFocused == old(isEndDateFocused)
    {
      if initialEvent.Some? {
        title := initialEvent.value.title;
        startDate := initialEvent.value.startDate;
        endDate := initialEvent.value.endDate;
        category := initialEvent.value.category;
        endDate := Autofill(isEndDateFocused, startDate, endDate);
      }
    }

    method SetTitle(value: string)
      modifies this
      ensures title == value
      ensures startDate == old(startDate) && endDate == old(endDate) && category == old(category)
      ensures isEndDateFocused == old(isEndDateFocused)
    {
      title := value;
    }

    method SetCategory(value: string)
      modifies this
      ensures category == value
      ensures title == old(title) && startDate == old(startDate) && endDate == old(endDate)
      ensures isEndDateFocused == old(isEndDateFocused)
    {
      category := value;
    }

    method SetStartDate(value: string)
      modifies this
      ensures startDate == value && endDate == Autofill(isEndDateFocused, value, old(endDate))
      ensures title == old(title) && category == old(category) && isEndDateFocused == old(isEndDateFocused)
    {
      startDate := value;
      endDate := Autofill(isEndDateFocused, startDate, endDate);
    }

    method SetEndDate(value: string)
      modifies this
      ensures endDate == Autofill(isEndDateFocused, startDate, value)
      ensures title == old(title) && startDate == old(startDate) && category == old(category)
      ensures isEndDateFocused == old(isEndDateFocused)
    {
      endDate := value;
      endDate := Autofill(isEndDateFocused, startDate, endDate);
    }

    /** Focusing the end date fills it from a set start date when it is empty. */
    method FocusEndDate()
      modifies this
      ensures isEndDateFocused
      ensures endDate == (if old(endDate) == [] then startDate else old(endDate))
      ensures title == old(title) && startDate == old(startDate) && category == old(category)
    {
      isEndDateFocused := true;
      endDate := Autofill(isEndDateFocused, startDate, endDate);
    }

    method BlurEndDate()
      modifies this
      ensures !isEndDateFocused
      ensures title == old(title) && startDate == old(startDate) && endDate == old(endDate)
      ensures category == old(category)
    {
      isEndDateFocused := false;
    }

    /** `handleSubmit`: an accepted submission is handed on and empties the form, the
        category falling back to the first one; a refused one leaves the form as it is. */
    method Submit(categories: seq<CategoryConfig>) returns (outcome: Submission)
      modifies this
      ensures outcome == SubmissionOf(old(title), old(startDate), old(endDate), old(category))
      ensures outcome.Submitted? ==>
        title == [] && startDate == [] && endDate == [] && category == FirstCategoryId(categories)
      ensures outcome.Rejected? ==>
        title == old(title) && startDate == old(startDate) && endDate == old(endDate) && category == old(category)
      ensures isEndDateFocused == old(isEndDateFocused)
    {
      if category == [] {
        return Rejected(CATEGORY_MESSAGE);
      }
      if |title| > MAX_TITLE_LENGTH {
        return Rejected(TITLE_MESSAGE);
      }
      outcome := Submitted(EventData(title, startDate, OrElse(endDate, startDate), category));
      title := [];
      startDate := [];
      endDate := [];
      category := FirstCategoryId(categories);
      endDate := Autofill(isEndDateFocused, startDate, endDate);
    }
  }
}

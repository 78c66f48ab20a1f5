/**
  The title state of src/hooks/useTimelineTitle.ts. `DEFAULT_TIMELINE_TITLE` comes from
  src/constants/defaults.ts, which is not part of this model, so it is a constructor
  argument kept in `defaultTitle`.
*/
module UseTimelineTitle {

  class TitleState {
    const defaultTitle: string
    var title: string
    var description: string

    constructor(defaultTitle: string)
      ensures this.defaultTitle == defaultTitle
      ensures title == defaultTitle && description == []
    {
      this.defaultTitle := defaultTitle;
      title := defaultTitle;
      description := [];
    }

    method SetTitle(t: string)
      modifies this
      ensures title == t && description == old(description)
    {
      title := t;
    }

    method SetDescription(d: string)
      modifies this
      ensures description == d && title == old(title)
    {
      description := d;
    }

    method ResetTitle()
      modifies this
      ensures title == defaultTitle && description == []
    {
      title := defaultTitle;
      description := [];
    }
  }
}

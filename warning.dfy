/** The warning banner the GUI shows above the board. */
module Warnings {
  import opened Base

  class Warning {
    var text: Option<string>
    var priority: int

    constructor ()
      ensures text == None && priority == 0
      ensures !Is() && Banner() == ""
    {
      text := None;
      priority := 0;
    }

    /** Replaces the text; the priority goes back to 0. */
    method Set(newText: Option<string>)
      modifies this
      ensures text == newText && priority == 0
      ensures Is() <==> newText.Some?
    {
      text := newText;
      priority := 0;
    }

    /** There is a warning to show. */
    function Is(): (b: bool)
      reads this
      ensures b <==> text.Some?
      ensures b ==> Banner() == text.value
      ensures !b ==> Banner() == ""
    {
      text.Some?
    }

    /** The text to show; empty when there is no warning. */
    function Banner(): (s: string)
      reads this
      ensures text.Some? ==> s == text.value
      ensures s != "" ==> text == Some(s)
      ensures text.None? ==> s == ""
    {
      if text.Some? then text.value else ""
    }
  }
}

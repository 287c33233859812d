/** The global error banner: whether it is shown, and its title and message. */
module UiStore {

  class ErrorBanner {
    var isVisible: bool
    var title: string
    var message: string

    /** A hidden banner holds no text. */
    ghost predicate Valid()
      reads this
    {
      !isVisible ==> title == "" && message == ""
    }

    /** The state the store starts in and `hideError` returns to. */
    predicate IsInitial()
      reads this
    {
      !isVisible && title == "" && message == ""
    }

    constructor ()
      ensures Valid()
      ensures IsInitial()
    {
      isVisible := false;
      title := "";
      message := "";
    }

    /** Shows `t` and `m`, replacing whatever error was shown before. */
    method ShowError(t: string, m: string)
      requires Valid()
      modifies this
      ensures Valid()
      ensures isVisible && title == t && message == m
    {
      isVisible := true;
      title := t;
      message := m;
    }

    /** From any state, back to the initial one; after `ShowError` this undoes it. */
    method HideError()
      modifies this
      ensures Valid()
      ensures IsInitial()
    {
      isVisible := false;
      title := "";
      message := "";
    }
  }
}

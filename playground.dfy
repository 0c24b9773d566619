/** The code playground modal (components/CodePlaygroundModal.tsx): the
    edited code, the run counter that remounts the demo, the copy flag, the
    Escape key and the Tab focus trap. `isOpen` and `example` are props the
    parent sets; `onCloseAction` is the parent's callback, modelled by
    counting the requests to close. */
module Playground {
  import opened Text

  /** The fields of an example the modal uses; the demo component is not modelled. */
  datatype Example = Example(title: string, initialCode: string, description: Option<string>)

  /** The keys the handler distinguishes. */
  datatype Key = Escape | Tab | OtherKey

  /** Where focus moves on a Tab press inside the dialog, given the number of
      focusable elements and the focused one (`None` when focus is on none of
      them): Shift+Tab on the first goes to the last, Tab on the last goes to
      the first; `None` leaves the browser's default move. */
  function TrapTarget(count: nat, focused: Option<nat>, shift: bool): (r: Option<nat>)
    ensures r.Some? ==> count > 0 && r.value < count && focused.Some?
    ensures r.Some? && shift ==> focused.value == 0 && r.value == count - 1
    ensures r.Some? && !shift ==> focused.value == count - 1 && r.value == 0
    ensures r.None? ==> count == 0 || focused.None? || (shift && focused.value != 0) || (!shift && focused.value != count - 1)
  {
    if count == 0 || focused.None? then None
    else if shift && focused.value == 0 then Some(count - 1)
    else if !shift && focused.value == count - 1 then Some(0)
    else None
  }

  /** Going round the ends: Shift+Tab from the first and Tab back land where they started. */
  lemma TrapRoundTrip(count: nat)
    requires count > 0
    ensures TrapTarget(count, TrapTarget(count, Some(0), true), false) == Some(0)
    ensures TrapTarget(count, TrapTarget(count, Some(count - 1), false), true) == Some(count - 1)
  {
  }

  /** With a single focusable element, Tab in either direction keeps focus on it. */
  lemma TrapSingle(shift: bool)
    ensures TrapTarget(1, Some(0), shift) == Some(0)
  {
  }

  class PlaygroundModal {
    var isOpen: bool
    var example: Option<Example>
    var code: string
    var copied: bool
    var runKey: nat
    var clipboard: Option<string>
    var closeRequests: nat
    var focused: Option<nat>
    var bodyScrollLocked: bool

    /** A fresh modal: empty code, run counter zero, nothing copied. */
    constructor(isOpen: bool)
      ensures this.isOpen == isOpen && example == None && code == "" && !copied && runKey == 0
      ensures clipboard == None && closeRequests == 0 && focused == None && bodyScrollLocked == isOpen
    {
      this.isOpen := isOpen;
      example := None;
      code := "";
      copied := false;
      runKey := 0;
      clipboard := None;
      closeRequests := 0;
      focused := None;
      bodyScrollLocked := isOpen;
    }

    /** The modal renders only with an example, and its dialog only while open. */
    predicate Renders()
      reads this
    {
      example.Some?
    }

    predicate DialogShown()
      reads this
    {
      example.Some? && isOpen
    }

    /** The parent passes a different example: a new one resets the code to
        its initial code and the run counter to zero; `null` keeps both. */
    method SetExample(e: Option<Example>)
      modifies this
      ensures example == e
      ensures e.Some? ==> code == e.value.initialCode && runKey == 0
      ensures e.None? ==> code == old(code) && runKey == old(runKey)
      ensures isOpen == old(isOpen) && copied == old(copied) && clipboard == old(clipboard)
      ensures closeRequests == old(closeRequests) && focused == old(focused) && bodyScrollLocked == old(bodyScrollLocked)
    {
      example := e;
      if e.Some? {
        code := e.value.initialCode;
        runKey := 0;
      }
    }

    /** The parent opens or closes the modal: the key handler and the body
        scroll lock are installed while it is open. */
    method SetOpen(open: bool)
      modifies this
      ensures isOpen == open && bodyScrollLocked == open
      ensures example == old(example) && code == old(code) && runKey == old(runKey) && copied == old(copied)
      ensures clipboard == old(clipboard) && closeRequests == old(closeRequests) && focused == old(focused)
    {
      isOpen := open;
      bodyScrollLocked := open;
    }

    /** The 100 ms timer after opening: focus goes to the close button, at
        position `closeButton` among the focusable elements, when the dialog
        is still there. */
    method OpenTimer(closeButton: nat)
      modifies this
      ensures focused == if DialogShown() then Some(closeButton) else old(focused)
      ensures isOpen == old(isOpen) && example == old(example) && code == old(code) && runKey == old(runKey)
      ensures copied == old(copied) && clipboard == old(clipboard) && closeRequests == old(closeRequests)
      ensures bodyScrollLocked == old(bodyScrollLocked)
    {
      if DialogShown() {
        focused := Some(closeButton);
      }
    }

    /** `handleRun`: the counter goes up by one, which remounts the demo. */
    method Run()
      modifies this
      ensures runKey == old(runKey) + 1
      ensures code == old(code) && example == old(example) && isOpen == old(isOpen) && copied == old(copied)
      ensures clipboard == old(clipboard) && closeRequests == old(closeRequests) && focused == old(focused)
      ensures bodyScrollLocked == old(bodyScrollLocked)
    {
      runKey := runKey + 1;
    }

    /** `handleReset`: with an example, back to its initial code and one more
        run; without one, nothing. */
    method Reset()
      modifies this
      ensures old(example).Some? ==> code == old(example).value.initialCode && runKey == old(runKey) + 1
      ensures old(example).None? ==> code == old(code) && runKey == old(runKey)
      ensures example == old(example) && isOpen == old(isOpen) && copied == old(copied)
      ensures clipboard == old(clipboard) && closeRequests == old(closeRequests) && focused == old(focused)
      ensures bodyScrollLocked == old(bodyScrollLocked)
    {
      if example.Some? {
        code := example.value.initialCode;
        runKey := runKey + 1;
      }
    }

    /** `handleCopy`: the code as it stands, untrimmed, goes to the clipboard. */
    method Copy()
      modifies this
      ensures clipboard == Some(old(code)) && copied
      ensures code == old(code) && runKey == old(runKey) && example == old(example) && isOpen == old(isOpen)
      ensures closeRequests == old(closeRequests) && focused == old(focused) && bodyScrollLocked == old(bodyScrollLocked)
    {
      clipboard := Some(code);
      copied := true;
    }

    method CopiedTimeout()
      modifies this
      ensures !copied
      ensures clipboard == old(clipboard) && code == old(code) && runKey == old(runKey) && example == old(example)
      ensures isOpen == old(isOpen) && closeRequests == old(closeRequests) && focused == old(focused)
      ensures bodyScrollLocked == old(bodyScrollLocked)
    {
      copied := false;
    }

    /** Typing in the editor: the code becomes the textarea's value; the demo
        is not rerun. */
    method Edit(value: string)
      modifies this
      ensures code == value
      ensures runKey == old(runKey) && example == old(example) && isOpen == old(isOpen) && copied == old(copied)
      ensures clipboard == old(clipboard) && closeRequests == old(closeRequests) && focused == old(focused)
      ensures bodyScrollLocked == old(bodyScrollLocked)
    {
      code := value;
    }

    /** The key handler, active only while open. Escape asks the parent to
        close. Tab, when the dialog is rendered, wraps focus at the ends of its
        `count` focusable elements; `prevented` says the default move was
        cancelled. */
    method OnKeyDown(key: Key, shift: bool, count: nat) returns (prevented: bool)
      requires focused.Some? ==> focused.value < count
      modifies this
      ensures closeRequests == if old(isOpen) && key == Escape then old(closeRequests) + 1 else old(closeRequests)
      ensures prevented == (old(isOpen) && key == Tab && old(example).Some? && TrapTarget(count, old(focused), shift).Some?)
      ensures focused == if prevented then TrapTarget(count, old(focused), shift) else old(focused)
      ensures isOpen == old(isOpen) && example == old(example) && code == old(code) && runKey == old(runKey)
      ensures copied == old(copied) && clipboard == old(clipboard) && bodyScrollLocked == old(bodyScrollLocked)
    {
      prevented := false;
      if isOpen {
        if key == Escape {
          closeRequests := closeRequests + 1;
        }
        if key == Tab && example.Some? {
          var target := TrapTarget(count, focused, shift);
          if target.Some? {
            prevented := true;
            focused := target;
          }
        }
      }
    }

    /** One of the two close buttons: the parent is asked to close. */
    method PressClose()
      requires DialogShown()
      modifies this
      ensures closeRequests == old(closeRequests) + 1
      ensures isOpen == old(isOpen) && example == old(example) && code == old(code) && runKey == old(runKey)
      ensures copied == old(copied) && clipboard == old(clipboard) && focused == old(focused)
      ensures bodyScrollLocked == old(bodyScrollLocked)
    {
      closeRequests := closeRequests + 1;
    }

    /** A click on the dimmed backdrop asks the parent to close only when the
        backdrop itself, not something inside the dialog, was clicked. */
    method OnBackdropClick(targetIsBackdrop: bool)
      requires DialogShown()
      modifies this
      ensures closeRequests == if targetIsBackdrop then old(closeRequests) + 1 else old(closeRequests)
      ensures isOpen == old(isOpen) && example == old(example) && code == old(code) && runKey == old(runKey)
      ensures copied == old(copied) && clipboard == old(clipboard) && focused == old(focused)
      ensures bodyScrollLocked == old(bodyScrollLocked)
    {
      if targetIsBackdrop {
        closeRequests := closeRequests + 1;
      }
    }
  }
}

/** The mobile table of contents (components/MobileTableOfContents.tsx): a
    bottom sheet opened from a floating button, with a scroll spy that
    recomputes the active heading once per animation frame. Browser events
    arrive as method calls; an animation frame brings the top of each
    item's element, or nothing for an item whose element is missing. */
module MobileToc {
  import opened Text
  import opened Docs

  /** The line the closest heading is measured against, in pixels from the viewport top. */
  const Anchor: int := 120

  /** Where keyboard focus is, as far as this component moves it. */
  datatype Focus = Elsewhere | OpenButton | CloseButton

  function Abs(x: int): nat {
    if x < 0 then -x else x
  }

  /** The distance of an element's top from the anchor line. */
  function Offset(top: int): nat {
    Abs(top - Anchor)
  }

  /** The closest item: of the items whose element exists, the first one with
      the smallest offset. */
  function Closest(tops: seq<Option<int>>): (r: Option<nat>)
    ensures r.None? <==> forall i :: 0 <= i < |tops| ==> tops[i].None?
    ensures r.Some? ==>
              && r.value < |tops| && tops[r.value].Some?
              && (forall i :: 0 <= i < |tops| && tops[i].Some? ==> Offset(tops[r.value].value) <= Offset(tops[i].value))
              && (forall i :: 0 <= i < r.value && tops[i].Some? ==> Offset(tops[r.value].value) < Offset(tops[i].value))
  {
    if |tops| == 0 then None
    else
      var n := |tops| - 1;
      var r := Closest(tops[..n]);
      assert forall i :: 0 <= i < n ==> tops[..n][i] == tops[i];
      if tops[n].None? then r
      else if r.None? || Offset(tops[n].value) < Offset(tops[r.value].value) then Some(n)
      else r
  }

  /** The id the frame callback finds: the closest item's id, or empty when
      no item has an element. */
  function ClosestId(items: seq<TocItem>, tops: seq<Option<int>>): (id: string)
    requires |tops| == |items|
    ensures (forall i :: 0 <= i < |tops| ==> tops[i].None?) ==> id == ""
    ensures id != "" ==>
              exists k :: 0 <= k < |items| && tops[k].Some? && items[k].id == id
                          && forall i :: 0 <= i < |tops| && tops[i].Some? ==> Offset(tops[k].value) <= Offset(tops[i].value)
  {
    match Closest(tops)
    case None => ""
    case Some(k) => items[k].id
  }

  /** The loop of the frame callback: walks the items, skipping those
      without an element, and keeps the first one with a strictly smaller
      offset than any seen before. */
  method FindClosest(items: seq<TocItem>, tops: seq<Option<int>>) returns (closestId: string)
    requires |tops| == |items|
    ensures closestId == ClosestId(items, tops)
  {
    closestId := "";
    var closestOffset: Option<nat> := None;
    var best: Option<nat> := None;
    for i := 0 to |items|
      invariant best == Closest(tops[..i])
      invariant best.None? ==> closestOffset.None? && closestId == ""
      invariant best.Some? ==> best.value < i && closestOffset == Some(Offset(tops[best.value].value))
                               && closestId == items[best.value].id
    {
      assert tops[..i + 1][..i] == tops[..i];
      if tops[i].Some? {
        var offset := Offset(tops[i].value);
        if closestOffset.None? || offset < closestOffset.value {
          closestOffset := Some(offset);
          closestId := items[i].id;
          best := Some(i);
        }
      }
    }
    assert tops[..|items|] == tops;
  }

  /** The indentation class of an entry: none for level 2, `pl-4` for level 3, `pl-8` otherwise. */
  function Indent(level: int): (c: string)
    ensures level == 2 ==> c == ""
    ensures level == 3 ==> c == "pl-4"
    ensures level != 2 && level != 3 ==> c == "pl-8"
  {
    if level == 2 then "" else if level == 3 then "pl-4" else "pl-8"
  }

  /** A mounted sheet: its items, whether it is open, the active id, where
      focus is, whether an animation frame is pending (`ticking`), and
      whether the zero-delay focus timer of the open button is pending. */
  class MobileTocSheet {
    const items: seq<TocItem>
    var isOpen: bool
    var activeId: string
    var focus: Focus
    var ticking: bool
    var focusTimerPending: bool

    /** The component renders, and installs its listeners, only with items. */
    predicate Renders() {
      |items| > 0
    }

    /** Mounting: closed, nothing active; the scroll effect runs `onScroll`
        once, so a frame is pending exactly when there are items. */
    constructor(items: seq<TocItem>)
      ensures this.items == items && !isOpen && activeId == "" && focus == Elsewhere
      ensures ticking == Renders() && !focusTimerPending
    {
      this.items := items;
      isOpen := false;
      activeId := "";
      focus := Elsewhere;
      ticking := |items| > 0;
      focusTimerPending := false;
    }

    /** `onScroll`: schedules a frame unless one is already pending. */
    method OnScroll()
      modifies this
      ensures ticking == (old(ticking) || Renders())
      ensures isOpen == old(isOpen) && activeId == old(activeId) && focus == old(focus)
      ensures focusTimerPending == old(focusTimerPending)
    {
      if Renders() && !ticking {
        ticking := true;
      }
    }

    /** The frame callback: the closest heading becomes active when there is
        one, and the pending flag clears. The callback compares with the
        active id captured when the effect ran at mount, which is empty, so
        any non-empty closest id is set. */
    method OnFrame(tops: seq<Option<int>>)
      requires ticking && |tops| == |items|
      modifies this
      ensures !ticking
      ensures activeId == if Closest(tops).Some? && ClosestId(items, tops) != "" then ClosestId(items, tops) else old(activeId)
      ensures isOpen == old(isOpen) && focus == old(focus) && focusTimerPending == old(focusTimerPending)
    {
      var capturedActiveId := "";
      var closestId := FindClosest(items, tops);
      if closestId != "" && closestId != capturedActiveId {
        activeId := closestId;
      }
      ticking := false;
    }

    /** `handleScroll(id)`, tapping an entry of the sheet (also while it
        animates out): when its element exists it becomes active, the sheet
        closes and focus returns to the open button. */
    method Tap(id: string, elementExists: bool)
      modifies this
      ensures elementExists ==> activeId == id && !isOpen && focus == OpenButton
      ensures !elementExists ==> activeId == old(activeId) && isOpen == old(isOpen) && focus == old(focus)
      ensures ticking == old(ticking) && focusTimerPending == old(focusTimerPending)
    {
      if elementExists {
        activeId := id;
        isOpen := false;
        focus := OpenButton;
      }
    }

    /** The key handler: Escape closes an open sheet and returns focus to the
        open button; any other key, or Escape on a closed sheet, does nothing. */
    method OnKeyDown(isEscape: bool)
      modifies this
      ensures isEscape && old(isOpen) ==> !isOpen && focus == OpenButton
      ensures !(isEscape && old(isOpen)) ==> isOpen == old(isOpen) && focus == old(focus)
      ensures activeId == old(activeId) && ticking == old(ticking) && focusTimerPending == old(focusTimerPending)
    {
      if isEscape && isOpen {
        isOpen := false;
        focus := OpenButton;
      }
    }

    /** A click on the backdrop or on the close button (also while the sheet
        animates out): it closes and focus returns to the open button. */
    method Dismiss()
      modifies this
      ensures !isOpen && focus == OpenButton
      ensures activeId == old(activeId) && ticking == old(ticking) && focusTimerPending == old(focusTimerPending)
    {
      isOpen := false;
      focus := OpenButton;
    }

    /** The floating button, rendered only with items: opens the sheet and
        starts the zero-delay timer that moves focus to the close button. */
    method OpenSheet()
      requires Renders()
      modifies this
      ensures isOpen && focusTimerPending
      ensures activeId == old(activeId) && ticking == old(ticking) && focus == old(focus)
    {
      isOpen := true;
      focusTimerPending := true;
    }

    /** The zero-delay timer fires: focus moves to the close button when that
        button is mounted, and stays where it is otherwise. */
    method FocusTimer(closeButtonMounted: bool)
      requires focusTimerPending
      modifies this
      ensures !focusTimerPending
      ensures focus == if closeButtonMounted then CloseButton else old(focus)
      ensures isOpen == old(isOpen) && activeId == old(activeId) && ticking == old(ticking)
    {
      if closeButtonMounted {
        focus := CloseButton;
      }
      focusTimerPending := false;
    }
  }

  /** The closest item is at least as close as every item with an element,
      and strictly closer than every earlier one. */
  lemma ClosestIsNearest(tops: seq<Option<int>>, i: nat)
    requires i < |tops| && tops[i].Some?
    ensures Closest(tops).Some?
    ensures var k := Closest(tops).value;
            Offset(tops[k].value) <= Offset(tops[i].value)
            && (i < k ==> Offset(tops[k].value) < Offset(tops[i].value))
  {
  }

  /** Two items at the same distance, one above and one below the anchor line:
      the earlier one wins. */
  lemma TieGoesToEarlier(d: nat)
    ensures Closest([Some(Anchor - d), Some(Anchor + d)]) == Some(0)
  {
    var tops := [Some(Anchor - d), Some(Anchor + d)];
    assert tops[..1] == [Some(Anchor - d)];
    assert tops[..1][..0] == [];
  }
}

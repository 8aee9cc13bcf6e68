/**
 * The full-screen viewer of components/Lightbox.tsx: which callbacks a key
 * press or a button fires. The viewer keeps no state of its own.
 */
module Lightbox {
  import opened Wrappers
  import opened Catalog

  /** The three callbacks the viewer receives: `onClose`, `onNext`, `onPrev`. */
  datatype Action = Close | Next | Prev

  /** The viewer's three buttons. */
  datatype Button = CloseButton | PrevButton | NextButton

  /**
   * The callbacks `handleKeyDown` fires, in order: nothing while no item is
   * shown, otherwise one independent test per key name.
   */
  function KeyActions(key: string, itemShown: bool): (fired: seq<Action>)
    ensures |fired| <= 1
    ensures !itemShown ==> fired == []
    ensures Close in fired <==> itemShown && key == "Escape"
    ensures Next in fired <==> itemShown && key == "ArrowRight"
    ensures Prev in fired <==> itemShown && key == "ArrowLeft"
  {
    if !itemShown then []
    else
      (if key == "Escape" then [Close] else [])
      + (if key == "ArrowRight" then [Next] else [])
      + (if key == "ArrowLeft" then [Prev] else [])
  }

  /** Any other key, or any key while nothing is shown, fires nothing. */
  lemma OtherKeysDoNothing(key: string, itemShown: bool)
    requires !itemShown || (key != "Escape" && key != "ArrowRight" && key != "ArrowLeft")
    ensures KeyActions(key, itemShown) == []
  {
  }

  /** The callback behind each button. */
  function ButtonAction(b: Button): (a: Action)
    ensures a == Close <==> b == CloseButton
    ensures a == Prev <==> b == PrevButton
    ensures a == Next <==> b == NextButton
  {
    match b
    case CloseButton => Close
    case PrevButton => Prev
    case NextButton => Next
  }

  /** The buttons on screen: none when no item is shown. */
  function VisibleButtons(item: Option<GalleryItem>): (buttons: seq<Button>)
    ensures item.None? <==> buttons == []
    ensures item.Some? ==> CloseButton in buttons && PrevButton in buttons && NextButton in buttons
  {
    if item.None? then [] else [CloseButton, PrevButton, NextButton]
  }

  /** Each button does what its key does, and distinct buttons do distinct things. */
  lemma ButtonsMatchKeys(b: Button, c: Button)
    ensures KeyActions(match b case CloseButton => "Escape" case PrevButton => "ArrowLeft" case NextButton => "ArrowRight", true)
      == [ButtonAction(b)]
    ensures b != c ==> ButtonAction(b) != ButtonAction(c)
  {
  }
}

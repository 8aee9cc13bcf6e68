/**
 * The hover rotator of components/HoverLoopText.tsx: while the pointer is over
 * the main text a bubble is visible and cycles through `alternates` on each
 * interval tick; leaving hides it and rewinds to the first alternate.
 */
module HoverLoopText {
  import Rotation

  class HoverText {
    const mainText: string
    const alternates: seq<string>
    var isHovered: bool
    var index: nat
    var isVisible: bool

    /** The bubble shows exactly while hovered, and rests on the first alternate otherwise. */
    ghost predicate Valid()
      reads this
    {
      |alternates| > 0 && index < |alternates| && isVisible == isHovered && (!isHovered ==> index == 0)
    }

    /** The alternate the bubble shows, `alternates[index]`. */
    function Bubble(): (text: string)
      reads this
      requires Valid()
      ensures text in alternates
    {
      alternates[index]
    }

    constructor (mainText: string, alternates: seq<string>)
      requires |alternates| > 0
      ensures Valid()
      ensures this.mainText == mainText && this.alternates == alternates
      ensures !isHovered && index == 0 && !isVisible
    {
      this.mainText := mainText;
      this.alternates := alternates;
      isHovered := false;
      index := 0;
      isVisible := false;
    }

    /** `onMouseEnter`, then the effect: the bubble appears and the interval starts. */
    method MouseEnter()
      requires Valid()
      modifies this
      ensures Valid()
      ensures isHovered && isVisible && index == old(index)
    {
      isHovered := true;
      isVisible := true;
    }

    /** `onMouseLeave`, then the effect: the bubble hides and rewinds to the first alternate. */
    method MouseLeave()
      requires Valid()
      modifies this
      ensures Valid()
      ensures !isHovered && !isVisible && index == 0
    {
      isHovered := false;
      isVisible := false;
      index := 0;
    }

    /** One interval tick; the interval only exists while hovered. */
    method Tick()
      requires Valid()
      modifies this
      ensures Valid()
      ensures isHovered == old(isHovered) && isVisible == old(isVisible)
      ensures index == if old(isHovered) then Rotation.Advance(old(index), |alternates|) else old(index)
    {
      if isHovered {
        index := (index + 1) % |alternates|;
      }
    }
  }
}

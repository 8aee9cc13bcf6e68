/**
 * The page shell of App.tsx: the `selectedItem` and `isGalleryOpen` state
 * slices and their setters, the viewer callbacks wired to the lightbox, the
 * god-mode key listener and the rotating hero words. The gallery modal is
 * always mounted, so its filter lives as long as the page.
 */
module App {
  import opened Wrappers
  import opened Catalog
  import opened Navigation
  import opened Lightbox
  import opened KeyHistory
  import opened GalleryModal
  import Rotation

  /** One pair of hero words. */
  datatype HeroWord = HeroWord(top: string, bottom: string)

  const HERO_WORDS: seq<HeroWord> := [
    HeroWord("VISION", "ENGINEERED"),
    HeroWord("REALITY", "RENDERED"),
    HeroWord("DIGITAL", "ALCHEMY"),
    HeroWord("LOGIC", "DEFYING")
  ]

  /** Four rotations bring every hero word back. */
  lemma HeroRotationCycles(i: nat)
    requires i < |HERO_WORDS|
    ensures Rotation.AdvanceTimes(i, |HERO_WORDS|, |HERO_WORDS|) == i
  {
    Rotation.AdvanceTimesCycles(i, |HERO_WORDS|);
  }

  /** The lightbox callbacks as App binds them: close clears, next and prev move. */
  function ApplyAction(catalog: seq<GalleryItem>, selected: Option<GalleryItem>, a: Action): (r: Option<GalleryItem>)
    ensures a == Close ==> r == None
    ensures a != Close && selected == None ==> r == None
    ensures a != Close && selected != None && catalog != [] ==> r != None && r.value in catalog
  {
    match a
    case Close => None
    case Next => NextItem(catalog, selected)
    case Prev => PrevItem(catalog, selected)
  }

  /** Runs the fired callbacks in order. */
  function ApplyActions(catalog: seq<GalleryItem>, selected: Option<GalleryItem>, fired: seq<Action>): Option<GalleryItem>
    decreases |fired|
  {
    if fired == [] then selected else ApplyActions(catalog, ApplyAction(catalog, selected, fired[0]), fired[1..])
  }

  /**
   * What a key press does to the selection: Escape closes, the arrows move,
   * and nothing happens while no item is shown or for any other key.
   */
  lemma {:induction false} ViewerKey(catalog: seq<GalleryItem>, selected: Option<GalleryItem>, key: string)
    ensures ApplyActions(catalog, selected, KeyActions(key, selected.Some?)) ==
      if selected.None? then None
      else if key == "Escape" then None
      else if key == "ArrowRight" then NextItem(catalog, selected)
      else if key == "ArrowLeft" then PrevItem(catalog, selected)
      else selected
  {
    var fired := KeyActions(key, selected.Some?);
    if fired != [] {
      assert fired == [fired[0]];
      assert fired[0] in fired;
      assert ApplyActions(catalog, selected, fired) == ApplyAction(catalog, selected, fired[0]);
    } else {
      OtherKeysDoNothing(key, selected.Some?);
    }
  }

  class AppState {
    var selected: Option<GalleryItem>
    var galleryOpen: bool
    var heroIndex: nat
    var keyHistory: string
    var godMode: bool
    const modal: Modal

    /**
     * The modal shows the catalog, the hero index names a word, the key
     * buffer is bounded and a selection is always a catalog item.
     */
    ghost predicate Valid()
      reads this, modal
    {
      modal.Valid() && modal.items == GalleryItems()
      && heroIndex < |HERO_WORDS|
      && |keyHistory| <= HISTORY_LIMIT
      && (selected.Some? ==> selected.value in GalleryItems())
    }

    /** The hero words currently on screen. */
    function HeroShown(): (w: HeroWord)
      reads this, modal
      requires Valid()
      ensures w in HERO_WORDS
    {
      HERO_WORDS[heroIndex]
    }

    constructor ()
      ensures Valid() && fresh(modal)
      ensures selected == None && !galleryOpen && heroIndex == 0
      ensures keyHistory == "" && !godMode
      ensures modal.activeCategory == ALL
    {
      selected := None;
      galleryOpen := false;
      heroIndex := 0;
      keyHistory := "";
      godMode := false;
      modal := new Modal(GalleryItems());
    }

    /**
     * "OPEN ARCHIVE": `setIsGalleryOpen(true)`. When the value changes, the
     * modal's effect resets the filter; the selection is untouched.
     */
    method OpenGallery()
      requires Valid()
      modifies this`galleryOpen, modal
      ensures Valid() && galleryOpen
      ensures modal.activeCategory == if old(galleryOpen) then old(modal.activeCategory) else ALL
    {
      if !galleryOpen {
        modal.Open();
      }
      galleryOpen := true;
    }

    /** The modal's close button: `setIsGalleryOpen(false)`; the selection is untouched. */
    method CloseGallery()
      requires Valid()
      modifies this`galleryOpen
      ensures Valid() && !galleryOpen
    {
      galleryOpen := false;
    }

    /** A click on a tile of the open grid: `setSelectedItem(item)`. */
    method ClickTile(item: GalleryItem)
      requires Valid() && galleryOpen && item in modal.Visible()
      modifies this`selected
      ensures Valid() && selected == Some(item)
    {
      SubsequenceIsMembers(modal.Visible(), modal.items);
      selected := Some(item);
    }

    /** A filter chip of the open modal; the selection is untouched. */
    method ClickChip(k: nat)
      requires Valid() && galleryOpen && k < |Categories(modal.items)|
      modifies modal
      ensures Valid() && modal.activeCategory == Categories(GalleryItems())[k]
      ensures modal.Visible() != []
      ensures selected == old(selected) && galleryOpen
    {
      modal.ClickChip(k);
      assert GalleryItems() != [];
    }

    /** The category tag on a tile of the open grid; the selection is untouched. */
    method ClickTag(item: GalleryItem)
      requires Valid() && galleryOpen && item in modal.Visible()
      modifies modal
      ensures Valid() && modal.activeCategory == item.category && item in modal.Visible()
      ensures selected == old(selected) && galleryOpen
    {
      modal.ClickTag(item);
    }

    /** The "clear filter" button, shown in the open modal under a category filter. */
    method ClickClear()
      requires Valid() && galleryOpen && modal.activeCategory != ALL
      modifies modal
      ensures Valid() && modal.activeCategory == ALL && modal.Visible() == GalleryItems()
      ensures selected == old(selected) && galleryOpen
    {
      modal.ClickClear();
    }

    /** The viewer's `onClose`: `setSelectedItem(null)`. */
    method CloseViewer()
      requires Valid()
      modifies this`selected
      ensures Valid() && selected == None
    {
      selected := None;
    }

    /** `handleNextItem`: a no-op without a selection, otherwise the next catalog item, ignoring the grid filter. */
    method ShowNext()
      requires Valid()
      modifies this`selected
      ensures Valid() && selected == NextItem(GalleryItems(), old(selected))
    {
      selected := NextItem(GalleryItems(), selected);
    }

    /** `handlePrevItem`: a no-op without a selection, otherwise the previous catalog item. */
    method ShowPrev()
      requires Valid()
      modifies this`selected
      ensures Valid() && selected == PrevItem(GalleryItems(), old(selected))
    {
      selected := PrevItem(GalleryItems(), selected);
    }

    /**
     * A key press reaches both window listeners: the god-mode buffer and the
     * lightbox's key handler. They touch disjoint state.
     */
    method KeyDown(key: string)
      requires Valid()
      modifies this`selected, this`keyHistory, this`godMode
      ensures Valid()
      ensures KeyState(keyHistory, godMode) == PressKey(KeyState(old(keyHistory), old(godMode)), key)
      ensures selected == ApplyActions(GalleryItems(), old(selected), KeyActions(key, old(selected).Some?))
    {
      var st := PressKey(KeyState(keyHistory, godMode), key);
      keyHistory, godMode := st.history, st.godMode;
      var fired := KeyActions(key, selected.Some?);
      ViewerKey(GalleryItems(), selected, key);
      selected := ApplyActions(GalleryItems(), selected, fired);
    }

    /** The hero interval, once its exit animation completes: `setHeroIndex(nextIndex)`. */
    method RotateHero()
      requires Valid()
      modifies this`heroIndex
      ensures Valid() && heroIndex == Rotation.Advance(old(heroIndex), |HERO_WORDS|)
    {
      heroIndex := (heroIndex + 1) % |HERO_WORDS|;
    }
  }
}

# Samsco portfolio gallery — a Dafny model

The Samsco portfolio is a single-page React site. Its only stateful logic is
the "Visual Vault" gallery. This project models that logic in Dafny:

- the static catalog of 32 works (`data.ts`);
- the grid modal, with its category filter, the derived filtered list and the
  list of filter chips (`components/GalleryModal.tsx`);
- the full-screen viewer's key dispatch (`components/Lightbox.tsx`);
- the page shell (`App.tsx`), which holds:
  - the selection and the gallery-open flag;
  - cyclic next/prev navigation through the full catalog;
  - the "SAMSCO" god-mode key buffer;
  - the rotating hero words;
- the hover bubble that cycles through alternate names
  (`components/HoverLoopText.tsx`).

Files and modules:

| file | module | models |
|---|---|---|
| `wrappers.dfy` | `Wrappers` | `Option`, for "an item or null" |
| `numerals.dfy` | `Numerals` | decimal printing of a number inside template literals, and its inverse |
| `catalog.dfy` | `Catalog` | the `GalleryItem` record and `galleryItems` |
| `gallery_modal.dfy` | `GalleryModal` | `filteredItems`, `categories`, the footer message; class `Modal` holds `activeCategory` |
| `navigation.dfy` | `Navigation` | `findIndex` by id, JavaScript `%`, `handleNextItem` and `handlePrevItem` as functions of the selection |
| `key_history.dfy` | `KeyHistory` | the god-mode listener as a step function on (buffer, flag) |
| `lightbox.dfy` | `Lightbox` | the key handler and the buttons, as the callbacks they fire |
| `rotation.dfy` | `Rotation` | `(i + 1) % n`, shared by the hero words and the hover bubble |
| `hover_loop_text.dfy` | `HoverLoopText` | class `HoverText`, with fields `isHovered`, `index` and `isVisible` |
| `app.dfy` | `App` | class `AppState`, with fields `selected`, `galleryOpen`, `heroIndex`, `keyHistory`, `godMode` and the mounted `modal` |

Three behaviours of the code are modelled as written:

- `handleNextItem` and `handlePrevItem` return without effect when nothing
  is selected.
- Selecting an item does not check that it belongs to the catalog. In the
  model the only caller is a click on a visible tile, so a selection is
  always a catalog item (`AppState.Valid`).
- A selection whose id is not in the catalog is handled as the code does it:
  `findIndex` gives -1, so next shows item 0 and prev shows item n-2
  (`Navigation.NavigationFromStranger`).

Filter and selection are independent. The modal's methods modify only the
modal, and `AppState`'s navigation methods modify only `selected`. The
`modifies` clauses prove that neither side changes the other.

## Model

| member | source | states |
|---|---|---|
| Numerals.DecimalString | data.ts:19 | the printed number is non-empty, all digits, one digit exactly when below ten, "0" for zero and without a leading zero otherwise |
| Numerals.DecimalRoundTrip | data.ts:19 | reading the printed digits back gives the number |
| Numerals.DecimalStringInjective | data.ts:24 | different numbers print differently |
| Catalog.Item | data.ts:17-27 | item i has id i, a category among the five listed, and the first client exactly at even positions |
| Catalog.GalleryItems | data.ts:13 | the catalog has exactly 32 items |
| Catalog.CatalogIdsArePositions | data.ts:18 | item i has id i, so ids are pairwise distinct |
| Catalog.CatalogCategoryCycle | data.ts:14-15 | item i has category number i mod 5 of the five listed |
| Catalog.CatalogClients | data.ts:21 | even positions are "Global Tech Agency", odd ones "Private Commission" |
| Catalog.CatalogSharedFields | data.ts:22-26 | every item has year "2024-2025", the same description and the same four tags in order |
| Catalog.CatalogTitles | data.ts:19 | the title of item i is "Project ", its category, a space and i+1 |
| Catalog.CatalogTitlesDistinct | data.ts:19 | no two items share a title |
| Catalog.CatalogImageUrlsDistinct | data.ts:23-24 | each item gets its own picture seed, so no two items share an image URL |
| GalleryModal.KeepCategory | components/GalleryModal.tsx:47 | `filter` keeps only items of the category, keeps every such item with its multiplicity, and keeps their order |
| GalleryModal.FilteredItems | components/GalleryModal.tsx:45-47 | under "All" the list is `items` exactly; otherwise it is `KeepCategory`'s list: every item of that category, with its multiplicity, and nothing else, as an order-preserving subsequence no longer than `items` |
| GalleryModal.CategoryNames | components/GalleryModal.tsx:49 | position k holds the category of item k; a name occurs exactly when some item has it |
| GalleryModal.Distinct | components/GalleryModal.tsx:49 | the Set's values are pairwise distinct and are exactly the input's values |
| GalleryModal.DistinctInFirstOccurrenceOrder | components/GalleryModal.tsx:49 | the Set's values are ordered by where each first occurs |
| GalleryModal.Categories | components/GalleryModal.tsx:49 | the chips are "All" followed by pairwise distinct names that are exactly the item categories |
| GalleryModal.CategoriesInFirstOccurrenceOrder | components/GalleryModal.tsx:49 | the chips after "All" follow first-occurrence order among the items |
| GalleryModal.CatalogCategories | components/GalleryModal.tsx:49 | for the real catalog the chips are "All" and the five generator categories in their listed order |
| GalleryModal.ChipFilterNonEmpty | components/GalleryModal.tsx:82-85 | choosing any offered chip leaves a non-empty grid unless the item list itself is empty |
| GalleryModal.TagFilterKeepsItem | components/GalleryModal.tsx:117-120 | clicking an item's category tag keeps that item in the grid |
| GalleryModal.FooterMessage | components/GalleryModal.tsx:136 | "no items" is shown exactly when the list is empty or no item has the chosen category, "end of archive" otherwise |
| GalleryModal.NoItemsOnlyForEmptyList | components/GalleryModal.tsx:136 | with an offered filter, "no items" appears only for an empty item list |
| GalleryModal.Modal.Visible | components/GalleryModal.tsx:45-47 | the grid is an order-preserving subsequence of the items: all of them under "All", otherwise `KeepCategory`'s list, i.e. every item of the chosen category with its multiplicity and nothing else |
| GalleryModal.Modal.constructor | components/GalleryModal.tsx:16 | the filter starts as "All" |
| GalleryModal.Modal.Open | components/GalleryModal.tsx:18-22 | opening resets the filter to "All", so the grid shows every item |
| GalleryModal.Modal.ClickChip | components/GalleryModal.tsx:82-85 | a chip sets the filter to its category; "All" shows every item; the grid is non-empty unless there are no items |
| GalleryModal.Modal.ClickTag | components/GalleryModal.tsx:116-120 | a tag sets the filter to that item's category and the item stays visible |
| GalleryModal.Modal.ClickClear | components/GalleryModal.tsx:61-67 | the clear button exists only under a category filter and sets the filter back to "All" |
| Navigation.FindIndexById | App.tsx:77 | the result is -1 exactly when no item has the id, otherwise the first position with that id |
| Navigation.JsRemainder | App.tsx:78 | JavaScript's remainder: strictly between -b and b, carrying the dividend's sign; the Euclidean remainder for a non-negative dividend, and for a negative one 0 or the Euclidean remainder minus b |
| Navigation.NextIndex | App.tsx:78 | the next index is in [0, n) and wraps from the last position to 0 |
| Navigation.PrevIndex | App.tsx:85 | the previous index is in [0, n); it wraps from 0 to n-1 and gives n-2 (0 if n = 1) when the id was not found |
| Navigation.NextItem | App.tsx:75-80 | without a selection nothing happens; with one and a non-empty catalog the result is a catalog item |
| Navigation.PrevItem | App.tsx:82-87 | without a selection nothing happens; with one and a non-empty catalog the result is a catalog item |
| Navigation.FindIndexOfMember | App.tsx:77 | with unique ids the lookup finds an item at its own position |
| Navigation.NextFromPosition | App.tsx:77-79 | next from position k shows item (k+1) mod n of the full catalog; from the last item it shows the first |
| Navigation.PrevFromPosition | App.tsx:84-86 | prev from position k shows item (k-1+n) mod n; from the first item it shows the last |
| Navigation.NextThenPrev | App.tsx:75-87 | next followed by prev restores a catalog item |
| Navigation.PrevThenNext | App.tsx:75-87 | prev followed by next restores a catalog item |
| Navigation.NextTimesFromPosition | App.tsx:78 | m ≤ n presses of next from position k show item (k+m) mod n |
| Navigation.PrevTimesFromPosition | App.tsx:85 | m ≤ n presses of prev from position k show item (k-m+n) mod n |
| Navigation.NavigationCycles | App.tsx:75-87 | n presses of next, or of prev, return to the starting item |
| Navigation.NavigationFromStranger | App.tsx:77-78 | an item whose id is not in the catalog moves next to item 0 and prev to item n-2 (item 0 when n = 1) |
| Navigation.CatalogWraparound | App.tsx:75-87 | on the real catalog, next from item 32 shows item 1 and prev from item 1 shows item 32 |
| KeyHistory.UpperChar | App.tsx:41 | a lower-case ASCII letter becomes its capital, 32 code points lower; any other character is kept |
| KeyHistory.ToUpper | App.tsx:41 | upper-casing keeps the length and maps each ASCII letter to its capital |
| KeyHistory.KeepLast | App.tsx:42 | the buffer keeps at most the last six characters of what was typed |
| KeyHistory.PressKey | App.tsx:40-46 | after any key the buffer has at most six characters; the flag toggles exactly when the kept tail is "SAMSCO", and then the buffer is empty; otherwise the buffer is exactly the last six (or fewer) upper-cased characters typed |
| KeyHistory.TypingSecretToggles | App.tsx:40-46 | typing S, A, M, S, C, O in either case toggles god mode exactly once and empties the buffer, whatever came before |
| Lightbox.KeyActions | components/Lightbox.tsx:14-19 | no callback fires while no item is shown; Escape closes, ArrowRight goes next, ArrowLeft goes prev; a key fires at most one callback |
| Lightbox.OtherKeysDoNothing | components/Lightbox.tsx:15-18 | any other key, or any key with no item, fires nothing |
| Lightbox.ButtonAction | components/Lightbox.tsx:29-37 | the close, prev and next buttons fire `onClose`, `onPrev` and `onNext`, one callback each |
| Lightbox.VisibleButtons | components/Lightbox.tsx:24-39 | nothing is rendered without an item; with one, all three buttons are |
| Lightbox.ButtonsMatchKeys | components/Lightbox.tsx:29-37 | close, prev and next buttons fire `onClose`, `onPrev`, `onNext`, the same callbacks as their keys, and distinct buttons fire distinct callbacks |
| Rotation.Advance | App.tsx:55 | one rotation stays in [0, n) and moves one place forward, from the last place to 0 |
| Rotation.AdvanceTimesWraps | components/HoverLoopText.tsx:21 | up to one round, m steps move m places forward, wrapping past the end |
| Rotation.AdvanceTimesCycles | components/HoverLoopText.tsx:20-22 | as many steps as there are places return to the start |
| HoverLoopText.HoverText.constructor | components/HoverLoopText.tsx:9-11 | starts not hovered, at index 0, not visible |
| HoverLoopText.HoverText.Bubble | components/HoverLoopText.tsx:43 | the bubble always shows one of the alternates |
| HoverLoopText.HoverText.MouseEnter | components/HoverLoopText.tsx:16-18 | entering sets hovered and makes the bubble visible, keeping the index |
| HoverLoopText.HoverText.MouseLeave | components/HoverLoopText.tsx:23-26 | leaving clears hovered, hides the bubble and resets the index to 0 |
| HoverLoopText.HoverText.Tick | components/HoverLoopText.tsx:20-22 | a tick while hovered advances the index by one mod the number of alternates; otherwise nothing changes |
| App.HeroRotationCycles | App.tsx:19-25 | four rotations bring every hero word back |
| App.ApplyAction | App.tsx:318-320 | `onClose` clears the selection; `onNext` and `onPrev` do nothing without a selection and otherwise select a catalog item |
| App.ViewerKey | App.tsx:316-321 | Escape clears the selection, the arrows move it by next or prev, and other keys or no selection leave it alone |
| App.AppState.HeroShown | App.tsx:138-141 | the hero words shown are always one of the four pairs |
| App.AppState.constructor | App.tsx:14-15 | nothing selected, gallery closed, hero index 0, empty buffer, no god mode, filter "All" |
| App.AppState.OpenGallery | App.tsx:241 | opening sets the flag, resets the filter if the gallery was closed, and leaves the selection alone |
| App.AppState.CloseGallery | App.tsx:311 | closing clears the flag and leaves the selection alone |
| App.AppState.ClickTile | App.tsx:313 | clicking a visible tile selects that item, which is a catalog item |
| App.AppState.ClickChip | components/GalleryModal.tsx:82-85 | in the open gallery a chip sets the filter to its category, the grid is never empty, and the selection is kept |
| App.AppState.ClickTag | components/GalleryModal.tsx:116-120 | in the open gallery a tag sets the filter to the tile's category, the tile stays visible, and the selection is kept |
| App.AppState.ClickClear | components/GalleryModal.tsx:61-67 | in the open gallery under a category filter, the clear button shows the whole catalog again and keeps the selection |
| App.AppState.CloseViewer | App.tsx:318 | closing the viewer clears the selection; closing again changes nothing |
| App.AppState.ShowNext | App.tsx:75-80 | the selection becomes the next item of the full catalog, whatever the grid filter |
| App.AppState.ShowPrev | App.tsx:82-87 | the selection becomes the previous item of the full catalog, whatever the grid filter |
| App.AppState.KeyDown | App.tsx:38-50 | one key press updates the god-mode buffer and flag as `PressKey` does, and the selection as the viewer's key handler does |
| App.AppState.RotateHero | App.tsx:53-71 | the hero index advances by exactly one mod 4 and stays in [0, 4) |

## Left out

- components/BackgroundCanvas.tsx is not part of this model. It is three.js rendering with random numbers and floating-point animation.
- components/CustomCursor.tsx and components/TextReveal.tsx are not part of this model. They configure gsap tweens, DOM listeners and scroll triggers.
- gsap timelines are left out: the hero transition (App.tsx:57-67) and the modal entrance (components/GalleryModal.tsx:24-37). `RotateHero` is the index update the hero timeline performs when it completes.
- The Lagos clock (App.tsx:30-35) is left out. It is `Date`, time-zone and locale formatting.
- Interval timing is left out. Interval callbacks are explicit calls: `RotateHero` and `HoverText.Tick`.
- Registering and removing window listeners is left out. `AppState.KeyDown` delivers one key to both listeners. They touch disjoint state, so their order does not matter.
- `document.body` style and class changes are left out. The god-mode class is the boolean `godMode`, and the scroll lock is not modelled.
- The mobile menu flag `isMenuOpen` (App.tsx:13) is left out. The menu icon sets it (App.tsx:111); the close button (App.tsx:119) and each of the four menu links (App.tsx:123) clear it. It guards no gallery logic.
- JSX, CSS and image loading are left out.
- KeyHistory.UpperChar: maps ASCII letters only and keeps every other character. `toUpperCase` also maps non-ASCII letters, sometimes to several characters ('ß' to "SS") and sometimes onto ASCII ('ſ' to 'S'). So a key sequence such as "ſAMSCO" toggles god mode in the page but not in the model.
- KeyHistory.ToUpper: keeps the key name's length, which Unicode case mapping does not always do; it inherits `UpperChar`'s ASCII-only mapping.
- HoverLoopText.HoverText.constructor: requires a non-empty `alternates`. With an empty list the tick would compute NaN. The one use site (App.tsx:178) passes two names.
- Navigation.NextItem: with an empty catalog the index is NaN and the source stores `undefined`. The model returns `None`, which the viewer treats the same way as null.
- GalleryModal.Modal.ClickChip: takes the index of a rendered chip rather than any string, because a chip only ever passes its own label, an element of `categories`. The other calls of the setter are modelled by `Open`, `ClickClear` and `ClickTag`.
- GalleryModal.Modal.ClickTag: requires the item to be a tile of the current grid, because the tag is only rendered on such tiles.
- App.AppState.ClickTile: requires an open gallery and a visible tile, because `onItemClick` is only wired to those tiles.

/**
 * Viewer navigation of App.tsx (`handleNextItem`, `handlePrevItem`): the
 * selection moves cyclically through the FULL catalog, located by id,
 * whatever filter the grid shows.
 */
module Navigation {
  import opened Wrappers
  import opened Catalog

  /** `items.findIndex(i => i.id === id)`: the first position with that id, or -1. */
  function FindIndexById(items: seq<GalleryItem>, id: int): (k: int)
    ensures -1 <= k < |items|
    ensures k == -1 <==> forall j :: 0 <= j < |items| ==> items[j].id != id
    ensures 0 <= k ==> items[k].id == id && forall j :: 0 <= j < k ==> items[j].id != id
    decreases |items|
  {
    if items == [] then -1
    else if items[0].id == id then 0
    else
      var k := FindIndexById(items[1..], id);
      if k == -1 then -1 else k + 1
  }

  /** JavaScript's `%` on integers: the remainder takes the sign of the dividend. */
  function JsRemainder(a: int, b: int): (r: int)
    requires b > 0
    ensures -b < r < b
    ensures a >= 0 ==> r == a % b
    ensures a <= 0 ==> r <= 0
    ensures a < 0 ==> r == if a % b == 0 then 0 else a % b - b
  {
    if a >= 0 then a % b else NegRemainder(a, b); -((-a) % b)
  }

  /** The Euclidean remainder is the only one in `[0, b)`. */
  lemma ModUnique(a: int, b: int, k: int, r: int)
    requires b > 0 && 0 <= r < b && a == k * b + r
    ensures a % b == r
  {
    var d := a / b - k;
    assert b * d == r - a % b;
  }

  /** For a negative dividend, truncating and Euclidean remainders differ by `b` unless both are zero. */
  lemma NegRemainder(a: int, b: int)
    requires b > 0 && a < 0
    ensures -((-a) % b) == if a % b == 0 then 0 else a % b - b
  {
    var q, m := (-a) / b, (-a) % b;
    assert a == (-q) * b - m;
    if m == 0 {
      ModUnique(a, b, -q, 0);
    } else {
      ModUnique(a, b, -q - 1, b - m);
    }
  }

  lemma SuccMod(k: int, n: int)
    requires n > 0 && -1 <= k < n
    ensures (k + 1) % n == if k == n - 1 then 0 else k + 1
  {
  }

  lemma PredMod(k: int, n: int)
    requires n > 0 && -1 <= k < n
    ensures 0 <= k ==> (k - 1 + n) % n == if k == 0 then n - 1 else k - 1
  {
  }

  /** `(currentIndex + 1) % galleryItems.length`. */
  function NextIndex(current: int, n: nat): (i: int)
    requires n > 0 && -1 <= current < n
    ensures 0 <= i < n
    ensures i == if current == n - 1 then 0 else current + 1
  {
    SuccMod(current, n);
    JsRemainder(current + 1, n)
  }

  /** `(currentIndex - 1 + galleryItems.length) % galleryItems.length`. */
  function PrevIndex(current: int, n: nat): (i: int)
    requires n > 0 && -1 <= current < n
    ensures 0 <= i < n
    ensures 0 <= current ==> i == if current == 0 then n - 1 else current - 1
    ensures current == -1 ==> i == if n == 1 then 0 else n - 2
  {
    PredMod(current, n);
    JsRemainder(current - 1 + n, n)
  }

  /**
   * The selection after `handleNextItem`. With an empty catalog the index is
   * NaN and the new selection `undefined`, which the viewer treats as null.
   */
  function NextItem(catalog: seq<GalleryItem>, selected: Option<GalleryItem>): (r: Option<GalleryItem>)
    ensures selected.None? ==> r.None?
    ensures selected.Some? && catalog != [] ==> r.Some? && r.value in catalog
  {
    match selected
    case None => None
    case Some(item) =>
      if catalog == [] then None
      else Some(catalog[NextIndex(FindIndexById(catalog, item.id), |catalog|)])
  }

  /** The selection after `handlePrevItem`. */
  function PrevItem(catalog: seq<GalleryItem>, selected: Option<GalleryItem>): (r: Option<GalleryItem>)
    ensures selected.None? ==> r.None?
    ensures selected.Some? && catalog != [] ==> r.Some? && r.value in catalog
  {
    match selected
    case None => None
    case Some(item) =>
      if catalog == [] then None
      else Some(catalog[PrevIndex(FindIndexById(catalog, item.id), |catalog|)])
  }

  /** With unique ids, the lookup finds an item at its own position. */
  lemma FindIndexOfMember(catalog: seq<GalleryItem>, k: nat)
    requires IdsDistinct(catalog) && k < |catalog|
    ensures FindIndexById(catalog, catalog[k].id) == k
  {
  }

  /** Next moves from position `k` to `(k + 1) mod n`; from the last item it wraps to the first. */
  lemma NextFromPosition(catalog: seq<GalleryItem>, k: nat)
    requires IdsDistinct(catalog) && k < |catalog|
    ensures NextItem(catalog, Some(catalog[k])) == Some(catalog[(k + 1) % |catalog|])
    ensures k == |catalog| - 1 ==> NextItem(catalog, Some(catalog[k])) == Some(catalog[0])
  {
    FindIndexOfMember(catalog, k);
    SuccMod(k, |catalog|);
  }

  /** Prev moves from position `k` to `(k - 1 + n) mod n`; from the first item it wraps to the last. */
  lemma PrevFromPosition(catalog: seq<GalleryItem>, k: nat)
    requires IdsDistinct(catalog) && k < |catalog|
    ensures PrevItem(catalog, Some(catalog[k])) == Some(catalog[(k - 1 + |catalog|) % |catalog|])
    ensures k == 0 ==> PrevItem(catalog, Some(catalog[k])) == Some(catalog[|catalog| - 1])
  {
    FindIndexOfMember(catalog, k);
    PredMod(k, |catalog|);
  }

  /** Next then prev restores a catalog item. */
  lemma NextThenPrev(catalog: seq<GalleryItem>, item: GalleryItem)
    requires IdsDistinct(catalog) && item in catalog
    ensures PrevItem(catalog, NextItem(catalog, Some(item))) == Some(item)
  {
    var n := |catalog|;
    var k :| 0 <= k < n && catalog[k] == item;
    NextFromPosition(catalog, k);
    var j := (k + 1) % n;
    PrevFromPosition(catalog, j);
    assert (j - 1 + n) % n == k by {
      if k == n - 1 { assert j == 0; } else { assert j == k + 1; }
    }
  }

  /** Prev then next restores a catalog item. */
  lemma PrevThenNext(catalog: seq<GalleryItem>, item: GalleryItem)
    requires IdsDistinct(catalog) && item in catalog
    ensures NextItem(catalog, PrevItem(catalog, Some(item))) == Some(item)
  {
    var n := |catalog|;
    var k :| 0 <= k < n && catalog[k] == item;
    PrevFromPosition(catalog, k);
    var j := (k - 1 + n) % n;
    NextFromPosition(catalog, j);
    assert (j + 1) % n == k by {
      if k == 0 { assert j == n - 1; } else { assert j == k - 1; }
    }
  }

  /** The selection after `m` presses of next. */
  function NextTimes(catalog: seq<GalleryItem>, selected: Option<GalleryItem>, m: nat): Option<GalleryItem>
    decreases m
  {
    if m == 0 then selected else NextTimes(catalog, NextItem(catalog, selected), m - 1)
  }

  /** The selection after `m` presses of prev. */
  function PrevTimes(catalog: seq<GalleryItem>, selected: Option<GalleryItem>, m: nat): Option<GalleryItem>
    decreases m
  {
    if m == 0 then selected else PrevTimes(catalog, PrevItem(catalog, selected), m - 1)
  }

  lemma WrapMod(x: int, n: int)
    requires 0 <= x < 2 * n
    ensures x % n == if x < n then x else x - n
  {
  }

  /** Position reached from `k` after `m` forward steps around a ring of `n` positions. */
  ghost function WalkForward(k: nat, m: nat, n: nat): (r: nat)
    requires k < n
    ensures r < n
    decreases m
  {
    if m == 0 then k else WalkForward(if k == n - 1 then 0 else k + 1, m - 1, n)
  }

  /** Position reached from `k` after `m` backward steps around a ring of `n` positions. */
  ghost function WalkBackward(k: nat, m: nat, n: nat): (r: nat)
    requires k < n
    ensures r < n
    decreases m
  {
    if m == 0 then k else WalkBackward(if k == 0 then n - 1 else k - 1, m - 1, n)
  }

  lemma {:induction false} WalkForwardIsMod(k: nat, m: nat, n: nat)
    requires k < n && m <= n
    ensures WalkForward(k, m, n) == (k + m) % n
    decreases m
  {
    WrapMod(k + m, n);
    if m > 0 {
      var k' := if k == n - 1 then 0 else k + 1;
      WalkForwardIsMod(k', m - 1, n);
      WrapMod(k' + (m - 1), n);
    }
  }

  lemma {:induction false} WalkBackwardIsMod(k: nat, m: nat, n: nat)
    requires k < n && m <= n
    ensures WalkBackward(k, m, n) == (k - m + n) % n
    decreases m
  {
    WrapMod(k - m + n, n);
    if m > 0 {
      var k' := if k == 0 then n - 1 else k - 1;
      WalkBackwardIsMod(k', m - 1, n);
      WrapMod(k' - (m - 1) + n, n);
    }
  }

  /** A full round of `n` steps, in either direction, returns to the start. */
  lemma WalkFullRound(k: nat, n: nat)
    requires k < n
    ensures WalkForward(k, n, n) == k && WalkBackward(k, n, n) == k
  {
    WalkForwardIsMod(k, n, n);
    WrapMod(k + n, n);
    WalkBackwardIsMod(k, n, n);
    WrapMod(k, n);
  }

  lemma {:induction false} NextTimesWalk(catalog: seq<GalleryItem>, k: nat, m: nat)
    requires IdsDistinct(catalog) && k < |catalog|
    ensures NextTimes(catalog, Some(catalog[k]), m) == Some(catalog[WalkForward(k, m, |catalog|)])
    decreases m
  {
    if m > 0 {
      NextFromPosition(catalog, k);
      NextTimesWalk(catalog, if k == |catalog| - 1 then 0 else k + 1, m - 1);
    }
  }

  lemma {:induction false} PrevTimesWalk(catalog: seq<GalleryItem>, k: nat, m: nat)
    requires IdsDistinct(catalog) && k < |catalog|
    ensures PrevTimes(catalog, Some(catalog[k]), m) == Some(catalog[WalkBackward(k, m, |catalog|)])
    decreases m
  {
    if m > 0 {
      PrevFromPosition(catalog, k);
      PrevTimesWalk(catalog, if k == 0 then |catalog| - 1 else k - 1, m - 1);
    }
  }

  /** Up to one full round, `m` presses of next from position `k` land on position `(k + m) mod n`. */
  lemma NextTimesFromPosition(catalog: seq<GalleryItem>, k: nat, m: nat)
    requires IdsDistinct(catalog) && k < |catalog| && m <= |catalog|
    ensures NextTimes(catalog, Some(catalog[k]), m) == Some(catalog[(k + m) % |catalog|])
  {
    NextTimesWalk(catalog, k, m);
    WalkForwardIsMod(k, m, |catalog|);
  }

  /** Up to one full round, `m` presses of prev from position `k` land on position `(k - m + n) mod n`. */
  lemma PrevTimesFromPosition(catalog: seq<GalleryItem>, k: nat, m: nat)
    requires IdsDistinct(catalog) && k < |catalog| && m <= |catalog|
    ensures PrevTimes(catalog, Some(catalog[k]), m) == Some(catalog[(k - m + |catalog|) % |catalog|])
  {
    PrevTimesWalk(catalog, k, m);
    WalkBackwardIsMod(k, m, |catalog|);
  }

  /** Pressing next (or prev) as many times as there are items comes back to the start. */
  lemma NavigationCycles(catalog: seq<GalleryItem>, item: GalleryItem)
    requires IdsDistinct(catalog) && item in catalog
    ensures NextTimes(catalog, Some(item), |catalog|) == Some(item)
    ensures PrevTimes(catalog, Some(item), |catalog|) == Some(item)
  {
    var n := |catalog|;
    var k :| 0 <= k < n && catalog[k] == item;
    NextTimesWalk(catalog, k, n);
    PrevTimesWalk(catalog, k, n);
    WalkFullRound(k, n);
  }

  /**
   * A selection whose id is not in the catalog: `findIndex` gives -1, so next
   * lands on the first item and prev on the second-to-last (the only one when
   * there is a single item).
   */
  lemma NavigationFromStranger(catalog: seq<GalleryItem>, item: GalleryItem)
    requires catalog != []
    requires forall it :: it in catalog ==> it.id != item.id
    ensures NextItem(catalog, Some(item)) == Some(catalog[0])
    ensures PrevItem(catalog, Some(item)) == Some(catalog[if |catalog| == 1 then 0 else |catalog| - 2])
  {
    assert FindIndexById(catalog, item.id) == -1;
  }

  /** On the real catalog: next from the 32nd item shows the first, prev from the first shows the 32nd. */
  lemma CatalogWraparound()
    ensures NextItem(GalleryItems(), Some(GalleryItems()[31])) == Some(GalleryItems()[0])
    ensures PrevItem(GalleryItems(), Some(GalleryItems()[0])) == Some(GalleryItems()[31])
  {
    CatalogIdsArePositions();
    NextFromPosition(GalleryItems(), 31);
    PrevFromPosition(GalleryItems(), 0);
  }
}

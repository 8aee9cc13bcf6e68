/**
 * The static gallery catalog of data.ts: the `GalleryItem` record and the
 * 32 items generated from their position.
 */
module Catalog {
  import Numerals

  /** One portfolio work; `id` is a JavaScript number, modelled as an integer. */
  datatype GalleryItem = GalleryItem(
    id: int,
    title: string,
    category: string,
    client: string,
    year: string,
    imageUrl: string,
    description: string,
    tags: seq<string>)

  const CATALOG_SIZE: nat := 32

  /** The categories the generator cycles through, in this order. */
  const CATEGORIES: seq<string> := ["3D Visuals", "VFX", "Web Design", "Creative Coding", "Brand Identity"]

  const EVEN_CLIENT: string := "Global Tech Agency"
  const ODD_CLIENT: string := "Private Commission"
  const YEAR: string := "2024-2025"
  const DESCRIPTION: string := "An immersive exploration into digital aesthetics, combining procedural generation with human-centric design principles to create a unique visual experience."
  const TAGS: seq<string> := ["React", "Three.js", "Design", "Blender"]

  /** The item the generator builds at position `i`. */
  function Item(i: nat): (it: GalleryItem)
    ensures it.id == i && it.category in CATEGORIES
    ensures it.client == EVEN_CLIENT <==> i % 2 == 0
  {
    var category := CATEGORIES[i % |CATEGORIES|];
    GalleryItem(
      i,
      "Project " + category + " " + Numerals.DecimalString(i + 1),
      category,
      if i % 2 == 0 then EVEN_CLIENT else ODD_CLIENT,
      YEAR,
      "https://picsum.photos/seed/" + Numerals.DecimalString(i + 45) + "/1200/800",
      DESCRIPTION,
      TAGS)
  }

  /** `galleryItems`: the ordered catalog. */
  function GalleryItems(): (items: seq<GalleryItem>)
    ensures |items| == CATALOG_SIZE
  {
    seq(CATALOG_SIZE, i requires 0 <= i < CATALOG_SIZE => Item(i))
  }

  /** Identifiers are unique within a catalog. */
  ghost predicate IdsDistinct(items: seq<GalleryItem>) {
    forall i, j :: 0 <= i < j < |items| ==> items[i].id != items[j].id
  }

  /** Every item's id is its position, so ids are unique. */
  lemma CatalogIdsArePositions()
    ensures forall i :: 0 <= i < |GalleryItems()| ==> GalleryItems()[i].id == i
    ensures IdsDistinct(GalleryItems())
  {
  }

  /** Categories cycle through the five listed ones. */
  lemma CatalogCategoryCycle()
    ensures forall i :: 0 <= i < |GalleryItems()| ==> GalleryItems()[i].category == CATEGORIES[i % 5]
  {
  }

  /** Even positions belong to the agency, odd ones are private commissions. */
  lemma CatalogClients()
    ensures forall i :: 0 <= i < |GalleryItems()| ==>
      GalleryItems()[i].client == (if i % 2 == 0 then "Global Tech Agency" else "Private Commission")
  {
  }

  /** Year, description and tags are the same for every item. */
  lemma CatalogSharedFields()
    ensures forall it :: it in GalleryItems() ==>
      it.year == "2024-2025" && it.description == DESCRIPTION && it.tags == ["React", "Three.js", "Design", "Blender"]
  {
  }

  /** The title of item `i` names its category and the number `i + 1`. */
  lemma CatalogTitles()
    ensures forall i :: 0 <= i < |GalleryItems()| ==>
      GalleryItems()[i].title == "Project " + CATEGORIES[i % 5] + " " + Numerals.DecimalString(i + 1)
  {
  }

  /** Two strings that both end in a space and a space-free word end in the same word. */
  lemma {:induction false} SameLastWord(a: string, d1: string, b: string, d2: string)
    requires ' ' !in d1 && ' ' !in d2
    requires a + " " + d1 == b + " " + d2
    ensures d1 == d2
  {
    var s := a + " " + d1;
    var p, q := |s| - |d1| - 1, |s| - |d2| - 1;
    assert s[p] == ' ' && s[q] == ' ';
    assert d1 == s[p + 1..] && d2 == s[q + 1..];
  }

  lemma DigitsHaveNoSpace(s: string)
    requires Numerals.AllDigits(s)
    ensures ' ' !in s
  {
  }

  /** No two items share a title. */
  lemma CatalogTitlesDistinct(i: nat, j: nat)
    requires i < j < |GalleryItems()|
    ensures GalleryItems()[i].title != GalleryItems()[j].title
  {
    var d1 := Numerals.DecimalString(i + 1);
    var d2 := Numerals.DecimalString(j + 1);
    if GalleryItems()[i].title == GalleryItems()[j].title {
      DigitsHaveNoSpace(d1);
      DigitsHaveNoSpace(d2);
      SameLastWord("Project " + CATEGORIES[i % 5], d1, "Project " + CATEGORIES[j % 5], d2);
      Numerals.DecimalStringInjective(i + 1, j + 1);
    }
  }

  /** Each item gets its own image seed, so no two items share an image URL. */
  lemma CatalogImageUrlsDistinct(i: nat, j: nat)
    requires i < j < |GalleryItems()|
    ensures GalleryItems()[i].imageUrl != GalleryItems()[j].imageUrl
  {
    var prefix, suffix := "https://picsum.photos/seed/", "/1200/800";
    var d1 := Numerals.DecimalString(i + 45);
    var d2 := Numerals.DecimalString(j + 45);
    if GalleryItems()[i].imageUrl == GalleryItems()[j].imageUrl {
      var u := prefix + d1 + suffix;
      assert u == prefix + d2 + suffix;
      assert |d1| == |d2|;
      assert d1 == u[|prefix|..|prefix| + |d1|];
      assert d2 == u[|prefix|..|prefix| + |d2|];
      Numerals.DecimalStringInjective(i + 45, j + 45);
    }
  }
}

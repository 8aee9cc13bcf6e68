/**
 * The "Visual Vault" grid of components/GalleryModal.tsx: the `activeCategory`
 * state slice, the derived `filteredItems` and `categories`, and the footer
 * message chosen from the filtered count.
 */
module GalleryModal {
  import opened Catalog

  /** The sentinel filter value that shows every item. */
  const ALL: string := "All"

  const NO_ITEMS_MESSAGE: string := "NO ITEMS FOUND IN THIS CATEGORY"
  const END_MESSAGE: string := "END OF ARCHIVE"

  /** `a` is obtained from `b` by deleting elements: same relative order. */
  ghost predicate IsSubsequence<T>(a: seq<T>, b: seq<T>)
    decreases |b|
  {
    if b == [] then a == []
    else (a != [] && a[0] == b[0] && IsSubsequence(a[1..], b[1..])) || IsSubsequence(a, b[1..])
  }

  lemma {:induction false} SubsequenceOfItself<T>(s: seq<T>)
    ensures IsSubsequence(s, s)
    decreases |s|
  {
    if s != [] {
      SubsequenceOfItself(s[1..]);
    }
  }

  lemma {:induction false} SubsequenceIsNoLonger<T>(a: seq<T>, b: seq<T>)
    requires IsSubsequence(a, b)
    ensures |a| <= |b|
    decreases |b|
  {
    if b != [] {
      if a != [] && a[0] == b[0] && IsSubsequence(a[1..], b[1..]) {
        SubsequenceIsNoLonger(a[1..], b[1..]);
      } else {
        SubsequenceIsNoLonger(a, b[1..]);
      }
    }
  }

  /** `items.filter(item => item.category === category)`. */
  function KeepCategory(items: seq<GalleryItem>, category: string): (kept: seq<GalleryItem>)
    ensures forall x :: x in kept ==> x.category == category
    ensures forall x :: multiset(kept)[x] == if x.category == category then multiset(items)[x] else 0
    ensures IsSubsequence(kept, items)
    decreases |items|
  {
    if items == [] then []
    else
      var rest := KeepCategory(items[1..], category);
      assert items == [items[0]] + items[1..];
      if items[0].category == category then [items[0]] + rest else rest
  }

  /** `filteredItems`: the whole list under "All", otherwise the items of that category, in order. */
  function FilteredItems(items: seq<GalleryItem>, activeCategory: string): (visible: seq<GalleryItem>)
    ensures activeCategory == ALL ==> visible == items
    ensures activeCategory != ALL ==> forall x :: x in visible ==> x.category == activeCategory
    ensures activeCategory != ALL ==> forall x :: x in items && x.category == activeCategory ==> x in visible
    ensures activeCategory != ALL ==> visible == KeepCategory(items, activeCategory)
    ensures IsSubsequence(visible, items) && |visible| <= |items|
  {
    var visible := if activeCategory == ALL then items else KeepCategory(items, activeCategory);
    SubsequenceOfItself(items);
    SubsequenceIsNoLonger(visible, items);
    visible
  }

  /** `items.map(i => i.category)`. */
  function CategoryNames(items: seq<GalleryItem>): (names: seq<string>)
    ensures |names| == |items|
    ensures forall k :: 0 <= k < |items| ==> names[k] == items[k].category
    ensures forall c :: c in names <==> exists it :: it in items && it.category == c
  {
    var names := seq(|items|, k requires 0 <= k < |items| => items[k].category);
    assert forall k :: 0 <= k < |items| ==> names[k] == items[k].category;
    names
  }

  /** `Array.from(new Set(s))`: each value once, kept where it first occurs. */
  function Distinct<T(==, !new)>(s: seq<T>): (d: seq<T>)
    ensures forall i, j :: 0 <= i < j < |d| ==> d[i] != d[j]
    ensures forall x :: x in d <==> x in s
    decreases |s|
  {
    if s == [] then []
    else
      var d := Distinct(s[..|s| - 1]);
      assert s == s[..|s| - 1] + [s[|s| - 1]];
      if s[|s| - 1] in d then d else d + [s[|s| - 1]]
  }

  /** The position where `x` first occurs in `s`. */
  function FirstIndex<T(==, !new)>(s: seq<T>, x: T): (k: nat)
    requires x in s
    ensures k < |s| && s[k] == x && x !in s[..k]
    decreases |s|
  {
    if x in s[..|s| - 1] then FirstIndex(s[..|s| - 1], x) else |s| - 1
  }

  lemma {:induction false} DistinctInFirstOccurrenceOrder<T(!new)>(s: seq<T>)
    ensures forall i, j :: 0 <= i < j < |Distinct(s)| ==>
      FirstIndex(s, Distinct(s)[i]) < FirstIndex(s, Distinct(s)[j])
    decreases |s|
  {
    if s != [] {
      var t, x := s[..|s| - 1], s[|s| - 1];
      DistinctInFirstOccurrenceOrder(t);
      var d := Distinct(t);
      assert forall y :: y in t ==> FirstIndex(s, y) == FirstIndex(t, y);
      if x !in d {
        assert FirstIndex(s, x) == |s| - 1;
      }
    }
  }

  /** `categories`: "All" followed by the distinct item categories. */
  function Categories(items: seq<GalleryItem>): (cats: seq<string>)
    ensures |cats| > 0 && cats[0] == ALL
    ensures forall c :: c in cats[1..] <==> exists it :: it in items && it.category == c
    ensures forall i, j :: 1 <= i < j < |cats| ==> cats[i] != cats[j]
  {
    var d := Distinct(CategoryNames(items));
    assert ([ALL] + d)[1..] == d;
    [ALL] + d
  }

  /** The chips after "All" follow the order in which categories first appear among the items. */
  lemma CategoriesInFirstOccurrenceOrder(items: seq<GalleryItem>)
    ensures forall i, j :: 1 <= i < j < |Categories(items)| ==>
      FirstIndex(CategoryNames(items), Categories(items)[i]) < FirstIndex(CategoryNames(items), Categories(items)[j])
  {
    var names := CategoryNames(items);
    DistinctInFirstOccurrenceOrder(names);
    assert forall i :: 1 <= i < |Categories(items)| ==> Categories(items)[i] == Distinct(names)[i - 1];
  }

  /** A list that starts with the distinct values `c` and then repeats only values of `c` de-duplicates to `c`. */
  lemma {:induction false} DistinctOfRepeatingPrefix<T(!new)>(s: seq<T>, c: seq<T>, k: nat)
    requires |c| <= k <= |s|
    requires forall i, j :: 0 <= i < j < |c| ==> c[i] != c[j]
    requires s[..|c|] == c
    requires forall x :: x in s ==> x in c
    ensures Distinct(s[..k]) == c
  {
    if k == |c| {
      DistinctOfDistinct(c);
    } else {
      DistinctOfRepeatingPrefix(s, c, k - 1);
      assert s[..k] == s[..k - 1] + [s[k - 1]];
      assert s[k - 1] in s;
      DistinctAppend(s[..k - 1], s[k - 1]);
    }
  }

  lemma DistinctOfRepeatingList<T(!new)>(s: seq<T>, c: seq<T>)
    requires |c| <= |s|
    requires forall i, j :: 0 <= i < j < |c| ==> c[i] != c[j]
    requires s[..|c|] == c
    requires forall x :: x in s ==> x in c
    ensures Distinct(s) == c
  {
    DistinctOfRepeatingPrefix(s, c, |s|);
    assert s[..|s|] == s;
  }

  /** A list without repetitions is its own de-duplication. */
  lemma {:induction false} DistinctOfDistinct<T(!new)>(c: seq<T>)
    requires forall i, j :: 0 <= i < j < |c| ==> c[i] != c[j]
    ensures Distinct(c) == c
    decreases |c|
  {
    if c != [] {
      var init := c[..|c| - 1];
      DistinctOfDistinct(init);
      assert c == init + [c[|c| - 1]];
      DistinctAppend(init, c[|c| - 1]);
    }
  }

  /** Inserting one more value into the set. */
  lemma DistinctAppend<T(!new)>(s: seq<T>, x: T)
    ensures Distinct(s + [x]) == if x in s then Distinct(s) else Distinct(s) + [x]
  {
    assert (s + [x])[..|s + [x]| - 1] == s;
  }

  /** The real catalog offers exactly the five generator categories, in their listed order. */
  lemma CatalogCategories()
    ensures Categories(GalleryItems()) == [ALL] + CATEGORIES
  {
    CatalogCategoryCycle();
    CyclingCategories(GalleryItems());
  }

  /** Items whose categories cycle through the five labels offer those five chips after "All". */
  lemma CyclingCategories(items: seq<GalleryItem>)
    requires |items| >= |CATEGORIES|
    requires forall i :: 0 <= i < |items| ==> items[i].category == CATEGORIES[i % 5]
    ensures Categories(items) == [ALL] + CATEGORIES
  {
    var names := CategoryNames(items);
    CategoryLabelsDistinct();
    assert forall i :: 0 <= i < |names| ==> names[i] == items[i].category;
    assert names[..5] == CATEGORIES;
    forall x | x in names
      ensures x in CATEGORIES
    {
      var i :| 0 <= i < |names| && names[i] == x;
      assert CATEGORIES[i % 5] in CATEGORIES;
    }
    DistinctOfRepeatingList(names, CATEGORIES);
  }

  lemma CategoryLabelsDistinct()
    ensures forall i, j :: 0 <= i < j < |CATEGORIES| ==> CATEGORIES[i] != CATEGORIES[j]
  {
  }

  /** A chip other than "All" never leads to an empty grid. */
  lemma ChipFilterNonEmpty(items: seq<GalleryItem>, k: nat)
    requires k < |Categories(items)|
    ensures FilteredItems(items, Categories(items)[k]) != [] <==> items != []
  {
    var cats := Categories(items);
    if k > 0 {
      assert cats[k] in cats[1..];
      var it :| it in items && it.category == cats[k];
      assert it in FilteredItems(items, cats[k]);
    }
  }

  /** Clicking an item's category tag keeps that item in the grid. */
  lemma TagFilterKeepsItem(items: seq<GalleryItem>, item: GalleryItem)
    requires item in items
    ensures item in FilteredItems(items, item.category)
  {
  }

  /** The footer text under the grid. */
  function FooterMessage(items: seq<GalleryItem>, activeCategory: string): (msg: string)
    ensures msg == NO_ITEMS_MESSAGE || msg == END_MESSAGE
    ensures msg == NO_ITEMS_MESSAGE <==>
      items == [] || (activeCategory != ALL && forall it :: it in items ==> it.category != activeCategory)
  {
    var visible := FilteredItems(items, activeCategory);
    assert visible != [] ==> visible[0] in visible;
    if |visible| == 0 then NO_ITEMS_MESSAGE else END_MESSAGE
  }

  /** While the filter is one the modal offers, "no items" appears only for an empty list. */
  lemma NoItemsOnlyForEmptyList(items: seq<GalleryItem>, activeCategory: string)
    requires activeCategory in Categories(items)
    ensures FooterMessage(items, activeCategory) == NO_ITEMS_MESSAGE <==> items == []
  {
    var k :| 0 <= k < |Categories(items)| && Categories(items)[k] == activeCategory;
    ChipFilterNonEmpty(items, k);
  }

  /**
   * The modal component. It stays mounted while hidden, so `activeCategory`
   * survives closing and is reset by the effect that runs on opening.
   */
  class Modal {
    const items: seq<GalleryItem>
    var activeCategory: string

    /** The filter is always one of the offered chips. */
    ghost predicate Valid()
      reads this
    {
      activeCategory in Categories(items)
    }

    /** The grid shown under the current filter. */
    function Visible(): (visible: seq<GalleryItem>)
      reads this
      ensures IsSubsequence(visible, items)
      ensures activeCategory == ALL ==> visible == items
      ensures activeCategory != ALL ==> visible == KeepCategory(items, activeCategory)
      ensures forall x :: x in visible ==> activeCategory == ALL || x.category == activeCategory
    {
      FilteredItems(items, activeCategory)
    }

    constructor (items: seq<GalleryItem>)
      ensures Valid() && this.items == items && activeCategory == ALL
    {
      this.items := items;
      activeCategory := ALL;
    }

    /** The effect run when `isOpen` becomes true. */
    method Open()
      modifies this
      ensures Valid() && activeCategory == ALL && Visible() == items
    {
      activeCategory := ALL;
    }

    /** A click on the `k`-th filter chip. */
    method ClickChip(k: nat)
      requires k < |Categories(items)|
      modifies this
      ensures Valid() && activeCategory == Categories(items)[k]
      ensures k == 0 ==> Visible() == items
      ensures Visible() != [] <==> items != []
    {
      activeCategory := Categories(items)[k];
      ChipFilterNonEmpty(items, k);
    }

    /** A click on the category tag of a tile shown in the grid. */
    method ClickTag(item: GalleryItem)
      requires item in Visible()
      modifies this
      ensures Valid() && activeCategory == item.category && item in Visible()
    {
      assert item in items by {
        SubsequenceIsMembers(Visible(), items);
      }
      activeCategory := item.category;
      assert item.category in Categories(items)[1..];
    }

    /** The clear button, rendered only while a category is selected. */
    method ClickClear()
      requires activeCategory != ALL
      modifies this
      ensures Valid() && activeCategory == ALL && Visible() == items
    {
      activeCategory := ALL;
    }
  }

  lemma {:induction false} SubsequenceIsMembers<T>(a: seq<T>, b: seq<T>)
    requires IsSubsequence(a, b)
    ensures forall x :: x in a ==> x in b
    decreases |b|
  {
    if b != [] {
      if a != [] && a[0] == b[0] && IsSubsequence(a[1..], b[1..]) {
        SubsequenceIsMembers(a[1..], b[1..]);
        assert a == [a[0]] + a[1..];
      } else {
        SubsequenceIsMembers(a, b[1..]);
      }
    }
  }
}

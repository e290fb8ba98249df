/**
 Worked results of the publication list on the actual catalog of src/data.js.
 */
module CatalogExamples {
  import opened Data
  import opened Sorting
  import opened Catalog
  import opened Interaction

  /** Every record of a year group has that year. */
  lemma WithYearYears(s: seq<Publication>, y: int)
    ensures AllOfYear(WithYear(s, y), y)
  {
    var r := WithYear(s, y);
    WithYearMembers(s, y);
    forall i | 0 <= i < |r| ensures r[i].year == y {
      assert r[i] in r;
    }
  }

  /** A run of year `yp` followed by a run of year `yq` is sorted when `yq` does not strictly precede `yp`. */
  lemma RunsSorted(d: Direction, p: seq<Publication>, q: seq<Publication>, yp: int, yq: int)
    requires AllOfYear(p, yp) && AllOfYear(q, yq) && !Precedes(d, yq, yp)
    ensures Sorted(d, p + q)
  {
    forall i, j | 0 <= i < j < |p + q| ensures !Precedes(d, (p + q)[j].year, (p + q)[i].year) {
      if i >= |p| {
        assert (p + q)[i] == q[i - |p|];
      }
      if j >= |p| {
        assert (p + q)[j] == q[j - |p|];
      }
    }
  }

  /** Putting the year-`y1` group of a two-year list before its year-`y2` group keeps every year group. */
  lemma GroupsJoined(s: seq<Publication>, y1: int, y2: int, y: int)
    requires y1 != y2 && TwoYears(s, y1, y2)
    ensures WithYear(WithYear(s, y1) + WithYear(s, y2), y) == WithYear(s, y)
  {
    var p, q := WithYear(s, y1), WithYear(s, y2);
    WithYearAppend(p, q, y);
    WithYearYears(s, y1);
    WithYearYears(s, y2);
    if y == y1 {
      WithYearAll(p, y);
      WithYearNone(q, y);
      assert p + [] == p;
    } else if y == y2 {
      WithYearNone(p, y);
      WithYearAll(q, y);
    } else {
      WithYearNone(p, y);
      WithYearNone(q, y);
      WithYearNone(s, y);
    }
  }

  /**
   A list whose records date from two years only sorts newest first into its
   later-year group followed by its earlier-year group, each in list order.
   */
  lemma TwoYearsNewest(s: seq<Publication>, early: int, late: int)
    requires early < late && TwoYears(s, early, late)
    ensures Sort(Descending, s) == WithYear(s, late) + WithYear(s, early)
  {
    var p, q := WithYear(s, late), WithYear(s, early);
    WithYearYears(s, late);
    WithYearYears(s, early);
    RunsSorted(Descending, p, q, late, early);
    forall y ensures WithYear(s, y) == WithYear(p + q, y) {
      GroupsJoined(s, late, early, y);
    }
    SortCharacterized(Descending, s, p + q);
  }

  /** The same list sorts oldest first into its earlier-year group followed by its later-year group. */
  lemma TwoYearsOldest(s: seq<Publication>, early: int, late: int)
    requires early < late && TwoYears(s, early, late)
    ensures Sort(Ascending, s) == WithYear(s, early) + WithYear(s, late)
  {
    var p, q := WithYear(s, early), WithYear(s, late);
    WithYearYears(s, early);
    WithYearYears(s, late);
    RunsSorted(Ascending, p, q, early, late);
    forall y ensures WithYear(s, y) == WithYear(p + q, y) {
      GroupsJoined(s, early, late, y);
    }
    SortCharacterized(Ascending, s, p + q);
  }

  /** Year group of a three-record list. */
  lemma ThreeGroup(x0: Publication, x1: Publication, x2: Publication, y: int)
    ensures WithYear([x0, x1, x2], y) ==
      (if x0.year == y then [x0] else []) + (if x1.year == y then [x1] else []) + (if x2.year == y then [x2] else [])
  {
    assert [x0, x1, x2] == [x0] + [x1, x2];
    assert [x1, x2] == [x1] + [x2];
    assert [x2] == [x2] + [];
    WithYearCons(x0, [x1, x2], y);
    WithYearCons(x1, [x2], y);
    WithYearCons(x2, [], y);
  }

  /**
   Year groups of nine records laid out like the catalog: 2024, 2024, 2025,
   four of 2024, then two of 2025.
   */
  lemma LayoutGroups(x0: Publication, x1: Publication, x2: Publication, x3: Publication, x4: Publication,
                     x5: Publication, x6: Publication, x7: Publication, x8: Publication)
    requires x0.year == 2024 && x1.year == 2024 && x2.year == 2025
    requires x3.year == 2024 && x4.year == 2024 && x5.year == 2024 && x6.year == 2024
    requires x7.year == 2025 && x8.year == 2025
    ensures WithYear([x0, x1, x2, x3, x4, x5, x6, x7, x8], 2025) == [x2, x7, x8]
    ensures WithYear([x0, x1, x2, x3, x4, x5, x6, x7, x8], 2024) == [x0, x1, x3, x4, x5, x6]
  {
    var s := [x0, x1, x2, x3, x4, x5, x6, x7, x8];
    assert s == [x0, x1, x2] + [x3, x4, x5] + [x6, x7, x8];
    WithYearAppend([x0, x1, x2] + [x3, x4, x5], [x6, x7, x8], 2025);
    WithYearAppend([x0, x1, x2], [x3, x4, x5], 2025);
    WithYearAppend([x0, x1, x2] + [x3, x4, x5], [x6, x7, x8], 2024);
    WithYearAppend([x0, x1, x2], [x3, x4, x5], 2024);
    ThreeGroup(x0, x1, x2, 2025);
    ThreeGroup(x3, x4, x5, 2025);
    ThreeGroup(x6, x7, x8, 2025);
    ThreeGroup(x0, x1, x2, 2024);
    ThreeGroup(x3, x4, x5, 2024);
    ThreeGroup(x6, x7, x8, 2024);
  }

  /** The two year groups of the same nine records, joined in either order. */
  lemma LayoutOrders(x0: Publication, x1: Publication, x2: Publication, x3: Publication, x4: Publication,
                     x5: Publication, x6: Publication, x7: Publication, x8: Publication)
    requires x0.year == 2024 && x1.year == 2024 && x2.year == 2025
    requires x3.year == 2024 && x4.year == 2024 && x5.year == 2024 && x6.year == 2024
    requires x7.year == 2025 && x8.year == 2025
    ensures WithYear([x0, x1, x2, x3, x4, x5, x6, x7, x8], 2025) + WithYear([x0, x1, x2, x3, x4, x5, x6, x7, x8], 2024)
      == [x2, x7, x8, x0, x1, x3, x4, x5, x6]
    ensures WithYear([x0, x1, x2, x3, x4, x5, x6, x7, x8], 2024) + WithYear([x0, x1, x2, x3, x4, x5, x6, x7, x8], 2025)
      == [x0, x1, x3, x4, x5, x6, x2, x7, x8]
  {
    LayoutGroups(x0, x1, x2, x3, x4, x5, x6, x7, x8);
    assert [x2, x7, x8] + [x0, x1, x3, x4, x5, x6] == [x2, x7, x8, x0, x1, x3, x4, x5, x6];
    assert [x0, x1, x3, x4, x5, x6] + [x2, x7, x8] == [x0, x1, x3, x4, x5, x6, x2, x7, x8];
  }

  /** The catalog's year groups, in catalog order. */
  lemma CatalogGroups()
    ensures WithYear(Publications, 2025) == [Pub3, Pub8, Pub9]
    ensures WithYear(Publications, 2024) == [Pub1, Pub2, Pub4, Pub5, Pub6, Pub7]
    ensures WithYear(Publications, 2025) + WithYear(Publications, 2024) == [Pub3, Pub8, Pub9, Pub1, Pub2, Pub4, Pub5, Pub6, Pub7]
    ensures WithYear(Publications, 2024) + WithYear(Publications, 2025) == [Pub1, Pub2, Pub4, Pub5, Pub6, Pub7, Pub3, Pub8, Pub9]
  {
    LayoutGroups(Pub1, Pub2, Pub3, Pub4, Pub5, Pub6, Pub7, Pub8, Pub9);
    LayoutOrders(Pub1, Pub2, Pub3, Pub4, Pub5, Pub6, Pub7, Pub8, Pub9);
  }

  /** Under `all` / `newest`, a two-year list shows its later-year group, then its earlier-year group. */
  lemma TwoYearsAllNewest(pubs: seq<Publication>, early: int, late: int)
    requires early < late && TwoYears(pubs, early, late)
    ensures Pipeline(pubs, Selection(AllCategories, NewestFirst)) == WithYear(pubs, late) + WithYear(pubs, early)
  {
    FilterAll(pubs);
    TwoYearsNewest(pubs, early, late);
  }

  /** Under `all` and any other sort value, it shows its earlier-year group, then its later-year group. */
  lemma TwoYearsAllOldest(pubs: seq<Publication>, early: int, late: int, sortBy: string)
    requires early < late && TwoYears(pubs, early, late) && sortBy != NewestFirst
    ensures Pipeline(pubs, Selection(AllCategories, sortBy)) == WithYear(pubs, early) + WithYear(pubs, late)
  {
    FilterAll(pubs);
    TwoYearsOldest(pubs, early, late);
  }

  /** Under `all` / `newest`: pub3, pub8, pub9, then pub1, pub2, pub4, pub5, pub6, pub7. */
  lemma AllNewest()
    ensures Pipeline(Publications, Selection(AllCategories, NewestFirst))
      == [Pub3, Pub8, Pub9, Pub1, Pub2, Pub4, Pub5, Pub6, Pub7]
  {
    PublicationsYears();
    CatalogGroups();
    TwoYearsAllNewest(Publications, 2024, 2025);
  }

  /** Under `all` / `oldest`: pub1, pub2, pub4, pub5, pub6, pub7, then pub3, pub8, pub9. */
  lemma AllOldest()
    ensures Pipeline(Publications, Selection(AllCategories, "oldest"))
      == [Pub1, Pub2, Pub4, Pub5, Pub6, Pub7, Pub3, Pub8, Pub9]
  {
    PublicationsYears();
    CatalogGroups();
    TwoYearsAllOldest(Publications, 2024, 2025, "oldest");
  }

  /**
   At page load, whatever the theme, the list shows the 2025 records pub3,
   pub8, pub9 and then the 2024 records in catalog order.
   */
  lemma InitialList(theme: string)
    ensures Pipeline(Publications, Initial(theme).selection) == [Pub3, Pub8, Pub9, Pub1, Pub2, Pub4, Pub5, Pub6, Pub7]
  {
    AllNewest();
  }

  /** `medical-ai` shows only `pub3`, whatever the sort order. */
  lemma MedicalAi(sortBy: string)
    ensures Pipeline(Publications, Selection("medical-ai", sortBy)) == [Pub3]
  {
    PublicationsDistinctCategories();
    FilterOwnTag(Publications, 2);
    SortIdempotent(FinalDirection(sortBy), [Pub3]);
  }

  /** A tag no record carries shows nothing, so the placeholder is rendered. */
  lemma UnknownCategory(sortBy: string)
    ensures Filter(Publications, "nonexistent-category") == []
    ensures Pipeline(Publications, Selection("nonexistent-category", sortBy)) == []
  {
    FilterUnmatched(Publications, "nonexistent-category");
  }
}

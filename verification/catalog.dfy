/**
 The publication list of the page (`renderPublications` in src/main.js): filter
 the catalog by category, sort it by year (twice, as the source does), and turn
 the result into either the empty-state placeholder or one card per record.
 */
module Catalog {
  import opened Data
  import opened Sorting

  /** The filter value that keeps every record. */
  const AllCategories := "all"
  /** The sort value that puts the most recent year first; any other value sorts oldest first. */
  const NewestFirst := "newest"
  /** The one status that shows no badge. */
  const PublishedStatus := "Published"
  /** Reveal delay added per card, in milliseconds. */
  const StaggerMs := 100

  /** The part of the page state the list depends on. */
  datatype Selection = Selection(filter: string, sortBy: string)

  /** The decisions taken for one card; the markup around them is presentation only. */
  datatype Card = Card(pub: Publication, statusBadge: bool, readPaperLink: bool, delayMs: nat)

  /** What the list container shows. */
  datatype View = EmptyPlaceholder | Cards(cards: seq<Card>)

  /** `a` can be obtained from `b` by deleting elements. */
  predicate IsSubsequence<T(==)>(a: seq<T>, b: seq<T>)
    decreases |b|
  {
    |a| == 0 || (|b| > 0 && ((a[0] == b[0] && IsSubsequence(a[1..], b[1..])) || IsSubsequence(a, b[1..])))
  }

  /**
   The filter predicate of the source: under `all` every record passes; any
   other value passes exactly the records whose category equals it.
   */
  predicate Matches(filter: string, p: Publication)
    ensures filter == AllCategories ==> Matches(filter, p)
    ensures filter != AllCategories ==> (Matches(filter, p) <==> p.category == filter)
  {
    filter == AllCategories || p.category == filter
  }

  /**
   `Array.prototype.filter` with the category predicate: a subsequence of `pubs`
   holding every matching record as often as `pubs` does, and nothing else.
   */
  function Filter(pubs: seq<Publication>, filter: string): (r: seq<Publication>)
    ensures IsSubsequence(r, pubs)
    ensures forall p :: p in r ==> Matches(filter, p)
    ensures forall p :: multiset(r)[p] == (if Matches(filter, p) then multiset(pubs)[p] else 0)
  {
    if |pubs| == 0 then []
    else
      assert pubs == [pubs[0]] + pubs[1..];
      var rest := Filter(pubs[1..], filter);
      if Matches(filter, pubs[0]) then
        assert ([pubs[0]] + rest)[1..] == rest;
        [pubs[0]] + rest
      else
        rest
  }

  /**
   The direction of the sort that decides the order: the comparator
   `b.year - a.year` under `newest`, `a.year - b.year` otherwise. A record of
   year `x` strictly precedes one of year `y` exactly when the comparator is
   negative for them.
   */
  function FinalDirection(sortBy: string): (d: Direction)
    ensures d == Descending <==> sortBy == NewestFirst
    ensures forall x: int, y: int :: Precedes(d, x, y) <==> (if sortBy == NewestFirst then y - x else x - y) < 0
  {
    if sortBy == NewestFirst then Descending else Ascending
  }

  /**
   The direction of the preliminary sort that the final one overrides: the
   comparator `a.year - b.year` under `newest`, `b.year - a.year` otherwise.
   */
  function PreliminaryDirection(sortBy: string): (d: Direction)
    ensures d == Ascending <==> sortBy == NewestFirst
    ensures forall x: int, y: int :: Precedes(d, x, y) <==> (if sortBy == NewestFirst then x - y else y - x) < 0
  {
    if sortBy == NewestFirst then Ascending else Descending
  }

  /** The two directions are always opposite. */
  lemma PreliminaryIsOpposite(sortBy: string)
    ensures PreliminaryDirection(sortBy) != FinalDirection(sortBy)
  {
  }

  /**
   The records shown, in display order, computed as the source does: filter,
   sort in the preliminary direction, sort again in the final one. The
   preliminary sort is without effect: the result is one stable sort of the
   filtered records.
   */
  function Pipeline(pubs: seq<Publication>, sel: Selection): (r: seq<Publication>)
    ensures r == Sort(FinalDirection(sel.sortBy), Filter(pubs, sel.filter))
  {
    var filtered := Filter(pubs, sel.filter);
    var first := Sort(PreliminaryDirection(sel.sortBy), filtered);
    SortAfterSort(PreliminaryDirection(sel.sortBy), FinalDirection(sel.sortBy), filtered);
    Sort(FinalDirection(sel.sortBy), first)
  }

  /**
   The card decisions for the record at position `index` of the list: a status
   badge unless the record is published, a link when it has one, and a reveal
   delay of one step per earlier card.
   */
  function CardFor(pub: Publication, index: nat): (c: Card)
    ensures c.pub == pub
    ensures c.statusBadge <==> pub.status != PublishedStatus
    ensures c.readPaperLink <==> pub.doi != ""
    ensures c.delayMs == StaggerMs * index
  {
    Card(pub, pub.status != PublishedStatus, pub.doi != "", index * StaggerMs)
  }

  /** The filter leaves nothing exactly when no record matches. */
  lemma FilterEmptyIff(pubs: seq<Publication>, filter: string)
    ensures |Filter(pubs, filter)| == 0 <==> forall p :: p in pubs ==> !Matches(filter, p)
  {
    var r := Filter(pubs, filter);
    if |r| > 0 {
      assert r[0] in multiset(r);
    } else {
      forall p | p in pubs ensures !Matches(filter, p) {
        assert multiset(r)[p] == 0;
        assert p in multiset(pubs);
      }
    }
  }

  /** Filtering a sequence whose records all match returns it unchanged. */
  lemma {:induction false} FilterAllMatching(pubs: seq<Publication>, filter: string)
    requires forall p :: p in pubs ==> Matches(filter, p)
    ensures Filter(pubs, filter) == pubs
  {
    if |pubs| > 0 {
      assert pubs[0] in pubs;
      FilterAllMatching(pubs[1..], filter);
      assert pubs == [pubs[0]] + pubs[1..];
    }
  }

  /** With filter `all` the whole catalog passes, in its original order. */
  lemma FilterAll(pubs: seq<Publication>)
    ensures Filter(pubs, AllCategories) == pubs
  {
    FilterAllMatching(pubs, AllCategories);
  }

  /** A filter value that no record carries (and that is not `all`) yields nothing, not an error. */
  lemma FilterUnmatched(pubs: seq<Publication>, filter: string)
    requires filter != AllCategories
    requires forall p :: p in pubs ==> p.category != filter
    ensures Filter(pubs, filter) == []
  {
    FilterEmptyIff(pubs, filter);
  }

  /**
   When category tags are distinct, filtering by the tag of one record (a tag
   other than `all`) yields exactly that record.
   */
  lemma {:induction false} FilterOwnTag(pubs: seq<Publication>, i: nat)
    requires DistinctCategories(pubs)
    requires i < |pubs| && pubs[i].category != AllCategories
    ensures Filter(pubs, pubs[i].category) == [pubs[i]]
  {
    var tag := pubs[i].category;
    assert pubs == [pubs[0]] + pubs[1..];
    if i == 0 {
      forall p | p in pubs[1..] ensures !Matches(tag, p) {
        var k :| 0 <= k < |pubs[1..]| && pubs[1..][k] == p;
        assert pubs[k + 1] == p;
      }
      FilterEmptyIff(pubs[1..], tag);
    } else {
      assert pubs[0].category != tag;
      assert pubs[1..][i - 1] == pubs[i];
      FilterOwnTag(pubs[1..], i - 1);
    }
  }

  /**
   Display order follows the selection: years never increase under `newest`
   and never decrease under any other value.
   */
  lemma PipelineOrdered(pubs: seq<Publication>, sel: Selection)
    ensures var r := Pipeline(pubs, sel);
      forall i, j :: 0 <= i < j < |r| ==>
        if sel.sortBy == NewestFirst then r[i].year >= r[j].year else r[i].year <= r[j].year
  {
  }

  /**
   Sorting only rearranges: the shown records are those the filter passes, and
   switching the sort order never changes which records are shown.
   */
  lemma PipelinePermutation(pubs: seq<Publication>, filter: string, sortBy: string, sortBy': string)
    ensures multiset(Pipeline(pubs, Selection(filter, sortBy))) == multiset(Filter(pubs, filter))
    ensures multiset(Pipeline(pubs, Selection(filter, sortBy))) == multiset(Pipeline(pubs, Selection(filter, sortBy')))
  {
  }

  /** Records of equal year are shown in the order they have in the catalog. */
  lemma PipelineStable(pubs: seq<Publication>, sel: Selection)
    ensures forall y :: WithYear(Pipeline(pubs, sel), y) == WithYear(Filter(pubs, sel.filter), y)
  {
  }

  /**
   The list is a function of the catalog and the selection alone, and running
   the step again on what it shows changes nothing.
   */
  lemma PipelineIdempotent(pubs: seq<Publication>, sel: Selection)
    ensures Pipeline(Pipeline(pubs, sel), sel) == Pipeline(pubs, sel)
  {
    var r := Pipeline(pubs, sel);
    forall p | p in r ensures Matches(sel.filter, p) {
      assert p in multiset(r);
    }
    FilterAllMatching(r, sel.filter);
    SortIdempotent(FinalDirection(sel.sortBy), r);
  }

  /**
   The `forEach` over the ordered records: one card per record, in order, with
   its status badge, its link and a delay that grows by one step per position.
   */
  method BuildCards(ordered: seq<Publication>) returns (cards: seq<Card>)
    ensures |cards| == |ordered|
    ensures forall i :: 0 <= i < |cards| ==>
      && cards[i].pub == ordered[i]
      && (cards[i].statusBadge <==> ordered[i].status != PublishedStatus)
      && (cards[i].readPaperLink <==> ordered[i].doi != "")
      && cards[i].delayMs == StaggerMs * i
  {
    cards := [];
    var i := 0;
    while i < |ordered|
      invariant 0 <= i <= |ordered|
      invariant |cards| == i
      invariant forall k :: 0 <= k < i ==> cards[k] == CardFor(ordered[k], k)
    {
      cards := cards + [CardFor(ordered[i], i)];
      i := i + 1;
    }
  }

  /**
   `renderPublications`: the placeholder when no record matches the filter,
   otherwise one card per record of the single stable sort of the matching
   records, each with its status badge, link and stagger delay.
   */
  method RenderPublications(pubs: seq<Publication>, sel: Selection) returns (view: View)
    ensures view.EmptyPlaceholder? <==> forall p :: p in pubs ==> !Matches(sel.filter, p)
    ensures view.Cards? ==> |view.cards| == |Filter(pubs, sel.filter)| > 0
    ensures view.Cards? ==> forall i :: 0 <= i < |view.cards| ==>
      && view.cards[i].pub == Sort(FinalDirection(sel.sortBy), Filter(pubs, sel.filter))[i]
      && (view.cards[i].statusBadge <==> view.cards[i].pub.status != PublishedStatus)
      && (view.cards[i].readPaperLink <==> view.cards[i].pub.doi != "")
      && view.cards[i].delayMs == StaggerMs * i
  {
    var ordered := Pipeline(pubs, sel);
    FilterEmptyIff(pubs, sel.filter);
    if |ordered| == 0 {
      return EmptyPlaceholder;
    }
    var cards := BuildCards(ordered);
    view := Cards(cards);
  }
}

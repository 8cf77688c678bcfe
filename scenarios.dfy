/**
 * Walk-throughs of the gallery on an eight-card catalogue, checked against the
 * controller's contracts alone.
 */
module Scenarios {
  import opened Wrappers
  import opened Pager
  import opened Gallery

  /** Filter "all" on eight cards shows six and offers two more; the hint reads as two
      projects left; one load-more click shows the rest and reaches the end. */
  method ShowAllThenLoadMore(attrs: seq<Option<string>>, filters: seq<string>)
    requires |attrs| == 8
  {
    var g := new Gallery(attrs, filters, true, true, true);
    assert g.visibleCount == 6 && g.loadMoreShown && g.emptyHidden;
    HintReportsRemaining(8, 6);
    assert ParseHint(g.hint) == Some(2);
    g.LoadMore();
    assert g.visibleCount == 8 && !g.loadMoreShown;
    assert g.hint == END_TEXT;
  }

  /** A filter matching three of the eight cards shows all three, hides the load-more
      button and keeps the empty state hidden. */
  method FilterThreeOfEight(attrs: seq<Option<string>>, filters: seq<string>, k: nat)
    requires |attrs| == 8 && k < |filters|
    requires |Matching(attrs, filters[k])| == 3
  {
    var g := new Gallery(attrs, filters, true, true, true);
    g.ClickFilter(k);
    assert g.visibleCount == 3 && !g.loadMoreShown && g.emptyHidden;
    assert g.hint == END_TEXT;
  }

  /** A filter matching no card shows the empty state, hides the load-more button and
      clears the hint. */
  method FilterWithoutMatches(attrs: seq<Option<string>>, filters: seq<string>, k: nat)
    requires |attrs| == 8 && k < |filters|
    requires Matching(attrs, filters[k]) == []
  {
    var g := new Gallery(attrs, filters, true, true, true);
    g.ClickFilter(k);
    assert g.visibleCount == 0 && !g.loadMoreShown && !g.emptyHidden;
    assert g.hint == "";
  }
}

/**
 * The project gallery's filter and pager controller (project/project.js): the
 * module-level `activeFilter` and `visibleCount`, the per-card `is-hidden` class,
 * the filter buttons' `is-active` class, the "load more" button and hint, and the
 * empty-state element.
 */
module Gallery {
  import opened Wrappers
  import opened Pager

  class Gallery {
    /** Each card's `data-tags` attribute, in catalogue order (`None` when absent). */
    const attrs: seq<Option<string>>
    /** Each filter button's `data-filter` value, in document order. */
    const filters: seq<string>
    /** Which optional elements the page has. */
    const hasLoadMoreBtn: bool
    const hasLoadHint: bool
    const hasEmptyState: bool

    /** `is-hidden` per card. */
    const hidden: array<bool>
    /** `is-active` per filter button. */
    const active: array<bool>

    var activeFilter: string
    var visibleCount: nat
    /** The load-more button's display: `inline-flex` (true) or `none` (false). */
    var loadMoreShown: bool
    /** The hint element's text. */
    var hint: string
    /** The empty-state element's `hidden` property. */
    var emptyHidden: bool

    ghost predicate Valid()
      reads this
    {
      hidden.Length == |attrs| && active.Length == |filters| && hidden != active
    }

    /** `cards.filter(matchesFilter)` under the current filter. */
    function Matched(): seq<nat>
      reads this
    {
      Matching(attrs, activeFilter)
    }

    /** The pager invariant: the revealed cards are exactly the first `visibleCount`
        matching cards, and `visibleCount` never exceeds the number of matches. */
    ghost predicate Paged()
      reads this, hidden
    {
      Valid()
      && visibleCount <= |Matched()|
      && hidden[..] == HiddenAfter(|attrs|, Matched()[..visibleCount])
    }

    /** The affordances `updateEmpty` and `updateLoadMore` derive from the pager state;
        an element the page lacks keeps its previous value. */
    twostate predicate Derived()
      reads this
    {
      var total := |Matched()|;
      (if hasEmptyState then emptyHidden == (total != 0) else emptyHidden == old(emptyHidden))
      && (if hasLoadMoreBtn && hasLoadHint
          then loadMoreShown == (visibleCount < total) && hint == HintText(total, visibleCount)
          else loadMoreShown == old(loadMoreShown) && hint == old(hint))
    }

    /** Page initialisation: `hideAll(); applyFilter("all")`. */
    constructor (attrs: seq<Option<string>>, filters: seq<string>,
                 hasLoadMoreBtn: bool, hasLoadHint: bool, hasEmptyState: bool)
      ensures Paged()
      ensures this.attrs == attrs && this.filters == filters
      ensures this.hasLoadMoreBtn == hasLoadMoreBtn && this.hasLoadHint == hasLoadHint
      ensures this.hasEmptyState == hasEmptyState
      ensures fresh(hidden) && fresh(active)
      ensures activeFilter == ALL && Matched() == Range(|attrs|)
      ensures visibleCount == if |attrs| < PAGE_SIZE then |attrs| else PAGE_SIZE
      ensures active[..] == ButtonStates(filters, ALL)
      ensures hasEmptyState ==> emptyHidden == (|attrs| != 0)
      ensures hasLoadMoreBtn && hasLoadHint ==>
        loadMoreShown == (visibleCount < |attrs|) && hint == HintText(|attrs|, visibleCount)
    {
      this.attrs := attrs;
      this.filters := filters;
      this.hasLoadMoreBtn := hasLoadMoreBtn;
      this.hasLoadHint := hasLoadHint;
      this.hasEmptyState := hasEmptyState;
      hidden := new bool[|attrs|];
      active := new bool[|filters|];
      activeFilter := ALL;
      visibleCount := 0;
      loadMoreShown := false;
      hint := "";
      emptyHidden := true;
      new;
      HideAll();
      ApplyFilter(ALL);
      MatchingAll(attrs);
    }

    /** `hideAll`: every card gets `is-hidden`. */
    method HideAll()
      requires Valid()
      modifies hidden
      ensures forall i :: 0 <= i < hidden.Length ==> hidden[i]
    {
      for i := 0 to hidden.Length
        invariant forall j :: 0 <= j < i ==> hidden[j]
      {
        hidden[i] := true;
      }
    }

    /** `updateEmpty(count)`. */
    method UpdateEmpty(count: nat)
      modifies this`emptyHidden
      ensures emptyHidden == if hasEmptyState then count != 0 else old(emptyHidden)
    {
      if hasEmptyState {
        emptyHidden := count != 0;
      }
    }

    /** `updateLoadMore(matching)`. */
    method UpdateLoadMore(matching: seq<nat>)
      modifies this`loadMoreShown, this`hint
      ensures if hasLoadMoreBtn && hasLoadHint
        then loadMoreShown == (visibleCount < |matching|) && hint == HintText(|matching|, visibleCount)
        else loadMoreShown == old(loadMoreShown) && hint == old(hint)
    {
      if hasLoadMoreBtn && hasLoadHint {
        var remaining := |matching| - visibleCount;
        if remaining > 0 {
          loadMoreShown := true;
        } else {
          loadMoreShown := false;
        }
        hint := HintText(|matching|, visibleCount);
      }
    }

    /** `showNext(matching)`: reveal the next slice of at most a page of matching cards,
        advance `visibleCount` by its length, then refresh the empty state and the hint. */
    method ShowNext(matching: seq<nat>)
      requires Valid() && Below(matching, hidden.Length)
      modifies hidden, this`visibleCount, this`emptyHidden, this`loadMoreShown, this`hint
      ensures visibleCount == old(visibleCount) + |NextSlice(matching, old(visibleCount))|
      ensures hidden[..] == Revealed(old(hidden[..]), NextSlice(matching, old(visibleCount)))
      ensures emptyHidden == if hasEmptyState then |matching| != 0 else old(emptyHidden)
      ensures if hasLoadMoreBtn && hasLoadHint
        then loadMoreShown == (visibleCount < |matching|) && hint == HintText(|matching|, visibleCount)
        else loadMoreShown == old(loadMoreShown) && hint == old(hint)
    {
      var next := Slice(matching, visibleCount, visibleCount + PAGE_SIZE);
      for j := 0 to |next|
        modifies hidden
        invariant forall i :: 0 <= i < hidden.Length ==> hidden[i] == (old(hidden[i]) && i !in next[..j])
      {
        assert next[..j + 1] == next[..j] + [next[j]];
        hidden[next[j]] := false;
      }
      assert next[..|next|] == next;
      visibleCount := visibleCount + |next|;
      UpdateEmpty(|matching|);
      UpdateLoadMore(matching);
    }

    /** The `filterButtons.forEach` step of `applyFilter`: each button's `is-active`
        class is set exactly when its `data-filter` equals `filter`. */
    method MarkButtons(filter: string)
      requires Valid()
      modifies active
      ensures active[..] == ButtonStates(filters, filter)
    {
      for i := 0 to active.Length
        invariant forall j :: 0 <= j < i ==> active[j] == (filters[j] == filter)
      {
        active[i] := filters[i] == filter;
      }
    }

    /** `applyFilter(filter)`: make `filter` active, mark the buttons, hide every card
        and reveal the first page of the matching cards. */
    method ApplyFilter(filter: string)
      requires Valid()
      modifies this`activeFilter, this`visibleCount, this`emptyHidden, this`loadMoreShown, this`hint
      modifies hidden, active
      ensures Valid() && Paged() && Derived()
      ensures activeFilter == filter
      ensures visibleCount == if |Matched()| < PAGE_SIZE then |Matched()| else PAGE_SIZE
      ensures active[..] == ButtonStates(filters, filter)
    {
      activeFilter := filter;
      visibleCount := 0;
      MarkButtons(filter);
      HideAll();
      var matching := Matching(attrs, activeFilter);
      assert hidden[..] == HiddenAfter(|attrs|, matching[..0]);
      ShowNext(matching);
      RevealNext(|attrs|, matching, 0);
    }

    /** A click on filter button `k`: `applyFilter(btn.dataset.filter)`. */
    method ClickFilter(k: nat)
      requires Valid() && k < |filters|
      modifies this`activeFilter, this`visibleCount, this`emptyHidden, this`loadMoreShown, this`hint
      modifies hidden, active
      ensures Valid() && Paged() && Derived()
      ensures activeFilter == filters[k] && active[k]
      ensures visibleCount == if |Matched()| < PAGE_SIZE then |Matched()| else PAGE_SIZE
      ensures active[..] == ButtonStates(filters, filters[k])
    {
      ApplyFilter(filters[k]);
    }

    /** A click on the load-more button (its handler exists only when the button does):
        `showNext(cards.filter(matchesFilter))`. */
    method LoadMore()
      requires Paged()
      modifies hidden, this`visibleCount, this`emptyHidden, this`loadMoreShown, this`hint
      ensures Paged()
      ensures hasLoadMoreBtn ==> Derived()
      ensures !hasLoadMoreBtn ==> unchanged(this) && unchanged(hidden)
      ensures var left := |Matched()| - old(visibleCount);
        visibleCount == if hasLoadMoreBtn then old(visibleCount) + (if left < PAGE_SIZE then left else PAGE_SIZE)
                        else old(visibleCount)
      ensures old(visibleCount) == |Matched()| ==> visibleCount == old(visibleCount) && hidden[..] == old(hidden[..])
    {
      if hasLoadMoreBtn {
        var matching := Matching(attrs, activeFilter);
        ghost var count := visibleCount;
        ShowNext(matching);
        RevealNext(|attrs|, matching, count);
      }
    }

    /** The un-hidden cards, in catalogue order, are the first `visibleCount` matching cards. */
    lemma VisibleIsPrefix()
      requires Paged()
      ensures Shown(hidden[..]) == Matched()[..visibleCount]
    {
      ShownHiddenAfter(|attrs|, Matched()[..visibleCount]);
    }

  }
}

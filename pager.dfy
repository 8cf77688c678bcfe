/**
 * Pure specification of the gallery's filter and pager (project/project.js):
 * which cards match the active filter, which cards a page reveals, the text of
 * the "load more" hint, and the filter buttons' active marks.
 */
module Pager {
  import opened Wrappers
  import opened Tags
  import opened Decimal

  /** Cards revealed per "load more" page. */
  const PAGE_SIZE: nat := 6
  /** The filter value that matches every card. */
  const ALL: string := "all"
  /** Hint shown once every matching card is revealed (note the typographic apostrophe). */
  const END_TEXT: string := "You\U{2019}ve reached the end."

  /**
   * `matchesFilter(card)` with `filter` the active filter and `attr` the card's
   * `data-tags`: "all" matches every card, any other filter a card whose tag list
   * contains it; a card without the attribute has no tags and matches only "all".
   */
  function Matches(filter: string, attr: Option<string>): (r: bool)
    ensures filter == ALL ==> r
    ensures attr == None ==> (r <==> filter == ALL)
  {
    var tags := GetTags(attr);
    filter == ALL || filter in tags
  }

  /** The filter is compared exactly and is not lower-cased: a filter other than "all"
      matches a card only when it is non-empty, whitespace-free and lower-case. */
  lemma FilterMatchesOnlyAsTag(filter: string, attr: Option<string>)
    requires filter != ALL && Matches(filter, attr)
    ensures filter != [] && NoSpace(filter) && NoUpper(filter)
  {
    var tags := GetTags(attr);
    var j :| 0 <= j < |tags| && tags[j] == filter;
  }

  predicate Increasing(m: seq<nat>)
  {
    forall a, b :: 0 <= a < b < |m| ==> m[a] < m[b]
  }

  predicate Below(m: seq<nat>, n: nat)
  {
    forall k :: 0 <= k < |m| ==> m[k] < n
  }

  /**
   * `cards.filter(matchesFilter)`, with a card named by its position in the catalogue:
   * the positions of the matching cards, in catalogue order.
   */
  function Matching(attrs: seq<Option<string>>, filter: string): (m: seq<nat>)
    ensures Increasing(m) && Below(m, |attrs|)
  {
    if attrs == [] then []
    else
      var n := |attrs| - 1;
      Matching(attrs[..n], filter) + (if Matches(filter, attrs[n]) then [n] else [])
  }

  /** A card is among the matching ones exactly when it matches the filter. */
  lemma {:induction false} MatchingMembers(attrs: seq<Option<string>>, filter: string)
    ensures forall i :: 0 <= i < |attrs| ==> (i in Matching(attrs, filter) <==> Matches(filter, attrs[i]))
  {
    if attrs != [] {
      var n := |attrs| - 1;
      var init := attrs[..n];
      MatchingMembers(init, filter);
      var m := Matching(init, filter);
      var b := Matches(filter, attrs[n]);
      forall i | 0 <= i < |attrs|
        ensures i in Matching(attrs, filter) <==> Matches(filter, attrs[i])
      {
        SnocMember(m, n, b, i);
        if i < n {
          assert init[i] == attrs[i];
        }
      }
    }
  }

  lemma SnocMember(m: seq<nat>, n: nat, b: bool, i: nat)
    requires Below(m, n)
    ensures i in m + (if b then [n] else []) <==> i in m || (b && i == n)
    ensures i == n ==> i !in m
  {
  }

  /** The catalogue positions 0, 1, ..., n - 1. */
  function Range(n: nat): (r: seq<nat>)
    ensures |r| == n
    ensures forall i :: 0 <= i < n ==> r[i] == i
  {
    seq(n, i requires 0 <= i < n => i)
  }

  /** The filter "all" selects the whole catalogue, in order. */
  lemma {:induction false} MatchingAll(attrs: seq<Option<string>>)
    ensures Matching(attrs, ALL) == Range(|attrs|)
  {
    if attrs != [] {
      var n := |attrs| - 1;
      MatchingAll(attrs[..n]);
      assert Range(n) + [n] == Range(n + 1);
    }
  }

  /** Tags are lower-cased but the filter is not: a filter with an upper-case letter
      (other than "all") matches no card. */
  lemma {:induction false} UpperCaseFilterMatchesNothing(attrs: seq<Option<string>>, filter: string)
    requires filter != ALL && !NoUpper(filter)
    ensures Matching(attrs, filter) == []
  {
    if attrs != [] {
      var n := |attrs| - 1;
      UpperCaseFilterMatchesNothing(attrs[..n], filter);
      var tags := GetTags(attrs[n]);
      assert forall j :: 0 <= j < |tags| ==> tags[j] != filter;
    }
  }

  /** The per-card `is-hidden` flags when exactly the cards in `visible` are revealed. */
  function HiddenAfter(n: nat, visible: seq<nat>): (h: seq<bool>)
    ensures |h| == n
  {
    seq(n, i requires 0 <= i < n => i !in visible)
  }

  /** The positions of the cards that are not hidden, in catalogue order. */
  function Shown(h: seq<bool>): seq<nat>
  {
    if h == [] then []
    else
      var n := |h| - 1;
      Shown(h[..n]) + (if h[n] then [] else [n])
  }

  lemma {:induction false} BelowZero(p: seq<nat>)
    ensures Below(p, 0) ==> p == []
  {
    if p != [] {
      assert p[0] >= 0;
    }
  }

  /** Dropping the last card from view: the flags of the first `m` cards do not depend on
      whether card `m` is revealed. */
  lemma {:induction false} HiddenAfterPrefix(m: nat, p: seq<nat>, q: seq<nat>)
    requires forall i :: 0 <= i < m ==> (i in p <==> i in q)
    ensures HiddenAfter(m + 1, p)[..m] == HiddenAfter(m, q)
  {
  }

  lemma {:induction false} LastIsTop(p: seq<nat>, m: nat)
    requires Increasing(p) && Below(p, m + 1)
    requires p == [] || p[|p| - 1] != m
    ensures Below(p, m)
  {
    forall k | 0 <= k < |p| ensures p[k] != m {
      if k < |p| - 1 {
        assert p[k] < p[|p| - 1];
      }
    }
  }

  /** The revealed positions below the last card `m`, and whether `m` itself is revealed. */
  lemma {:induction false} SplitLast(p: seq<nat>, m: nat) returns (q: seq<nat>, last: bool)
    requires Increasing(p) && Below(p, m + 1)
    ensures Increasing(q) && Below(q, m)
    ensures p == q + (if last then [m] else [])
    ensures HiddenAfter(m + 1, p)[..m] == HiddenAfter(m, q)
    ensures HiddenAfter(m + 1, p)[m] == !last
  {
    last := p != [] && p[|p| - 1] == m;
    if last {
      q := p[..|p| - 1];
      assert p == q + [m];
      assert Below(q, m);
      HiddenAfterPrefix(m, p, q);
    } else {
      q := p;
      LastIsTop(p, m);
      HiddenAfterPrefix(m, p, p);
      assert p == q + [];
    }
  }

  /**
   * Reading the revealed cards back off the `is-hidden` flags gives exactly the
   * positions that were revealed, in order.
   */
  lemma {:induction false} ShownHiddenAfter(n: nat, p: seq<nat>)
    requires Increasing(p) && Below(p, n)
    ensures Shown(HiddenAfter(n, p)) == p
    decreases n
  {
    BelowZero(p);
    if n > 0 {
      var h := HiddenAfter(n, p);
      var q, last := SplitLast(p, n - 1);
      ShownHiddenAfter(n - 1, q);
      assert Shown(h) == Shown(h[..n - 1]) + (if h[n - 1] then [] else [n - 1]);
    }
  }

  /** `matching.slice(from, to)` for non-negative positions: clamped to the length,
      and empty when `to` does not exceed `from`. */
  function Slice(m: seq<nat>, from: nat, to: nat): (r: seq<nat>)
    ensures |r| == if to <= from || |m| <= from then 0 else (if to < |m| then to else |m|) - from
    ensures forall k :: 0 <= k < |r| ==> r[k] == m[from + k]
  {
    var lo := if from < |m| then from else |m|;
    var hi := if to < |m| then to else |m|;
    if hi <= lo then [] else m[lo..hi]
  }

  /**
   * The cards `showNext` reveals when `count` are revealed already: the matching cards
   * right after the first `count`, at most a page of them, and none once every
   * matching card is revealed.
   */
  function NextSlice(m: seq<nat>, count: nat): (next: seq<nat>)
    ensures |next| == if |m| <= count then 0 else if |m| - count < PAGE_SIZE then |m| - count else PAGE_SIZE
    ensures count <= |m| ==> m[..count] + next == m[..count + |next|]
    ensures next == [] <==> |m| <= count
  {
    var next := Slice(m, count, count + PAGE_SIZE);
    assert count <= |m| ==> m[..count] + next == m[..count + |next|];
    next
  }

  /** The `is-hidden` flags after removing the class from the cards in `next`. */
  function Revealed(h: seq<bool>, next: seq<nat>): (r: seq<bool>)
    ensures |r| == |h|
    ensures forall i :: 0 <= i < |h| ==> (r[i] <==> h[i] && i !in next)
  {
    seq(|h|, i requires 0 <= i < |h| => h[i] && i !in next)
  }

  /** Revealing the next slice on top of the flags for the first `count` matching cards
      gives the flags for the longer prefix. */
  lemma {:induction false} RevealNext(n: nat, m: seq<nat>, count: nat)
    requires count <= |m|
    ensures Revealed(HiddenAfter(n, m[..count]), NextSlice(m, count)) == HiddenAfter(n, m[..count + |NextSlice(m, count)|])
  {
    var next := NextSlice(m, count);
    assert m[..count + |next|] == m[..count] + next;
  }

  /** The words after the count: "project" for one, "projects" otherwise. */
  function MoreAvailable(remaining: int): string
  {
    " more project" + (if remaining == 1 then "" else "s") + " available"
  }

  /**
   * `updateLoadMore`'s hint for `total` matching cards of which `shown` are revealed.
   * It is the end message exactly when some card matches and none remains, and empty
   * exactly when no card matches; while cards remain it is neither.
   */
  function HintText(total: nat, shown: nat): (h: string)
    ensures h == END_TEXT <==> 0 < total <= shown
    ensures h == "" <==> total == 0
  {
    var remaining := total - shown;
    if remaining > 0 then
      var d := NatToString(remaining);
      assert (d + MoreAvailable(remaining))[0] == d[0];
      assert END_TEXT[0] == 'Y';
      d + MoreAvailable(remaining)
    else if total != 0 then END_TEXT
    else ""
  }

  /** What a reader takes from a hint: the number of projects it says are left, when it
      is followed by the right singular or plural wording. */
  function ParseHint(h: string): Option<nat>
  {
    var k := DigitPrefix(h);
    if k == 0 then None
    else
      assert AllDigits(h[..k]) by {
        assert forall i :: 0 <= i < k ==> h[..k][i] == h[i];
      }
      var n := ParseDigits(h[..k]);
      if h[k..] == MoreAvailable(n) then Some(n) else None
  }

  lemma {:induction false} ParseHintOf(d: string, tail: string)
    requires |d| >= 1 && AllDigits(d)
    requires tail != [] && !IsDigit(tail[0])
    ensures ParseHint(d + tail) == if tail == MoreAvailable(ParseDigits(d)) then Some(ParseDigits(d)) else None
  {
    DigitPrefixOfDigitsThen(d, tail);
    assert (d + tail)[..|d|] == d;
    assert (d + tail)[|d|..] == tail;
  }

  /** The hint states the exact remaining count, with the right noun form, exactly when
      cards remain. */
  lemma {:induction false} HintReportsRemaining(total: nat, shown: nat)
    ensures ParseHint(HintText(total, shown)) == if shown < total then Some(total - shown) else None
  {
    if shown < total {
      var r := total - shown;
      var d, tail := NatToString(r), MoreAvailable(r);
      ParseNatToString(r);
      assert tail[0] == ' ';
      ParseHintOf(d, tail);
    } else if total != 0 {
      assert END_TEXT[0] == 'Y';
    }
  }

  /** `btn.classList.toggle("is-active", btn.dataset.filter === filter)` over all buttons. */
  function ButtonStates(filters: seq<string>, filter: string): (a: seq<bool>)
    ensures |a| == |filters|
    ensures forall i :: 0 <= i < |filters| ==> (a[i] <==> filters[i] == filter)
  {
    seq(|filters|, i requires 0 <= i < |filters| => filters[i] == filter)
  }

  /** With distinct button values, clicking button `k` leaves exactly that button active. */
  lemma ExactlyOneActive(filters: seq<string>, k: nat)
    requires k < |filters|
    requires forall i, j :: 0 <= i < j < |filters| ==> filters[i] != filters[j]
    ensures forall j :: 0 <= j < |filters| ==> (ButtonStates(filters, filters[k])[j] <==> j == k)
  {
  }
}

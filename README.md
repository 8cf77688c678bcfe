# Project gallery: filter, pager and lightbox

This project models the interactive core of a portfolio site's project gallery,
`project/project.js`, and proves properties of the model in Dafny.

The gallery is a fixed, ordered catalogue of project cards, each carrying a
`data-tags` attribute, and a row of filter buttons, each carrying a `data-filter`
value. The controller keeps two module-level variables, the active filter and the
number of matching cards revealed so far. Choosing a filter hides every card and
reveals the first page (six cards) of those that match. "All" matches every card;
any other filter matches a card whose tag list contains it. Each "load more" click
reveals the next page. After every change the load-more button, its hint text and
the empty-state element are brought up to date. Clicking a project image opens a
lightbox showing it; the backdrop, the close button or the Escape key closes it.

Modules:

- `Wrappers` (`wrappers.dfy`): `Option`, for an attribute that may be missing.
- `Tags` (`tags.dfy`): `getTags`, that is ASCII lower-casing, `split(/\s+/)` with
  ECMAScript's whitespace class, and `filter(Boolean)`. Also the lemmas that the tags
  are well formed and keep attribute order, that any non-empty run of whitespace
  separates tags, and that tags round-trip with space-joined words.
- `Decimal` (`decimal.dfy`): how `${n}` renders a count, with a parser proved to
  invert it.
- `Pager` (`pager.dfy`): the pure specification. It covers the matching cards, the
  `is-hidden` flags a revealed prefix implies, `Array.prototype.slice`, the hint
  text with a parser that reads the remaining count back, and the button marks.
- `Gallery` (`gallery.dfy`): class `Gallery`. It keeps the filter and counter as
  fields, `is-hidden` and `is-active` as arrays updated in place by loops, and the
  load-more, hint and empty-state fields. Its invariant `Paged` says the un-hidden
  cards are exactly the first `visibleCount` matching cards and that
  `visibleCount <= |matching|`.
- `Viewer` (`viewer.dfy`): class `Lightbox`, with pure transition functions on a
  `Snapshot` of the lightbox fields, and lemmas about overwrite, idempotence and the
  Escape guard.
- `Scenarios` (`scenarios.dfy`): client methods that follow an eight-card catalogue
  through initialisation, a load-more click, a filter matching three cards and a
  filter matching none. They use only the controller's contracts.

Behaviour of the code a reader might not expect, which the model follows:

- The end-of-list hint is `You’ve reached the end.`, with a typographic apostrophe (U+2019).
- A card's tags form a list, not a set. Duplicates are kept.
- Applying a filter marks every button whose `data-filter` equals it, not "exactly
  one". That can mean zero buttons or several. `Pager.ExactlyOneActive` proves
  "exactly one" on the condition that the button values are distinct.
- Opening the lightbox does not pass the alt text through unchanged. An empty alt
  becomes `Zoomed project image`.
- Closing removes the image's `src` but leaves its `alt`.
- The filter is not lower-cased. So a filter other than `all` that contains an
  upper-case letter matches no card, as `Pager.UpperCaseFilterMatchesNothing` shows.

## Model

| member | source | states |
|---|---|---|
| `Tags.LowerChar` | project/project.js:38 | each capital A-Z becomes the small letter at the same place in the alphabet, looked up in a table of the small letters; every other character is unchanged |
| `Tags.Lower` | project/project.js:38 | lower-casing keeps the length and which characters are whitespace, turns each capital A-Z into its small letter, leaves every other character as it is, and so leaves no upper-case letter |
| `Tags.LowerAppend` | project/project.js:38 | lower-casing works character by character: the lower-cased concatenation is the concatenation of the lower-cased parts |
| `Tags.SplitWs` | project/project.js:39 | `split(/\s+/)` yields at least one field, and no field contains whitespace |
| `Tags.SplitWsOfWord` | project/project.js:39 | text without whitespace splits into one field, itself |
| `Tags.SplitWsGap` | project/project.js:39 | the split cuts at every maximal run of whitespace: a field, a non-empty whitespace run and the following text give that field and then the split of the text; a leading run gives an empty first field and a trailing run an empty last field |
| `Tags.NonEmpty` | project/project.js:40 | `filter(Boolean)` keeps only non-empty strings, each taken from the input, never more than the input has, and a list without empty strings is kept whole |
| `Tags.NonEmptyAppend` | project/project.js:40 | `filter(Boolean)` works element by element: on a concatenation it is the kept strings of the first part followed by those of the second, so the result is the in-order subsequence of non-empty strings |
| `Tags.GetTags` | project/project.js:36-40 | every tag is non-empty, contains no whitespace and has no upper-case letter |
| `Tags.SplitWsConcat` | project/project.js:39 | the fields of the split, concatenated in order, are the input with its whitespace removed |
| `Tags.TagsInAttributeOrder` | project/project.js:36-40 | the tags, concatenated in order, are the lower-cased attribute (or "" when missing) with its whitespace removed: they keep attribute order and lose nothing else |
| `Tags.BlankAttributeHasNoTags` | project/project.js:37-40 | a missing attribute or one made only of whitespace yields no tags |
| `Tags.TagsOfGap` | project/project.js:36-40 | any non-empty run of whitespace (spaces, tabs, newlines, several in a row) separates tags: the tags of `a`, whitespace, `b` are the tags of `a` followed by those of `b`, so leading and trailing whitespace adds no tag |
| `Tags.TagsOfWord` | project/project.js:36-40 | an attribute that is one whitespace-free word has exactly that word, lower-cased, as its tag |
| `Tags.TagsOfMixedCaseAttribute` | project/project.js:36-40 | the attribute `Web`, a tab and two spaces, `UI` gives exactly the tags `web` and `ui` |
| `Tags.SplitJoin` | project/project.js:39 | splitting non-empty whitespace-free words joined by single spaces gives back exactly those words |
| `Tags.TagsOfJoinedWords` | project/project.js:36-40 | an attribute of lower-case words separated by single spaces parses to exactly those words, in order; the empty attribute to none |
| `Decimal.NatToString` | project/project.js:60 | the rendering of the remaining count is a non-empty run of digits, with a leading zero only for zero |
| `Decimal.ParseNatToString` | project/project.js:60 | reading the rendered count back as decimal gives the count |
| `Pager.Matches` | project/project.js:42-45 | the filter "all" matches every card, and a card without `data-tags` matches no other filter |
| `Pager.FilterMatchesOnlyAsTag` | project/project.js:36-44 | a filter other than "all" that matches a card is non-empty, whitespace-free and lower-case, because it must equal one of the card's tags |
| `Pager.Matching` | project/project.js:84 | the matching cards are catalogue positions in strictly increasing order, all within the catalogue: an order-preserving selection |
| `Pager.MatchingMembers` | project/project.js:42-45 | a card is among the matching ones if and only if the filter is "all" or occurs exactly in the card's tag list |
| `Pager.MatchingAll` | project/project.js:43 | the filter "all" selects every card, in catalogue order |
| `Pager.UpperCaseFilterMatchesNothing` | project/project.js:38-44 | since tags are lower-cased and the filter is not, a filter other than "all" with an upper-case letter selects no card |
| `Pager.ShownHiddenAfter` | project/project.js:47-69 | revealing exactly an increasing list of positions and reading the un-hidden cards back gives that list |
| `Pager.Slice` | project/project.js:68 | `slice(from, to)` has length clamped to the list and to `to - from`, and is the elements from `from` on |
| `Pager.NextSlice` | project/project.js:68 | the next slice has length `min(6, remaining)`, is empty exactly when every matching card is revealed, and is the matching cards right after the first `count`, so it extends the revealed prefix |
| `Pager.RevealNext` | project/project.js:68-70 | revealing the next slice on top of the flags for the first `count` matching cards gives the flags for the first `count` plus the slice's length |
| `Pager.HintReportsRemaining` | project/project.js:57-63 | reading the hint gives the remaining count, with "project" for one and "projects" otherwise, exactly when cards remain, and nothing otherwise |
| `Pager.HintText` | project/project.js:57-64 | the hint is the end message exactly when some card matches and none remains, and empty exactly when no card matches |
| `Pager.ExactlyOneActive` | project/project.js:79-81 | with distinct button values, applying button `k`'s filter leaves button `k` and no other active |
| `Gallery.Gallery.constructor` | project/project.js:88-90 | initialisation hides all cards and applies "all": the whole catalogue matches, `min(6, n)` cards are revealed and the paging invariant holds |
| `Gallery.Gallery.HideAll` | project/project.js:47 | every card is hidden |
| `Gallery.Gallery.UpdateEmpty` | project/project.js:49-52 | the empty-state element is hidden exactly when the count is non-zero, and untouched when the element is absent |
| `Gallery.Gallery.UpdateLoadMore` | project/project.js:54-65 | with both elements present the button is shown exactly when cards remain and the hint is the hint text for the remaining count; otherwise both are untouched |
| `Gallery.Gallery.ShowNext` | project/project.js:67-73 | exactly the cards of the next slice are un-hidden and no other card changes; the count grows by the slice's length; the empty state and hint are re-derived |
| `Gallery.Gallery.MarkButtons` | project/project.js:79-81 | each filter button is marked active exactly when its value equals the filter, and no card changes |
| `Gallery.Gallery.ApplyFilter` | project/project.js:75-86 | the filter becomes active; the count is `min(6, matches)`; exactly the first that many matching cards are visible; the buttons are marked by equality; the affordances are re-derived |
| `Gallery.Gallery.ClickFilter` | project/project.js:92-94 | a click on button `k` applies its filter, and that button is then active |
| `Gallery.Gallery.LoadMore` | project/project.js:96-101 | the count grows by `min(6, remaining)`, keeping the paging invariant; at the cap no card and no count changes; without the button nothing happens |
| `Gallery.Gallery.VisibleIsPrefix` | project/project.js:67-86 | under the paging invariant, the un-hidden cards in catalogue order are exactly the first `visibleCount` matching cards |
| `Viewer.AltOrDefault` | project/project.js:112 | the zoomed image's alt is never empty, and is the given alt when that is non-empty |
| `Viewer.AfterOpen` | project/project.js:109-116 | with the elements present, opening shows exactly the given image with its alt or the default, and hides the page's overflow; otherwise nothing changes |
| `Viewer.AfterClose` | project/project.js:118-124 | with the elements present, closing leaves the lightbox closed with no image source, restores the overflow and keeps the alt; otherwise nothing changes |
| `Viewer.AfterKey` | project/project.js:144-152 | a key press changes something only if it is Escape and the lightbox is open |
| `Viewer.OpenOverwrites` | project/project.js:109-116 | opening twice is the same as opening the second image once |
| `Viewer.OpenFromAnyState` | project/project.js:109-116 | the result of opening does not depend on the state before |
| `Viewer.CloseIdempotent` | project/project.js:118-124 | closing twice is the same as closing once |
| `Viewer.CloseAfterOpen` | project/project.js:109-124 | open then close leaves the lightbox closed, with no image source and with the overflow restored |
| `Viewer.EscapeCloses` | project/project.js:144-152 | from a consistent state, Escape leaves the lightbox closed and any other key leaves it as it was |
| `Viewer.Lightbox.constructor` | project/project.js:106-107 | the lightbox starts closed |
| `Viewer.Lightbox.OpenImage` | project/project.js:109-116 | the fields become the `AfterOpen` snapshot, so with both elements present the image is shown and the overflow is hidden |
| `Viewer.Lightbox.Close` | project/project.js:118-124 | the fields become the `AfterClose` snapshot, and the lightbox is closed |
| `Viewer.Lightbox.KeyDown` | project/project.js:144-152 | the fields become the `AfterKey` snapshot: Escape closes and any other key changes nothing |

## Left out

- Tags.Lower: lower-casing covers only the ASCII letters `A`-`Z`. JavaScript's full Unicode `toLowerCase` (including the case mappings that change a string's length) is not modelled.
- Event dispatch and DOM lookups are not modelled: `getElementById`, `querySelectorAll`, `closest("img.zoomable")`, the `data-close` test on the lightbox click and listener registration. Their effects are the methods `ClickFilter`, `LoadMore`, `OpenImage`, `Close` and `KeyDown`, with the image's `src` and `alt` passed in as parameters.
- Cards are named by their position in the catalogue, not by element identity.
- The early `return` when the page has no `projectGrid` is not modelled. The model assumes a gallery exists.
- The mobile-nav auto-close wiring is not modelled. It is thin presentational glue.
- Display strings and the `aria-hidden` string are modelled as booleans: `loadMoreShown` stands for `inline-flex`/`none`, and `ariaHidden` for `"true"`/`"false"`.
- The markup's initial state is not known, so the constructors assume defaults. The lightbox starts closed with no image source and an empty body overflow. The load-more, hint and empty-state fields start at fixed values, and initialisation overwrites them whenever the elements exist.
- `index.js` is not modelled. It holds scroll and pointer animation: floating-point geometry, animation frames, timers and observers.
- `contact/contact.js` is not modelled. It holds clipboard writes, a timer-driven toast and native form submission.

/**
 * The project image lightbox (project/project.js): `openLightbox`, `closeLightbox`
 * and the Escape-key guard, over the lightbox's `is-open` class and `aria-hidden`
 * attribute, the zoomed image's `src` and `alt`, and the page body's overflow style.
 */
module Viewer {
  import opened Wrappers

  /** Alt text used when the clicked image has none. */
  const DEFAULT_ALT: string := "Zoomed project image"

  /** What the visitor sees: nothing, or one enlarged image. */
  datatype State = Closed | Open(src: string, alt: string)

  /** The lightbox-related page state the handlers write. */
  datatype Snapshot = Snapshot(
    isOpen: bool,          // `is-open` class on the lightbox
    ariaHidden: bool,      // `aria-hidden` attribute is "true"
    src: Option<string>,   // the image's `src` attribute, `None` once removed
    alt: string,           // the image's `alt`
    bodyOverflow: string)  // `document.body.style.overflow`

  /** `alt || "Zoomed project image"`. */
  function AltOrDefault(alt: string): (r: string)
    ensures r != ""
    ensures alt != "" ==> r == alt
  {
    if alt == "" then DEFAULT_ALT else alt
  }

  function View(s: Snapshot): State
  {
    if s.isOpen && s.src.Some? then Open(s.src.value, s.alt) else Closed
  }

  /** The states the handlers can reach from a closed page: `is-open`, `aria-hidden`
      and the body overflow agree, and an open lightbox has an image. */
  predicate Consistent(s: Snapshot)
  {
    s.ariaHidden == !s.isOpen
    && s.bodyOverflow == (if s.isOpen then "hidden" else "")
    && (s.isOpen ==> s.src.Some?)
  }

  /** `openLightbox(src, alt)`; `present` says both the lightbox and its image exist. */
  function AfterOpen(s: Snapshot, present: bool, src: string, alt: string): (r: Snapshot)
    ensures present ==> View(r) == Open(src, AltOrDefault(alt)) && Consistent(r)
    ensures !present ==> r == s
  {
    if present then Snapshot(true, false, Some(src), AltOrDefault(alt), "hidden") else s
  }

  /** `closeLightbox()`: the alt text is left as it was. */
  function AfterClose(s: Snapshot, present: bool): (r: Snapshot)
    ensures present ==> View(r) == Closed && Consistent(r) && r.src == None && r.alt == s.alt
    ensures !present ==> r == s
  {
    if present then Snapshot(false, true, None, s.alt, "") else s
  }

  /** The keydown handler: Escape closes the lightbox only while it is open. */
  function AfterKey(s: Snapshot, hasLightbox: bool, present: bool, key: string): (r: Snapshot)
    ensures r != s ==> key == "Escape" && s.isOpen
  {
    if key == "Escape" && hasLightbox && s.isOpen then AfterClose(s, present) else s
  }

  /** Opening twice shows the second image only: no stacking. */
  lemma OpenOverwrites(s: Snapshot, present: bool, src1: string, alt1: string, src2: string, alt2: string)
    ensures AfterOpen(AfterOpen(s, present, src1, alt1), present, src2, alt2) == AfterOpen(s, present, src2, alt2)
  {
  }

  /** Opening ignores what was shown before. */
  lemma OpenFromAnyState(s: Snapshot, t: Snapshot, src: string, alt: string)
    ensures AfterOpen(s, true, src, alt) == AfterOpen(t, true, src, alt)
  {
  }

  /** Closing a closed lightbox changes nothing. */
  lemma CloseIdempotent(s: Snapshot, present: bool)
    ensures AfterClose(AfterClose(s, present), present) == AfterClose(s, present)
  {
  }

  /** Opening then closing restores the scroll and leaves no image source. */
  lemma CloseAfterOpen(s: Snapshot, src: string, alt: string)
    ensures var c := AfterClose(AfterOpen(s, true, src, alt), true);
      View(c) == Closed && c.bodyOverflow == "" && c.src == None && Consistent(c)
  {
  }

  /** In a consistent state, Escape closes an open lightbox and leaves a closed one alone;
      other keys do nothing. */
  lemma EscapeCloses(s: Snapshot, hasLightbox: bool, present: bool, key: string)
    requires Consistent(s) && (s.isOpen ==> hasLightbox && present)
    ensures View(AfterKey(s, hasLightbox, present, key)) ==
      (if key == "Escape" then Closed else View(s))
  {
  }

  class Lightbox {
    /** Whether the page has the `lightbox` and `lightboxImg` elements. */
    const hasLightbox: bool
    const hasImage: bool

    var isOpen: bool
    var ariaHidden: bool
    var src: Option<string>
    var alt: string
    var bodyOverflow: string

    function Snap(): Snapshot
      reads this
    {
      Snapshot(isOpen, ariaHidden, src, alt, bodyOverflow)
    }

    function Current(): State
      reads this
    {
      View(Snap())
    }

    ghost predicate Valid()
      reads this
    {
      Consistent(Snap()) && (isOpen ==> hasLightbox && hasImage)
    }

    /** The page starts with the lightbox closed and no image source. */
    constructor (hasLightbox: bool, hasImage: bool)
      ensures Valid() && Current() == Closed
      ensures this.hasLightbox == hasLightbox && this.hasImage == hasImage
    {
      this.hasLightbox := hasLightbox;
      this.hasImage := hasImage;
      isOpen := false;
      ariaHidden := true;
      src := None;
      alt := "";
      bodyOverflow := "";
    }

    /** `openLightbox(src, alt)`: a click on a zoomable project image. */
    method OpenImage(src: string, alt: string)
      requires Valid()
      modifies this
      ensures Valid()
      ensures Snap() == AfterOpen(old(Snap()), hasLightbox && hasImage, src, alt)
      ensures hasLightbox && hasImage ==> Current() == Open(src, AltOrDefault(alt)) && bodyOverflow == "hidden"
    {
      if !hasLightbox || !hasImage {
        return;
      }
      this.src := Some(src);
      this.alt := if alt != "" then alt else DEFAULT_ALT;
      isOpen := true;
      ariaHidden := false;
      bodyOverflow := "hidden";
    }

    /** `closeLightbox()`: a click on the backdrop or the close button. */
    method Close()
      requires Valid()
      modifies this
      ensures Valid()
      ensures Snap() == AfterClose(old(Snap()), hasLightbox && hasImage)
      ensures Current() == Closed
    {
      if !hasLightbox || !hasImage {
        return;
      }
      isOpen := false;
      ariaHidden := true;
      bodyOverflow := "";
      src := None;
    }

    /** The document's keydown handler. */
    method KeyDown(key: string)
      requires Valid()
      modifies this
      ensures Valid()
      ensures Snap() == AfterKey(old(Snap()), hasLightbox, hasLightbox && hasImage, key)
      ensures Current() == if key == "Escape" then Closed else old(Current())
    {
      if key == "Escape" && hasLightbox && isOpen {
        Close();
      }
    }
  }
}

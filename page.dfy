/**
 * The page behaviour of the gallery script: the cyclic index over the ten
 * images of a car, the one function that moves the gallery to an image
 * (`updateImage`), the event handlers that call it (arrow buttons,
 * thumbnails, swipes, keys), the lightbox, and the mobile menu toggle.
 *
 * Page elements are reduced to the state the script reads and writes: the
 * `src` of the main image, of the lightbox image and of every thumbnail, the
 * lightbox's visibility, the highlight classes of every thumbnail, and the
 * menu's visibility.
 */
module Page {
  import opened Wrappers
  import opened Strings
  import opened ImagePath

  /** Every car has images numbered 1 to 10. */
  const TotalImages: int := 10

  /** Minimum horizontal travel of a touch, in pixels, for it to count as a swipe. */
  const SwipeThreshold: int := 50

  /**
   * The loop logic of `updateImage`: below the first image is the last one,
   * past the last image is the first one, and an index in range is kept.
   */
  function Wrap(n: int): (r: int)
    ensures 1 <= r <= TotalImages
    ensures 1 <= n <= TotalImages ==> r == n
    ensures n < 1 ==> r == TotalImages
    ensures n > TotalImages ==> r == 1
  {
    if n < 1 then TotalImages else if n > TotalImages then 1 else n
  }

  /**
   * The index the gallery starts from: the number in the main image's path
   * when a car prefix parses from it, and 1 otherwise.
   */
  function InitialIndex(src: string): (i: nat)
    ensures GetCarPrefix(src).None? ==> i == 1
    ensures GetCarPrefix(src).Some? ==>
              FindIndexToken(src).Some? && i == ParseDecimal(FindIndexToken(src).value)
  {
    if GetCarPrefix(src).Some? then
      PrefixImpliesIndexToken(src);
      IndexOf(src)
    else 1
  }

  /**
   * A page whose main image already carries a built path of an index in
   * range starts on that image, with the prefix it was built from.
   */
  lemma InitialIndexOfImageSrc(prefix: string, index: nat)
    requires prefix != [] && NoLineTerminator(prefix) && FindIndexToken(prefix).None?
    requires 1 <= index <= TotalImages
    ensures GetCarPrefix(ImageSrc(prefix, index)) == Some(prefix)
    ensures Wrap(InitialIndex(ImageSrc(prefix, index))) == index
  {
    CarPrefixOfImageSrc(prefix, index);
    IndexOfImageSrc(prefix, index);
  }

  /** Moving forward then back from an image in range lands on it again. */
  lemma NextPrevInverse(i: int)
    requires 1 <= i <= TotalImages
    ensures Wrap(Wrap(i + 1) - 1) == i
    ensures Wrap(Wrap(i - 1) + 1) == i
  {
  }

  /** The image reached from `i` after `k` presses of "next". */
  function NextN(i: int, k: nat): int
    decreases k
  {
    if k == 0 then i else NextN(Wrap(i + 1), k - 1)
  }

  /** `k` presses of "next" advance the index by `k` around the cycle of ten images. */
  lemma {:induction false} NextIterates(i: int, k: nat)
    requires 1 <= i <= TotalImages
    ensures NextN(i, k) == (i - 1 + k) % TotalImages + 1
    decreases k
  {
    if k > 0 {
      NextIterates(Wrap(i + 1), k - 1);
      if i == TotalImages {
        assert (i - 1 + k) % TotalImages == (k - 1) % TotalImages;
      } else {
        assert Wrap(i + 1) == i + 1;
      }
    }
  }

  /** Ten presses of "next" come back to the image shown before them. */
  lemma NextTenTimesIsIdentity(i: int)
    requires 1 <= i <= TotalImages
    ensures NextN(i, TotalImages as nat) == i
  {
    NextIterates(i, TotalImages as nat);
    assert (i - 1 + TotalImages) % TotalImages == i - 1;
  }

  /** The source and the initial highlight of one thumbnail on the page. */
  datatype Thumbnail = Thumbnail(src: string, highlighted: bool)

  /**
   * The gallery of one car page. `prefix` is the car prefix parsed once from
   * the main image; `hasLightbox` says whether the page has a lightbox (with
   * its image); `thumbSrcs` are the sources of the thumbnails and
   * `highlighted` their highlight classes, kept in step with the current image.
   */
  class Gallery {
    const prefix: Option<string>
    const hasLightbox: bool
    const thumbSrcs: seq<string>
    const highlighted: array<bool>
    var index: int
    var mainSrc: string
    var lightboxOpen: bool
    var lightboxSrc: string
    var touchStartX: int
    var touchEndX: int

    /** The page structure: one highlight per thumbnail; only an existing lightbox can be open. */
    predicate Wellformed()
      reads this
    {
      |thumbSrcs| == highlighted.Length && (lightboxOpen ==> hasLightbox)
    }

    /**
     * The main image shows image `i` of the car, and exactly the thumbnails
     * whose source contains its file name are highlighted.
     */
    predicate Displays(i: nat)
      reads this, highlighted
    {
      && prefix.Some?
      && |thumbSrcs| == highlighted.Length
      && mainSrc == ImageSrc(prefix.value, i)
      && forall k :: 0 <= k < |thumbSrcs| ==>
           highlighted[k] == Contains(thumbSrcs[k], ThumbName(prefix.value, i))
    }

    /**
     * The state between two events. Without a car prefix the gallery never
     * moves off its first index. With one, the index is in range, the page
     * displays it, and an open lightbox shows the main image.
     */
    predicate Valid()
      reads this, highlighted
    {
      && Wellformed()
      && (prefix.None? ==> index == 1)
      && (prefix.Some? ==>
            && 1 <= index <= TotalImages
            && Displays(index)
            && (lightboxOpen ==> lightboxSrc == mainSrc))
    }

    /**
     * What one call of `updateImage(newIndex)` does: without a car prefix,
     * nothing; with one, the gallery moves to the wrapped index and an open
     * lightbox follows it. The lightbox's visibility and the touch
     * coordinates are never changed.
     */
    twostate predicate Updated(newIndex: int)
      reads this, highlighted
    {
      && lightboxOpen == old(lightboxOpen)
      && touchStartX == old(touchStartX)
      && touchEndX == old(touchEndX)
      && (prefix.None? ==>
            && index == old(index)
            && mainSrc == old(mainSrc)
            && lightboxSrc == old(lightboxSrc)
            && highlighted[..] == old(highlighted[..]))
      && (prefix.Some? ==>
            && index == Wrap(newIndex)
            && Displays(index)
            && lightboxSrc == (if lightboxOpen then mainSrc else old(lightboxSrc)))
    }

    /**
     * The setup of the script on a page whose main image has source `src`:
     * the car prefix and the initial index are parsed from it, and the
     * gallery is moved to that index once, which sets the highlights.
     */
    constructor (src: string, thumbnails: seq<Thumbnail>, lightboxPresent: bool,
                 lightboxShown: bool, lightboxImgSrc: string)
      ensures prefix == GetCarPrefix(src)
      ensures hasLightbox == lightboxPresent
      ensures thumbSrcs == seq(|thumbnails|, k requires 0 <= k < |thumbnails| => thumbnails[k].src)
      ensures fresh(highlighted)
      ensures index == Wrap(InitialIndex(src))
      ensures prefix.None? ==>
                && mainSrc == src && lightboxSrc == lightboxImgSrc
                && highlighted[..] == seq(|thumbnails|, k requires 0 <= k < |thumbnails| => thumbnails[k].highlighted)
      ensures lightboxOpen == (lightboxPresent && lightboxShown)
      ensures !lightboxOpen ==> lightboxSrc == lightboxImgSrc
      ensures touchStartX == 0 && touchEndX == 0
      ensures Valid()
    {
      var p := GetCarPrefix(src);
      prefix := p;
      hasLightbox := lightboxPresent;
      thumbSrcs := seq(|thumbnails|, k requires 0 <= k < |thumbnails| => thumbnails[k].src);
      highlighted := new bool[|thumbnails|](k requires 0 <= k < |thumbnails| => thumbnails[k].highlighted);
      index := InitialIndex(src);
      mainSrc := src;
      lightboxOpen := lightboxPresent && lightboxShown;
      lightboxSrc := lightboxImgSrc;
      touchStartX := 0;
      touchEndX := 0;
      new;
      UpdateImage(index);
    }

    /** `updateImage(newIndex)`. */
    method UpdateImage(newIndex: int)
      requires Wellformed()
      modifies this, highlighted
      ensures Wellformed()
      ensures Updated(newIndex)
      ensures prefix.Some? || old(Valid()) ==> Valid()
    {
      if prefix.None? {
        return;
      }
      var n := newIndex;
      if n < 1 {
        n := TotalImages;
      }
      if n > TotalImages {
        n := 1;
      }
      index := n;
      var newSrc := ImageSrc(prefix.value, n);
      mainSrc := newSrc;
      if lightboxOpen {
        lightboxSrc := newSrc;
      }
      var name := ThumbName(prefix.value, n);
      var k := 0;
      while k < highlighted.Length
        modifies highlighted
        invariant 0 <= k <= highlighted.Length
        invariant forall j :: 0 <= j < k ==> highlighted[j] == Contains(thumbSrcs[j], name)
      {
        highlighted[k] := false;
        if Contains(thumbSrcs[k], name) {
          highlighted[k] := true;
        }
        k := k + 1;
      }
    }

    /** The "previous" arrow of the gallery or of the lightbox. */
    method Prev()
      requires Valid()
      modifies this, highlighted
      ensures Valid() && Updated(old(index) - 1)
    {
      UpdateImage(index - 1);
    }

    /** The "next" arrow of the gallery or of the lightbox. */
    method Next()
      requires Valid()
      modifies this, highlighted
      ensures Valid() && Updated(old(index) + 1)
    {
      UpdateImage(index + 1);
    }

    /** A click on thumbnail `k` moves the gallery to the number in its source. */
    method ThumbnailClick(k: nat)
      requires Valid() && k < |thumbSrcs|
      modifies this, highlighted
      ensures Valid() && Updated(IndexOf(thumbSrcs[k]))
    {
      UpdateImage(IndexOf(thumbSrcs[k]));
    }

    /** A click on the main image opens the lightbox on it, when the page has one. */
    method OpenLightbox()
      requires Valid()
      modifies this
      ensures Valid()
      ensures hasLightbox ==> lightboxOpen && lightboxSrc == mainSrc
      ensures !hasLightbox ==> lightboxOpen == old(lightboxOpen) && lightboxSrc == old(lightboxSrc)
      ensures index == old(index) && mainSrc == old(mainSrc)
      ensures touchStartX == old(touchStartX) && touchEndX == old(touchEndX)
    {
      if hasLightbox {
        lightboxSrc := mainSrc;
        lightboxOpen := true;
      }
    }

    /** `closeLightbox`: hides the lightbox and leaves everything else alone. */
    method CloseLightbox()
      requires Valid()
      modifies this
      ensures Valid()
      ensures !lightboxOpen
      ensures index == old(index) && mainSrc == old(mainSrc) && lightboxSrc == old(lightboxSrc)
      ensures touchStartX == old(touchStartX) && touchEndX == old(touchEndX)
    {
      lightboxOpen := false;
    }

    /**
     * A click that reaches the lightbox closes it only when its target is
     * the lightbox's own background, not the image inside it.
     */
    method LightboxClick(onBackground: bool)
      requires Valid()
      modifies this
      ensures Valid()
      ensures lightboxOpen == (old(lightboxOpen) && !(hasLightbox && onBackground))
      ensures index == old(index) && mainSrc == old(mainSrc) && lightboxSrc == old(lightboxSrc)
      ensures touchStartX == old(touchStartX) && touchEndX == old(touchEndX)
    {
      if hasLightbox && onBackground {
        CloseLightbox();
      }
    }

    /** `touchstart` on the main image or the lightbox image. */
    method TouchStart(x: int)
      requires Valid()
      modifies this
      ensures Valid()
      ensures touchStartX == x && touchEndX == old(touchEndX)
      ensures index == old(index) && mainSrc == old(mainSrc)
      ensures lightboxOpen == old(lightboxOpen) && lightboxSrc == old(lightboxSrc)
    {
      touchStartX := x;
    }

    /**
     * `handleSwipe`: a leftward swipe of more than the threshold moves to
     * the next image, a rightward one to the previous image, and a shorter
     * movement changes nothing.
     */
    method HandleSwipe()
      requires Valid()
      modifies this, highlighted
      ensures Valid()
      ensures touchEndX < touchStartX - SwipeThreshold ==> Updated(old(index) + 1)
      ensures touchEndX > touchStartX + SwipeThreshold ==> Updated(old(index) - 1)
      ensures touchStartX - SwipeThreshold <= touchEndX <= touchStartX + SwipeThreshold ==>
                unchanged(this) && unchanged(highlighted)
    {
      if touchEndX < touchStartX - SwipeThreshold {
        UpdateImage(index + 1);
      }
      if touchEndX > touchStartX + SwipeThreshold {
        UpdateImage(index - 1);
      }
    }

    /** `touchend` on the main image or the lightbox image: record the end point, then swipe. */
    method TouchEnd(x: int)
      requires Valid()
      modifies this, highlighted
      ensures Valid()
      ensures touchStartX == old(touchStartX) && touchEndX == x
      ensures prefix.Some? && x < touchStartX - SwipeThreshold ==> index == Wrap(old(index) + 1)
      ensures prefix.Some? && x > touchStartX + SwipeThreshold ==> index == Wrap(old(index) - 1)
      ensures prefix.None? || touchStartX - SwipeThreshold <= x <= touchStartX + SwipeThreshold ==>
                index == old(index) && mainSrc == old(mainSrc) && lightboxSrc == old(lightboxSrc)
                && highlighted[..] == old(highlighted[..])
      ensures lightboxOpen == old(lightboxOpen)
      ensures !lightboxOpen ==> lightboxSrc == old(lightboxSrc)
    {
      touchEndX := x;
      HandleSwipe();
    }

    /**
     * `keydown`: the left and right arrow keys move to the previous and the
     * next image, and Escape hides the lightbox; any other key does nothing.
     */
    method KeyDown(key: string)
      requires Valid()
      modifies this, highlighted
      ensures Valid()
      ensures key == "ArrowLeft" ==> Updated(old(index) - 1)
      ensures key == "ArrowRight" ==> Updated(old(index) + 1)
      ensures key == "Escape" ==>
                !lightboxOpen && index == old(index) && mainSrc == old(mainSrc)
                && lightboxSrc == old(lightboxSrc) && highlighted[..] == old(highlighted[..])
                && touchStartX == old(touchStartX) && touchEndX == old(touchEndX)
      ensures key != "ArrowLeft" && key != "ArrowRight" && key != "Escape" ==>
                unchanged(this) && unchanged(highlighted)
    {
      if key == "ArrowLeft" {
        UpdateImage(index - 1);
      }
      if key == "ArrowRight" {
        UpdateImage(index + 1);
      }
      if key == "Escape" && hasLightbox {
        CloseLightbox();
      }
    }

    /**
     * A thumbnail whose source is the current image's path, possibly made
     * absolute, is highlighted.
     */
    lemma CurrentThumbnailHighlighted(k: nat, base: string)
      requires Valid() && prefix.Some? && k < |thumbSrcs|
      requires thumbSrcs[k] == base + ImageSrc(prefix.value, index)
      ensures highlighted[k]
    {
      ImageSrcContainsThumbName(base, prefix.value, index);
    }

    /**
     * Only the current image's thumbnail is lit: a thumbnail whose source is
     * the path of another image of the same car is not highlighted.
     */
    lemma OtherThumbnailNotHighlighted(k: nat, j: nat)
      requires Valid() && prefix.Some? && k < |thumbSrcs|
      requires FindIndexToken(prefix.value).None?
      requires thumbSrcs[k] == ImageSrc(prefix.value, j) && j != index
      ensures !highlighted[k]
    {
      OtherImageNotHighlighted(prefix.value, index, j);
    }

    /** Clicking the thumbnail that carries a built path moves the gallery to its image. */
    lemma ThumbnailClickTarget(k: nat, i: nat)
      requires Valid() && prefix.Some? && k < |thumbSrcs|
      requires FindIndexToken(prefix.value).None? && 1 <= i <= TotalImages
      requires thumbSrcs[k] == ImageSrc(prefix.value, i)
      ensures Wrap(IndexOf(thumbSrcs[k])) == i
    {
      IndexOfImageSrc(prefix.value, i);
    }
  }

  /** Pressing "next" and then "previous" puts the whole gallery back as it was. */
  method NextThenPrevRestores(g: Gallery)
    requires g.Valid()
    modifies g, g.highlighted
    ensures g.Valid()
    ensures g.index == old(g.index) && g.mainSrc == old(g.mainSrc)
    ensures g.lightboxOpen == old(g.lightboxOpen) && g.lightboxSrc == old(g.lightboxSrc)
    ensures g.highlighted[..] == old(g.highlighted[..])
  {
    g.Next();
    g.Prev();
    if g.prefix.Some? {
      NextPrevInverse(old(g.index));
      assert g.highlighted[..] == old(g.highlighted[..]);
    }
  }

  /** The mobile menu with its toggle button; `hidden` is the menu's `hidden` class. */
  class MobileMenu {
    var hidden: bool

    constructor (initiallyHidden: bool)
      ensures hidden == initiallyHidden
    {
      hidden := initiallyHidden;
    }

    /** A click on the toggle button flips the menu's visibility. */
    method Toggle()
      modifies this
      ensures hidden == !old(hidden)
    {
      hidden := !hidden;
    }
  }

  /** Two clicks of the toggle button leave the menu as it was. */
  method ToggleTwiceRestores(m: MobileMenu)
    modifies m
    ensures m.hidden == old(m.hidden)
  {
    m.Toggle();
    m.Toggle();
  }
}

/**
 * The lightbox of gallery.js: the module-level `currentIndex` into the
 * global `images` array and whether `photoModal` is shown (the 'hidden'
 * class absent). The DOM updates (image source, caption, file size text)
 * are not modelled; only the visibility flag and the index are.
 */
module Gallery {

  /** An entry of the page's `images` array; only its `id` matters here. */
  datatype GalleryImage = GalleryImage(id: string)

  /** JavaScript's `a % b` for `b > 0`: the remainder takes the sign of `a`. */
  function JsRem(a: int, b: int): (r: int)
    requires b > 0
    ensures a >= 0 ==> r == a % b && 0 <= r < b
    ensures a < 0 ==> -b < r <= 0
  {
    if a >= 0 then a % b else -((-a) % b)
  }

  /** `currentIndex` after `showNext` over `n` images (gallery.js:28-32). */
  function NextIndex(i: int, n: nat): int {
    if n == 0 then i else JsRem(i + 1, n)
  }

  /** `currentIndex` after `showPrev` over `n` images (gallery.js:22-26). */
  function PrevIndex(i: int, n: nat): int {
    if n == 0 then i else JsRem(i - 1 + n, n)
  }

  /** On a valid position the steps are "one on, or back to the first" and "one back, or on to the last". */
  lemma StepsOnValidIndex(i: int, n: nat)
    requires 0 <= i < n
    ensures NextIndex(i, n) == if i + 1 < n then i + 1 else 0
    ensures PrevIndex(i, n) == if i == 0 then n - 1 else i - 1
  {
    NextOnValidIndex(i, n);
    PrevOnValidIndex(i, n);
  }

  lemma NextOnValidIndex(i: int, n: nat)
    requires 0 <= i < n
    ensures NextIndex(i, n) == if i + 1 < n then i + 1 else 0
  {
    assert NextIndex(i, n) == (i + 1) % n;
    if i + 1 < n { ModOfSmall(i + 1, n); } else { ModOfSmall(0, n); ModOfShifted(0, n); }
  }

  lemma PrevOnValidIndex(i: int, n: nat)
    requires 0 <= i < n
    ensures PrevIndex(i, n) == if i == 0 then n - 1 else i - 1
  {
    assert PrevIndex(i, n) == (i - 1 + n) % n;
    if i == 0 { ModOfSmall(n - 1, n); } else { ModOfShifted(i - 1, n); }
  }

  lemma ModOfSmall(a: int, n: int)
    requires 0 <= a < n
    ensures a % n == a
  {
  }

  lemma ModOfShifted(a: int, n: int)
    requires 0 <= a < n
    ensures (a + n) % n == a
  {
  }

  /** A valid position stays valid under both steps. */
  lemma StepsStayInRange(i: int, n: nat)
    requires 0 <= i < n
    ensures 0 <= NextIndex(i, n) < n
    ensures 0 <= PrevIndex(i, n) < n
  {
    StepsOnValidIndex(i, n);
  }

  /** The index never becomes negative, even when `images` has shrunk below it. */
  lemma StepsStayNonNegative(i: int, n: nat)
    requires 0 <= i
    ensures 0 <= NextIndex(i, n) && 0 <= PrevIndex(i, n)
  {
  }

  /** `showNext` then `showPrev`, or the other way round, restores the index. */
  lemma NextPrevInverse(i: int, n: nat)
    requires 0 <= i < n
    ensures PrevIndex(NextIndex(i, n), n) == i
    ensures NextIndex(PrevIndex(i, n), n) == i
  {
    StepsOnValidIndex(i, n);
    StepsOnValidIndex(NextIndex(i, n), n);
    StepsOnValidIndex(PrevIndex(i, n), n);
  }

  /** Wrap-around: past the last image comes the first, before the first the last. */
  lemma WrapAround(n: nat)
    requires n > 0
    ensures NextIndex(n - 1, n) == 0
    ensures PrevIndex(0, n) == n - 1
  {
    StepsOnValidIndex(n - 1, n);
    StepsOnValidIndex(0, n);
  }

  /** The index after `k` presses of "next". */
  function NextTimes(i: int, n: nat, k: nat): int {
    if k == 0 then i else NextIndex(NextTimes(i, n, k - 1), n)
  }

  /** Up to `n` presses of "next" advance a valid index by `k`, wrapping once past the end. */
  lemma {:induction false} NextTimesAdvances(i: int, n: nat, k: nat)
    requires 0 <= i < n && k <= n
    ensures NextTimes(i, n, k) == if i + k < n then i + k else i + k - n
  {
    if k > 0 {
      NextTimesAdvances(i, n, k - 1);
      StepsOnValidIndex(NextTimes(i, n, k - 1), n);
    }
  }

  /** `n` presses of "next" go once round the gallery and back to the start. */
  lemma FullCycleReturns(i: int, n: nat)
    requires 0 <= i < n
    ensures NextTimes(i, n, n) == i
  {
    NextTimesAdvances(i, n, n);
  }

  /** `images.findIndex(p => p.id === id)`: the first position holding `id`, or -1. */
  function FindIndex(images: seq<GalleryImage>, id: string): (k: int)
    ensures -1 <= k < |images|
    ensures k >= 0 ==> images[k].id == id
    ensures forall j :: 0 <= j < |images| && (k == -1 || j < k) ==> images[j].id != id
  {
    if images == [] then -1
    else if images[0].id == id then 0
    else var k := FindIndex(images[1..], id); if k == -1 then -1 else k + 1
  }

  /** The lightbox state: `currentIndex` and whether the modal is shown. */
  class Lightbox {
    const images: seq<GalleryImage>
    var index: int
    var visible: bool

    /**
     * No step of the script ever makes the index negative, and over a
     * non-empty gallery it always names an image.
     */
    ghost predicate Valid()
      reads this
    {
      0 <= index && (|images| > 0 ==> index < |images|)
    }

    /** Page load: `let currentIndex = 0` with the modal hidden. */
    constructor (images: seq<GalleryImage>)
      ensures Valid() && this.images == images && index == 0 && !visible
    {
      this.images := images;
      index := 0;
      visible := false;
    }

    /** `openModal(index)` (gallery.js:9-16). */
    method OpenModal(i: int)
      requires Valid() && 0 <= i < |images|
      modifies this`index, this`visible
      ensures Valid() && index == i && visible
    {
      index := i;
      visible := true;
    }

    /** `closeModal()` (gallery.js:18-20): hides the modal; the index stays. */
    method CloseModal()
      requires Valid()
      modifies this`visible
      ensures Valid() && !visible
    {
      visible := false;
    }

    /** `showPrev()` (gallery.js:22-26), also bound to the previous button. */
    method ShowPrev()
      requires Valid()
      modifies this`index
      ensures Valid() && index == PrevIndex(old(index), |images|)
      ensures |images| == 0 ==> index == old(index)
      ensures |images| > 0 ==> 0 <= index < |images|
    {
      if |images| == 0 {
        return;
      }
      index := JsRem(index - 1 + |images|, |images|);
    }

    /** `showNext()` (gallery.js:28-32), also bound to the next button. */
    method ShowNext()
      requires Valid()
      modifies this`index
      ensures Valid() && index == NextIndex(old(index), |images|)
      ensures |images| == 0 ==> index == old(index)
      ensures |images| > 0 ==> 0 <= index < |images|
    {
      if |images| == 0 {
        return;
      }
      index := JsRem(index + 1, |images|);
    }

    /** A click on the modal (gallery.js:46-48): only one on the backdrop itself closes it. */
    method ClickModal(onBackdrop: bool)
      requires Valid()
      modifies this`visible
      ensures Valid()
      ensures visible == (old(visible) && !onBackdrop)
    {
      if onBackdrop {
        CloseModal();
      }
    }

    /**
     * The keydown listener (gallery.js:51-59). Escape closes a shown modal;
     * otherwise the arrow keys step, even while the modal is hidden; Escape
     * on a hidden modal and every other key change nothing.
     */
    method KeyDown(key: string)
      requires Valid()
      modifies this`index, this`visible
      ensures Valid()
      ensures key == "Escape" && old(visible) ==> !visible && index == old(index)
      ensures key == "ArrowLeft" ==> visible == old(visible) && index == PrevIndex(old(index), |images|)
      ensures key == "ArrowRight" ==> visible == old(visible) && index == NextIndex(old(index), |images|)
      ensures key == "Escape" && !old(visible) ==> visible == old(visible) && index == old(index)
      ensures key != "Escape" && key != "ArrowLeft" && key != "ArrowRight"
              ==> visible == old(visible) && index == old(index)
    {
      if key == "Escape" && visible {
        CloseModal();
      } else if key == "ArrowLeft" {
        ShowPrev();
      } else if key == "ArrowRight" {
        ShowNext();
      }
    }

    /**
     * The click handler of a gallery image (gallery.js:83-86): opens the modal
     * at the first image carrying `id`, or does nothing when none does.
     */
    method ClickImage(id: string)
      requires Valid()
      modifies this`index, this`visible
      ensures Valid()
      ensures FindIndex(images, id) == -1 ==> index == old(index) && visible == old(visible)
      ensures FindIndex(images, id) != -1 ==>
                visible && 0 <= index < |images| && images[index].id == id
                && forall j :: 0 <= j < index ==> images[j].id != id
    {
      var i := FindIndex(images, id);
      if i != -1 {
        OpenModal(i);
      }
    }
  }
}

/**
 * The loop both scripts share: walk the pixels in order and append, for each,
 * the transparent sentinel when the pixel is classified as background, and
 * the pixel itself otherwise. The two scripts differ only in the classifier.
 */
module ClassifyAndErase {
  import opened Pixels

  /** The pixel the loop appends for input pixel `p`. */
  function ErasePixel(p: Pixel, isBackground: Pixel -> bool): Pixel
  {
    if isBackground(p) then Transparent else p
  }

  /**
   * The list the loop builds: one pixel appended per input pixel, in order.
   * Defined by appending at the end, as the loop does.
   */
  function Erased(data: seq<Pixel>, isBackground: Pixel -> bool): (r: seq<Pixel>)
    ensures |r| == |data|
  {
    if data == [] then []
    else Erased(data[..|data| - 1], isBackground) + [ErasePixel(data[|data| - 1], isBackground)]
  }

  /** Output pixel i is decided by input pixel i alone. */
  lemma {:induction false} ErasedAt(data: seq<Pixel>, isBackground: Pixel -> bool, i: int)
    requires 0 <= i < |data|
    ensures Erased(data, isBackground)[i] == if isBackground(data[i]) then Transparent else data[i]
  {
    if i < |data| - 1 {
      ErasedAt(data[..|data| - 1], isBackground, i);
    }
  }

  /** No cross-pixel influence: erasing a concatenation erases each part. */
  lemma ErasedAppend(left: seq<Pixel>, right: seq<Pixel>, isBackground: Pixel -> bool)
    ensures Erased(left + right, isBackground) == Erased(left, isBackground) + Erased(right, isBackground)
  {
    var whole, parts := Erased(left + right, isBackground), Erased(left, isBackground) + Erased(right, isBackground);
    forall i | 0 <= i < |whole|
      ensures whole[i] == parts[i]
    {
      ErasedAt(left + right, isBackground, i);
      if i < |left| {
        ErasedAt(left, isBackground, i);
      } else {
        ErasedAt(right, isBackground, i - |left|);
      }
    }
  }

  /** A classifier that accepts no pixel leaves the image as it is. */
  lemma {:induction false} NothingErased(data: seq<Pixel>, isBackground: Pixel -> bool)
    requires forall p :: !isBackground(p)
    ensures Erased(data, isBackground) == data
  {
    if data != [] {
      NothingErased(data[..|data| - 1], isBackground);
    }
  }

  /**
   * Two passes act as one pass with `combined` when they do so on every
   * single pixel.
   */
  lemma EraseTwice(data: seq<Pixel>, first: Pixel -> bool, second: Pixel -> bool, combined: Pixel -> bool)
    requires forall p :: ErasePixel(ErasePixel(p, first), second) == ErasePixel(p, combined)
    ensures Erased(Erased(data, first), second) == Erased(data, combined)
  {
    var once := Erased(data, first);
    var twice, direct := Erased(once, second), Erased(data, combined);
    forall i | 0 <= i < |data|
      ensures twice[i] == direct[i]
    {
      ErasedAt(data, first, i);
      ErasedAt(once, second, i);
      ErasedAt(data, combined, i);
      assert twice[i] == ErasePixel(ErasePixel(data[i], first), second);
    }
  }

  /**
   * With a classifier that accepts at least what `weaker` accepts, every
   * position made transparent by `weaker` is made transparent too.
   */
  lemma ErasureMonotone(data: seq<Pixel>, weaker: Pixel -> bool, stronger: Pixel -> bool, i: int)
    requires forall p :: weaker(p) ==> stronger(p)
    requires 0 <= i < |data| && Erased(data, weaker)[i] == Transparent
    ensures Erased(data, stronger)[i] == Transparent
  {
    ErasedAt(data, weaker, i);
    ErasedAt(data, stronger, i);
  }

  /**
   * With a classifier that reads only R, G and B, two images that differ only
   * in alpha are erased at the same positions and kept at the others.
   */
  lemma ErasureIgnoresAlpha(data: seq<Pixel>, other: seq<Pixel>, isBackground: Pixel -> bool)
    requires forall p, q :: SameColour(p, q) ==> isBackground(p) == isBackground(q)
    requires |data| == |other|
    requires forall i :: 0 <= i < |data| ==> SameColour(data[i], other[i])
    ensures forall i :: 0 <= i < |data| ==>
              (Erased(data, isBackground)[i] == Transparent && Erased(other, isBackground)[i] == Transparent) ||
              (Erased(data, isBackground)[i] == data[i] && Erased(other, isBackground)[i] == other[i])
  {
    forall i | 0 <= i < |data|
      ensures (Erased(data, isBackground)[i] == Transparent && Erased(other, isBackground)[i] == Transparent) ||
              (Erased(data, isBackground)[i] == data[i] && Erased(other, isBackground)[i] == other[i])
    {
      ErasedAt(data, isBackground, i);
      ErasedAt(other, isBackground, i);
    }
  }
}

/**
 * How the two scripts' filters relate. The second disjunct of the grey test
 * is the white test, so the grey filter erases everything the white filter
 * erases at the same threshold, and it absorbs the white filter when the two
 * are run one after the other.
 */
module FilterComparison {
  import opened Pixels
  import opened ClassifyAndErase
  import WhiteBackground
  import GreyBackground

  /** A pixel the white filter erases is erased by the grey filter at any threshold as large. */
  lemma WhiteIsGreyBackground(p: Pixel, whiteThreshold: int, greyThreshold: int)
    requires whiteThreshold <= greyThreshold
    requires WhiteBackground.IsWhite(p, whiteThreshold)
    ensures GreyBackground.IsGreyBackground(p, greyThreshold)
  {
  }

  /** Every position the white filter makes transparent, the grey filter does too. */
  lemma WhiteErasedIsGreyErased(data: seq<Pixel>, threshold: int, i: int)
    requires 0 <= i < |data|
    requires WhiteBackground.Filtered(data, threshold)[i] == Transparent
    ensures GreyBackground.Filtered(data, threshold)[i] == Transparent
  {
    ErasureMonotone(data, WhiteBackground.WhiteAt(threshold), GreyBackground.GreyAt(threshold), i);
  }

  /** Grey filtering after white filtering gives what grey filtering alone gives. */
  lemma GreyAfterWhite(data: seq<Pixel>, whiteThreshold: int, greyThreshold: int)
    requires whiteThreshold <= greyThreshold
    ensures GreyBackground.Filtered(WhiteBackground.Filtered(data, whiteThreshold), greyThreshold) ==
              GreyBackground.Filtered(data, greyThreshold)
  {
    var white, grey := WhiteBackground.WhiteAt(whiteThreshold), GreyBackground.GreyAt(greyThreshold);
    forall p ensures ErasePixel(ErasePixel(p, white), grey) == ErasePixel(p, grey) {
      GreyBackground.TransparentIsBackground(greyThreshold);
    }
    EraseTwice(data, white, grey, grey);
  }

  /** White filtering after grey filtering changes nothing. */
  lemma WhiteAfterGrey(data: seq<Pixel>, whiteThreshold: int, greyThreshold: int)
    requires whiteThreshold <= greyThreshold
    ensures WhiteBackground.Filtered(GreyBackground.Filtered(data, greyThreshold), whiteThreshold) ==
              GreyBackground.Filtered(data, greyThreshold)
  {
    var white, grey := WhiteBackground.WhiteAt(whiteThreshold), GreyBackground.GreyAt(greyThreshold);
    EraseTwice(data, grey, white, grey);
  }
}

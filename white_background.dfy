/**
 * The white-background filter of `remove_white_background`: every pixel whose
 * red, green and blue channels all exceed `255 - threshold` is replaced by the
 * transparent sentinel; every other pixel is kept as it is.
 */
module WhiteBackground {
  import opened Pixels
  import opened ClassifyAndErase

  /** The threshold the script uses by default and for its first output. */
  const DefaultThreshold := 30
  /** The threshold of the "aggressive" backup output. */
  const AggressiveThreshold := 50

  /** The per-pixel test: the pixel is close enough to white to be erased. */
  predicate IsWhite(p: Pixel, threshold: int)
  {
    AllChannelsAbove(p, 255 - threshold)
  }

  /** The white test at a fixed threshold, as a classifier. */
  function WhiteAt(threshold: int): Pixel -> bool
  {
    p => IsWhite(p, threshold)
  }

  /** The pixel list the script writes back for `data`. */
  function Filtered(data: seq<Pixel>, threshold: int): seq<Pixel>
  {
    Erased(data, WhiteAt(threshold))
  }

  /** Output pixel i is the sentinel if input pixel i is near white, and input pixel i otherwise. */
  lemma FilteredAt(data: seq<Pixel>, threshold: int, i: int)
    requires 0 <= i < |data|
    ensures |Filtered(data, threshold)| == |data|
    ensures Filtered(data, threshold)[i] ==
              if IsWhite(data[i], threshold) then Transparent else data[i]
  {
    ErasedAt(data, WhiteAt(threshold), i);
  }

  /** A threshold of 0 (or below) erases nothing: no byte channel exceeds 255. */
  lemma NonPositiveThresholdKeepsAll(data: seq<Pixel>, threshold: int)
    requires threshold <= 0
    ensures Filtered(data, threshold) == data
  {
    NothingErased(data, WhiteAt(threshold));
  }

  /**
   * Running the filter twice, with any two thresholds, gives the same image
   * as one run with the larger threshold.
   */
  lemma FilterTwice(data: seq<Pixel>, first: int, second: int)
    ensures Filtered(Filtered(data, first), second) ==
              Filtered(data, if first <= second then second else first)
  {
    EraseTwice(data, WhiteAt(first), WhiteAt(second), WhiteAt(if first <= second then second else first));
  }

  /** The filter is idempotent at every threshold. */
  lemma FilterIdempotent(data: seq<Pixel>, threshold: int)
    ensures Filtered(Filtered(data, threshold), threshold) == Filtered(data, threshold)
  {
    FilterTwice(data, threshold, threshold);
  }

  /** Monotone in the threshold: a pixel made transparent stays so at a larger threshold. */
  lemma ErasedStaysErased(data: seq<Pixel>, lower: int, higher: int, i: int)
    requires lower <= higher && 0 <= i < |data|
    requires Filtered(data, lower)[i] == Transparent
    ensures Filtered(data, higher)[i] == Transparent
  {
    ErasureMonotone(data, WhiteAt(lower), WhiteAt(higher), i);
  }

  /** The aggressive output erases everything the default output erases. */
  lemma AggressiveErasesMore(data: seq<Pixel>)
    ensures forall i :: 0 <= i < |data| && Filtered(data, DefaultThreshold)[i] == Transparent ==>
                          Filtered(data, AggressiveThreshold)[i] == Transparent
  {
    forall i | 0 <= i < |data| && Filtered(data, DefaultThreshold)[i] == Transparent
      ensures Filtered(data, AggressiveThreshold)[i] == Transparent
    {
      ErasedStaysErased(data, DefaultThreshold, AggressiveThreshold, i);
    }
  }

  /**
   * The decision reads only R, G and B: two images that differ only in alpha
   * have the same positions erased and the same positions kept.
   */
  lemma FilterIgnoresAlpha(data: seq<Pixel>, other: seq<Pixel>, threshold: int)
    requires |data| == |other|
    requires forall i :: 0 <= i < |data| ==> SameColour(data[i], other[i])
    ensures forall i :: 0 <= i < |data| ==>
              (Filtered(data, threshold)[i] == Transparent && Filtered(other, threshold)[i] == Transparent) ||
              (Filtered(data, threshold)[i] == data[i] && Filtered(other, threshold)[i] == other[i])
  {
    ErasureIgnoresAlpha(data, other, WhiteAt(threshold));
  }

  /**
   * `remove_white_background` without the PIL calls: walks the decoded pixels
   * and appends, for each, either the transparent sentinel or the pixel itself.
   */
  method RemoveWhiteBackground(data: seq<Pixel>, threshold: int := DefaultThreshold)
    returns (newData: seq<Pixel>)
    ensures |newData| == |data|
    ensures forall i :: 0 <= i < |data| && IsWhite(data[i], threshold) ==> newData[i] == Transparent
    ensures forall i :: 0 <= i < |data| && !IsWhite(data[i], threshold) ==> newData[i] == data[i]
    ensures newData == Filtered(data, threshold)
  {
    newData := [];
    var n := 0;
    while n < |data|
      invariant 0 <= n <= |data|
      invariant newData == Filtered(data[..n], threshold)
    {
      var item := data[n];
      assert data[..n + 1][..n] == data[..n];
      if item.r > 255 - threshold && item.g > 255 - threshold && item.b > 255 - threshold {
        newData := newData + [Transparent];
      } else {
        newData := newData + [item];
      }
      n := n + 1;
    }
    assert data[..n] == data;
    forall i | 0 <= i < |data|
      ensures newData[i] == if IsWhite(data[i], threshold) then Transparent else data[i]
    {
      FilteredAt(data, threshold, i);
    }
  }
}

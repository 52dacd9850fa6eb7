/**
 * The grey-background filter of `remove_grey_background`. A pixel is erased
 * when it is a light grey (its channels lie close to their mean and the mean
 * is above `255 - greyThreshold`) or when its red, green and blue channels all
 * exceed `255 - greyThreshold`; every other pixel is kept as it is.
 */
module GreyBackground {
  import opened Pixels
  import opened ClassifyAndErase

  /** The threshold the script uses by default and for its standard output. */
  const StandardThreshold := 50
  /** The threshold of the "conservative" output. */
  const ConservativeThreshold := 30
  /** The threshold of the "aggressive" output. */
  const AggressiveThreshold := 80

  function Abs(x: real): real
  {
    if x < 0.0 then -x else x
  }

  function Max3(x: real, y: real, z: real): real
  {
    if x >= y && x >= z then x else if y >= z then y else z
  }

  /** `avg_color`: the mean of R, G and B, as an exact rational. */
  function AvgColor(p: Pixel): real
  {
    (p.r + p.g + p.b) as real / 3.0
  }

  /** `color_variance`: the largest distance of a channel from the mean. */
  function ColorVariance(p: Pixel): real
  {
    var avg := AvgColor(p);
    Max3(Abs(p.r as real - avg), Abs(p.g as real - avg), Abs(p.b as real - avg))
  }

  /** The first disjunct: a greyish pixel that is light enough. */
  predicate IsLightGrey(p: Pixel, greyThreshold: int)
  {
    ColorVariance(p) < 30.0 && AvgColor(p) > (255 - greyThreshold) as real
  }

  /** The per-pixel test of the loop: light grey, or all channels near white. */
  predicate IsGreyBackground(p: Pixel, greyThreshold: int)
  {
    IsLightGrey(p, greyThreshold) || AllChannelsAbove(p, 255 - greyThreshold)
  }

  /** The grey test at a fixed threshold, as a classifier. */
  function GreyAt(greyThreshold: int): Pixel -> bool
  {
    p => IsGreyBackground(p, greyThreshold)
  }

  // The same test in integers, scaled by 3 so that no division is needed.

  function IntAbs(x: int): nat
  {
    if x < 0 then -x else x
  }

  /** The channel sum R + G + B, three times `avg_color`. */
  function Sum(p: Pixel): int
  {
    p.r + p.g + p.b
  }

  /** Three times `color_variance`. */
  function Spread(p: Pixel): int
  {
    var s := Sum(p);
    var dr, dg, db := IntAbs(3 * p.r - s), IntAbs(3 * p.g - s), IntAbs(3 * p.b - s);
    if dr >= dg && dr >= db then dr else if dg >= db then dg else db
  }

  predicate IsLightGreyScaled(p: Pixel, greyThreshold: int)
  {
    Spread(p) < 90 && Sum(p) > 3 * (255 - greyThreshold)
  }

  /** The mean and the variance are exactly a third of the integer quantities. */
  lemma ScaledQuantities(p: Pixel)
    ensures AvgColor(p) * 3.0 == Sum(p) as real
    ensures ColorVariance(p) * 3.0 == Spread(p) as real
  {
    var avg, s := AvgColor(p), Sum(p);
    assert Abs(p.r as real - avg) * 3.0 == IntAbs(3 * p.r - s) as real;
    assert Abs(p.g as real - avg) * 3.0 == IntAbs(3 * p.g - s) as real;
    assert Abs(p.b as real - avg) * 3.0 == IntAbs(3 * p.b - s) as real;
  }

  /** The rational test of the script and the integer test agree on every pixel. */
  lemma ScaledTestExact(p: Pixel, greyThreshold: int)
    ensures IsLightGrey(p, greyThreshold) <==> IsLightGreyScaled(p, greyThreshold)
  {
    ScaledQuantities(p);
  }

  /**
   * `color_variance` is either exactly 30, and then the channel sum is
   * divisible by 3 so that `avg_color` is a whole number, or at least a third
   * away from 30. Rounding of a double-precision division is far smaller
   * than a third, so it cannot change the outcome of `color_variance < 30`.
   */
  lemma VarianceMargin(p: Pixel)
    ensures ColorVariance(p) == 30.0 ==> Sum(p) % 3 == 0
    ensures ColorVariance(p) < 30.0 ==> ColorVariance(p) <= 30.0 - 1.0 / 3.0
    ensures ColorVariance(p) > 30.0 ==> ColorVariance(p) >= 30.0 + 1.0 / 3.0
  {
    ScaledQuantities(p);
    var s := Sum(p);
    ThirdMargin(Spread(p), 30, ColorVariance(p));
    if Spread(p) == 90 {
      if IntAbs(3 * p.r - s) == 90 {
        assert s == 3 * (p.r - 30) || s == 3 * (p.r + 30);
      } else if IntAbs(3 * p.g - s) == 90 {
        assert s == 3 * (p.g - 30) || s == 3 * (p.g + 30);
      } else {
        assert s == 3 * (p.b - 30) || s == 3 * (p.b + 30);
      }
    }
  }

  /** A real `x` with `3x` a whole number `n` is `k` itself or a third away from it. */
  lemma ThirdMargin(n: int, k: int, x: real)
    requires x * 3.0 == n as real
    ensures x == k as real ==> n == 3 * k
    ensures x < k as real ==> x <= k as real - 1.0 / 3.0
    ensures x > k as real ==> x >= k as real + 1.0 / 3.0
  {
    if n < 3 * k {
      assert n as real <= (3 * k - 1) as real;
    } else if n > 3 * k {
      assert n as real >= (3 * k + 1) as real;
    }
  }

  /**
   * `avg_color` is either exactly `255 - greyThreshold`, and then it is a whole
   * number, or at least a third away from it, so rounding cannot change the
   * outcome of `avg_color > 255 - grey_threshold`.
   */
  lemma AverageMargin(p: Pixel, greyThreshold: int)
    ensures AvgColor(p) == (255 - greyThreshold) as real ==> Sum(p) % 3 == 0
    ensures AvgColor(p) < (255 - greyThreshold) as real ==> AvgColor(p) <= (255 - greyThreshold) as real - 1.0 / 3.0
    ensures AvgColor(p) > (255 - greyThreshold) as real ==> AvgColor(p) >= (255 - greyThreshold) as real + 1.0 / 3.0
  {
    ScaledQuantities(p);
    var s, bound := Sum(p), 255 - greyThreshold;
    ThirdMargin(s, bound, AvgColor(p));
  }

  /** The pixel list the script writes back for `data`. */
  function Filtered(data: seq<Pixel>, greyThreshold: int): seq<Pixel>
  {
    Erased(data, GreyAt(greyThreshold))
  }

  /** Output pixel i is the sentinel if input pixel i is grey background, and input pixel i otherwise. */
  lemma FilteredAt(data: seq<Pixel>, greyThreshold: int, i: int)
    requires 0 <= i < |data|
    ensures |Filtered(data, greyThreshold)| == |data|
    ensures Filtered(data, greyThreshold)[i] ==
              if IsGreyBackground(data[i], greyThreshold) then Transparent else data[i]
  {
    ErasedAt(data, GreyAt(greyThreshold), i);
  }

  /** The sentinel is erased again exactly when the threshold is positive. */
  lemma TransparentIsBackground(greyThreshold: int)
    ensures IsGreyBackground(Transparent, greyThreshold) <==> greyThreshold >= 1
  {
    assert AvgColor(Transparent) == 255.0;
    assert ColorVariance(Transparent) == 0.0;
  }

  /** No pixel passes either test unless the threshold is positive. */
  lemma ErasedOnlyAboveZero(p: Pixel, greyThreshold: int)
    ensures IsGreyBackground(p, greyThreshold) ==> greyThreshold >= 1
  {
    ScaledTestExact(p, greyThreshold);
  }

  /** A pixel erased at one threshold is erased at every larger one. */
  lemma BackgroundMonotone(p: Pixel, lower: int, higher: int)
    requires lower <= higher && IsGreyBackground(p, lower)
    ensures IsGreyBackground(p, higher)
  {
    ScaledTestExact(p, lower);
    ScaledTestExact(p, higher);
  }

  /** A threshold of 0 (or below) erases nothing. */
  lemma NonPositiveThresholdKeepsAll(data: seq<Pixel>, greyThreshold: int)
    requires greyThreshold <= 0
    ensures Filtered(data, greyThreshold) == data
  {
    forall p ensures !IsGreyBackground(p, greyThreshold) {
      ErasedOnlyAboveZero(p, greyThreshold);
    }
    NothingErased(data, GreyAt(greyThreshold));
  }

  /** Erasing one pixel twice equals erasing it once at the larger threshold. */
  lemma ErasePixelTwice(p: Pixel, first: int, second: int)
    ensures ErasePixel(ErasePixel(p, GreyAt(first)), GreyAt(second)) ==
              ErasePixel(p, GreyAt(if first <= second then second else first))
  {
    TransparentIsBackground(second);
    ErasedOnlyAboveZero(p, first);
    if first <= second && IsGreyBackground(p, first) {
      BackgroundMonotone(p, first, second);
    } else if second <= first && IsGreyBackground(p, second) {
      BackgroundMonotone(p, second, first);
    }
  }

  /**
   * Running the filter twice, with any two thresholds, gives the same image
   * as one run with the larger threshold.
   */
  lemma FilterTwice(data: seq<Pixel>, first: int, second: int)
    ensures Filtered(Filtered(data, first), second) ==
              Filtered(data, if first <= second then second else first)
  {
    forall p
      ensures ErasePixel(ErasePixel(p, GreyAt(first)), GreyAt(second)) ==
                ErasePixel(p, GreyAt(if first <= second then second else first))
    {
      ErasePixelTwice(p, first, second);
    }
    EraseTwice(data, GreyAt(first), GreyAt(second), GreyAt(if first <= second then second else first));
  }

  /** The filter is idempotent at every threshold. */
  lemma FilterIdempotent(data: seq<Pixel>, greyThreshold: int)
    ensures Filtered(Filtered(data, greyThreshold), greyThreshold) == Filtered(data, greyThreshold)
  {
    FilterTwice(data, greyThreshold, greyThreshold);
  }

  /** Monotone in the threshold: a pixel made transparent stays so at a larger threshold. */
  lemma ErasedStaysErased(data: seq<Pixel>, lower: int, higher: int, i: int)
    requires lower <= higher && 0 <= i < |data|
    requires Filtered(data, lower)[i] == Transparent
    ensures Filtered(data, higher)[i] == Transparent
  {
    forall p | IsGreyBackground(p, lower) ensures IsGreyBackground(p, higher) {
      BackgroundMonotone(p, lower, higher);
    }
    ErasureMonotone(data, GreyAt(lower), GreyAt(higher), i);
  }

  /**
   * The three outputs of the script are nested: what the conservative output
   * erases the standard one erases, and what that erases the aggressive one does.
   */
  lemma ThresholdVariantsNested(data: seq<Pixel>)
    ensures forall i :: 0 <= i < |data| && Filtered(data, ConservativeThreshold)[i] == Transparent ==>
                          Filtered(data, StandardThreshold)[i] == Transparent
    ensures forall i :: 0 <= i < |data| && Filtered(data, StandardThreshold)[i] == Transparent ==>
                          Filtered(data, AggressiveThreshold)[i] == Transparent
  {
    forall i | 0 <= i < |data|
      ensures Filtered(data, ConservativeThreshold)[i] == Transparent ==> Filtered(data, StandardThreshold)[i] == Transparent
      ensures Filtered(data, StandardThreshold)[i] == Transparent ==> Filtered(data, AggressiveThreshold)[i] == Transparent
    {
      if Filtered(data, ConservativeThreshold)[i] == Transparent {
        ErasedStaysErased(data, ConservativeThreshold, StandardThreshold, i);
      }
      if Filtered(data, StandardThreshold)[i] == Transparent {
        ErasedStaysErased(data, StandardThreshold, AggressiveThreshold, i);
      }
    }
  }

  /** The test reads only R, G and B; the alpha `a` that the loop unpacks is unused. */
  lemma DecisionIgnoresAlpha(p: Pixel, q: Pixel, greyThreshold: int)
    requires SameColour(p, q)
    ensures IsGreyBackground(p, greyThreshold) <==> IsGreyBackground(q, greyThreshold)
  {
    assert AvgColor(p) == AvgColor(q);
    assert ColorVariance(p) == ColorVariance(q);
  }

  /**
   * Two images that differ only in alpha have the same positions erased and
   * the same positions kept.
   */
  lemma FilterIgnoresAlpha(data: seq<Pixel>, other: seq<Pixel>, greyThreshold: int)
    requires |data| == |other|
    requires forall i :: 0 <= i < |data| ==> SameColour(data[i], other[i])
    ensures forall i :: 0 <= i < |data| ==>
              (Filtered(data, greyThreshold)[i] == Transparent && Filtered(other, greyThreshold)[i] == Transparent) ||
              (Filtered(data, greyThreshold)[i] == data[i] && Filtered(other, greyThreshold)[i] == other[i])
  {
    forall p, q | SameColour(p, q)
      ensures IsGreyBackground(p, greyThreshold) == IsGreyBackground(q, greyThreshold)
    {
      DecisionIgnoresAlpha(p, q, greyThreshold);
    }
    ErasureIgnoresAlpha(data, other, GreyAt(greyThreshold));
  }

  /**
   * `remove_grey_background` without the PIL calls: walks the decoded pixels
   * and appends, for each, either the transparent sentinel or the pixel itself.
   */
  method RemoveGreyBackground(data: seq<Pixel>, greyThreshold: int := StandardThreshold)
    returns (newData: seq<Pixel>)
    ensures |newData| == |data|
    ensures forall i :: 0 <= i < |data| && AllChannelsAbove(data[i], 255 - greyThreshold) ==>
                          newData[i] == Transparent
    ensures forall i :: 0 <= i < |data| && IsLightGrey(data[i], greyThreshold) ==> newData[i] == Transparent
    ensures forall i :: 0 <= i < |data| && !IsGreyBackground(data[i], greyThreshold) ==> newData[i] == data[i]
    ensures newData == Filtered(data, greyThreshold)
  {
    newData := [];
    var n := 0;
    while n < |data|
      invariant 0 <= n <= |data|
      invariant newData == Filtered(data[..n], greyThreshold)
    {
      var item := data[n];
      var r, g, b := item.r, item.g, item.b;
      var avgColor := (r + g + b) as real / 3.0;
      var colorVariance := Max3(Abs(r as real - avgColor), Abs(g as real - avgColor), Abs(b as real - avgColor));
      assert data[..n + 1][..n] == data[..n];
      if (colorVariance < 30.0 && avgColor > (255 - greyThreshold) as real) ||
         (r > 255 - greyThreshold && g > 255 - greyThreshold && b > 255 - greyThreshold)
      {
        newData := newData + [Transparent];
      } else {
        newData := newData + [item];
      }
      n := n + 1;
    }
    assert data[..n] == data;
    forall i | 0 <= i < |data|
      ensures newData[i] == if IsGreyBackground(data[i], greyThreshold) then Transparent else data[i]
    {
      FilteredAt(data, greyThreshold, i);
    }
  }
}

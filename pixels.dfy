/**
 * 8-bit grayscale rasters and the background substitution of the grayscale conversion:
 * every pixel at or above the white threshold 240 becomes the 15% gray 217, every
 * other pixel is kept. The substitution is one masked assignment on the pixel array.
 */
module Pixels {

  /** One sample of an 8-bit single-channel ('L' mode) image. */
  type Pixel = x: int | 0 <= x < 256

  const WhiteThreshold: Pixel := 240
  const GrayBackground: Pixel := 217

  /** An image of `width` x `height` pixels, stored row by row. */
  datatype Raster = Raster(width: nat, height: nat, pixels: seq<Pixel>)

  type GrayImage = r: Raster | |r.pixels| == r.width * r.height witness Raster(0, 0, [])

  /** The pixels after the substitution. */
  function Substituted(s: seq<Pixel>): (r: seq<Pixel>)
    ensures |r| == |s|
    ensures forall i :: 0 <= i < |s| && s[i] >= 240 ==> r[i] == 217
    ensures forall i :: 0 <= i < |s| && s[i] < 240 ==> r[i] == s[i]
  {
    if s == [] then []
    else [if s[0] >= WhiteThreshold then GrayBackground else s[0]] + Substituted(s[1..])
  }

  /** No near-white pixel survives the substitution. */
  lemma SubstitutedHasNoWhite(s: seq<Pixel>)
    ensures forall i :: 0 <= i < |s| ==> Substituted(s)[i] < WhiteThreshold
  {
  }

  /** Substituting twice is substituting once. */
  lemma SubstitutedIdempotent(s: seq<Pixel>)
    ensures Substituted(Substituted(s)) == Substituted(s)
  {
    SubstitutedHasNoWhite(s);
  }

  /** The image with its white background replaced by gray. */
  function WithGrayBackground(img: GrayImage): GrayImage {
    Raster(img.width, img.height, Substituted(img.pixels))
  }

  /** The substitution keeps the image's dimensions and is idempotent on images. */
  lemma WithGrayBackgroundFacts(img: GrayImage)
    ensures WithGrayBackground(img).width == img.width
    ensures WithGrayBackground(img).height == img.height
    ensures forall i :: 0 <= i < |img.pixels| ==> WithGrayBackground(img).pixels[i] < WhiteThreshold
    ensures WithGrayBackground(WithGrayBackground(img)) == WithGrayBackground(img)
  {
    SubstitutedIdempotent(img.pixels);
  }

  /** `img_array[img_array >= 240] = 217`, written out as the loop the mask stands for. */
  method ReplaceWhiteBackground(a: array<Pixel>)
    modifies a
    ensures a[..] == Substituted(old(a[..]))
  {
    var i := 0;
    while i < a.Length
      invariant 0 <= i <= a.Length
      invariant forall k :: 0 <= k < i ==> a[k] == Substituted(old(a[..]))[k]
      invariant forall k :: i <= k < a.Length ==> a[k] == old(a[k])
    {
      if a[i] >= WhiteThreshold {
        a[i] := GrayBackground;
      }
      i := i + 1;
    }
  }
}

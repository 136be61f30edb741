/** The background recolourer: the top-left pixel gives the background colour,
    every pixel whose distance from it, as scored by `ColorDistance.Score`,
    passes the threshold test is selected, and the R, G and B channels of the
    selected pixels are overwritten with one colour; alpha is never written.
    The program scores in wrapping `int16` arithmetic; the Euclidean distance
    it intends is the `Unbounded` scoring.

    `ChangeBackground` states the result on values (an image as rows of
    pixels); `ChangeBackgroundColor` does the same to a height x width x 4
    array of bytes in place and is proved to produce that value.
 */
module BackgroundChanger {
  import opened ColorDistance

  /** One RGBA pixel. */
  datatype Pixel = Pixel(r: byte, g: byte, b: byte, a: byte)

  /** An image as a sequence of rows of pixels. */
  type Image = seq<seq<Pixel>>

  /** The only failure: there is no top-left pixel to take the background
      colour from (indexing `arr[0, 0]` raises). */
  datatype Error = EmptyImage

  datatype Result<T> = Ok(value: T) | Err(error: Error)

  function ColorOf(p: Pixel): (c: Color)
  {
    Color(p.r, p.g, p.b)
  }

  /** The reference colour of an image with at least one pixel. */
  function Reference(img: Image): (ref: Color)
    requires |img| > 0 && |img[0]| > 0
    ensures SquaredDistance(ColorOf(img[0][0]), ref) == 0
  {
    ColorOf(img[0][0])
  }

  /** The background mask: the positions whose colour is selected against
      the top-left colour. */
  ghost function Mask(img: Image, t: int, w: Widening): (m: set<(int, int)>)
    requires |img| > 0 && |img[0]| > 0
    ensures forall i, j :: (i, j) in m ==> 0 <= i < |img| && 0 <= j < |img[i]|
  {
    set i, j | 0 <= i < |img| && 0 <= j < |img[i]| && Selected(ColorOf(img[i][j]), Reference(img), t, w) :: (i, j)
  }

  /** One pixel after the masked overwrite. */
  function RecolorPixel(p: Pixel, ref: Color, t: int, color: Color, w: Widening): (q: Pixel)
    ensures q.a == p.a
    ensures Selected(ColorOf(p), ref, t, w) ==> ColorOf(q) == color
    ensures !Selected(ColorOf(p), ref, t, w) ==> q == p
  {
    if Selected(ColorOf(p), ref, t, w) then Pixel(color.r, color.g, color.b, p.a) else p
  }

  /** Every pixel after the masked overwrite against `ref`. */
  function Recolored(img: Image, ref: Color, t: int, color: Color, w: Widening): (out: Image)
    ensures |out| == |img|
    ensures forall i :: 0 <= i < |img| ==> |out[i]| == |img[i]|
    ensures forall i, j :: 0 <= i < |img| && 0 <= j < |img[i]| ==>
      out[i][j].a == img[i][j].a &&
      (if Selected(ColorOf(img[i][j]), ref, t, w) then ColorOf(out[i][j]) == color else out[i][j] == img[i][j])
  {
    seq(|img|, i requires 0 <= i < |img| =>
      seq(|img[i]|, j requires 0 <= j < |img[i]| => RecolorPixel(img[i][j], ref, t, color, w)))
  }

  /** The whole call on values: fails on an image without pixels, and
      otherwise recolours against the top-left pixel. */
  function ChangeBackground(img: Image, t: int, color: Color, w: Widening): (r: Result<Image>)
    ensures r.Err? <==> |img| == 0 || |img[0]| == 0
  {
    if |img| == 0 || |img[0]| == 0 then Err(EmptyImage)
    else Ok(Recolored(img, Reference(img), t, color, w))
  }

  /** The output has the input's height and the input's row lengths. */
  lemma ShapePreserved(img: Image, t: int, color: Color, w: Widening)
    requires |img| > 0 && |img[0]| > 0
    ensures var out := ChangeBackground(img, t, color, w).value;
      |out| == |img| && forall i :: 0 <= i < |img| ==> |out[i]| == |img[i]|
  {
  }

  /** Alpha is identical before and after, pixel by pixel. */
  lemma AlphaPreserved(img: Image, t: int, color: Color, w: Widening, i: int, j: int)
    requires |img| > 0 && |img[0]| > 0
    requires 0 <= i < |img| && 0 <= j < |img[i]|
    ensures ChangeBackground(img, t, color, w).value[i][j].a == img[i][j].a
  {
  }

  /** Every masked pixel ends with exactly the drawn colour in R, G and B. */
  lemma MaskedPixelRecolored(img: Image, t: int, color: Color, w: Widening, i: int, j: int)
    requires |img| > 0 && |img[0]| > 0
    requires (i, j) in Mask(img, t, w)
    ensures ColorOf(ChangeBackground(img, t, color, w).value[i][j]) == color
  {
  }

  /** Every pixel outside the mask is identical in all four channels. */
  lemma UnmaskedPixelUnchanged(img: Image, t: int, color: Color, w: Widening, i: int, j: int)
    requires |img| > 0 && |img[0]| > 0
    requires 0 <= i < |img| && 0 <= j < |img[i]| && (i, j) !in Mask(img, t, w)
    ensures ChangeBackground(img, t, color, w).value[i][j] == img[i][j]
  {
  }

  /** A pixel changes only by being in the mask: a pixel whose value differs
      after the call was masked and now carries the drawn colour. */
  lemma ChangedPixelWasMasked(img: Image, t: int, color: Color, w: Widening, i: int, j: int)
    requires |img| > 0 && |img[0]| > 0
    requires 0 <= i < |img| && 0 <= j < |img[i]|
    requires ChangeBackground(img, t, color, w).value[i][j] != img[i][j]
    ensures (i, j) in Mask(img, t, w)
    ensures ColorOf(ChangeBackground(img, t, color, w).value[i][j]) == color
  {
  }

  /** With a positive threshold the top-left pixel is in the mask and
      takes the drawn colour. */
  lemma TopLeftRecolored(img: Image, t: int, color: Color, w: Widening)
    requires |img| > 0 && |img[0]| > 0 && 0 < t
    ensures (0, 0) in Mask(img, t, w)
    ensures ColorOf(ChangeBackground(img, t, color, w).value[0][0]) == color
  {
    ReferenceSelected(Reference(img), t, w);
  }

  /** A threshold of zero or below masks nothing and returns the input. */
  lemma NonPositiveThresholdIsIdentity(img: Image, t: int, color: Color, w: Widening)
    requires |img| > 0 && |img[0]| > 0 && t <= 0
    ensures Mask(img, t, w) == {}
    ensures ChangeBackground(img, t, color, w) == Ok(img)
  {
    var out := Recolored(img, Reference(img), t, color, w);
    forall i | 0 <= i < |img|
      ensures out[i] == img[i]
    {
      forall j | 0 <= j < |img[i]|
        ensures out[i][j] == img[i][j]
      {
        NonPositiveThresholdSelectsNothing(ColorOf(img[i][j]), Reference(img), t, w);
      }
    }
    assert out == img;
  }

  /** Raising the threshold never shrinks the mask. */
  lemma MaskMonotone(img: Image, t1: int, t2: int, w: Widening)
    requires |img| > 0 && |img[0]| > 0 && t1 <= t2
    ensures Mask(img, t1, w) <= Mask(img, t2, w)
  {
    forall p | p in Mask(img, t1, w)
      ensures p in Mask(img, t2, w)
    {
      SelectedMonotone(ColorOf(img[p.0][p.1]), Reference(img), t1, t2, w);
    }
  }

  /** An image of one colour, with a positive threshold, becomes entirely
      the drawn colour, alpha unchanged. */
  lemma UniformImageFullyRecolored(img: Image, t: int, color: Color, w: Widening)
    requires |img| > 0 && |img[0]| > 0 && 0 < t
    requires forall i, j :: 0 <= i < |img| && 0 <= j < |img[i]| ==> ColorOf(img[i][j]) == ColorOf(img[0][0])
    ensures forall i, j :: 0 <= i < |img| && 0 <= j < |img[i]| ==>
      ChangeBackground(img, t, color, w).value[i][j] == Pixel(color.r, color.g, color.b, img[i][j].a)
  {
    ReferenceSelected(Reference(img), t, w);
  }

  /** An image that agrees pixel by pixel with the masked overwrite of
      `before` is that overwrite. */
  lemma RecoloredPointwise(before: Image, after: Image, ref: Color, t: int, color: Color, w: Widening)
    requires |after| == |before|
    requires forall y :: 0 <= y < |before| ==> |after[y]| == |before[y]|
    requires forall y, x :: 0 <= y < |before| && 0 <= x < |before[y]| ==>
      after[y][x] == RecolorPixel(before[y][x], ref, t, color, w)
    ensures after == Recolored(before, ref, t, color, w)
  {
    var expected := Recolored(before, ref, t, color, w);
    forall y | 0 <= y < |before|
      ensures after[y] == expected[y]
    {
    }
  }

  /** Status of the in-place call. */
  datatype Status = Done | Failed(error: Error)

  /** The pixel at row `i`, column `j` of a height x width x 4 array. */
  function PixelAt(arr: array3<byte>, i: int, j: int): (p: Pixel)
    reads arr
    requires arr.Length2 == 4 && 0 <= i < arr.Length0 && 0 <= j < arr.Length1
  {
    Pixel(arr[i, j, 0], arr[i, j, 1], arr[i, j, 2], arr[i, j, 3])
  }

  /** The image an array holds. */
  function Snapshot(arr: array3<byte>): (img: Image)
    reads arr
    requires arr.Length2 == 4
    ensures |img| == arr.Length0
    ensures forall i :: 0 <= i < arr.Length0 ==> |img[i]| == arr.Length1
    ensures forall i, j :: 0 <= i < arr.Length0 && 0 <= j < arr.Length1 ==> img[i][j] == PixelAt(arr, i, j)
  {
    seq(arr.Length0, i reads arr requires 0 <= i < arr.Length0 =>
      seq(arr.Length1, j reads arr requires 0 <= j < arr.Length1 => PixelAt(arr, i, j)))
  }

  /** Overwrites R, G and B of pixel (`i`, `j`) with `color` if it is
      selected against `ref`; nothing else changes. */
  method RecolorPixelAt(arr: array3<byte>, i: int, j: int, ref: Color, t: int, color: Color, w: Widening)
    requires arr.Length2 == 4 && 0 <= i < arr.Length0 && 0 <= j < arr.Length1
    modifies arr
    ensures PixelAt(arr, i, j) == RecolorPixel(old(PixelAt(arr, i, j)), ref, t, color, w)
    ensures forall y, x :: 0 <= y < arr.Length0 && 0 <= x < arr.Length1 && (y != i || x != j) ==>
      PixelAt(arr, y, x) == old(PixelAt(arr, y, x))
  {
    if Selected(ColorOf(PixelAt(arr, i, j)), ref, t, w) {
      arr[i, j, 0] := color.r;
      arr[i, j, 1] := color.g;
      arr[i, j, 2] := color.b;
    }
  }

  /** Applies the masked overwrite to every pixel of row `i`. */
  method RecolorRow(arr: array3<byte>, i: int, ref: Color, t: int, color: Color, w: Widening)
    requires arr.Length2 == 4 && 0 <= i < arr.Length0
    modifies arr
    ensures forall x :: 0 <= x < arr.Length1 ==>
      PixelAt(arr, i, x) == RecolorPixel(old(PixelAt(arr, i, x)), ref, t, color, w)
    ensures forall y, x :: 0 <= y < arr.Length0 && 0 <= x < arr.Length1 && y != i ==>
      PixelAt(arr, y, x) == old(PixelAt(arr, y, x))
  {
    var j := 0;
    while j < arr.Length1
      invariant 0 <= j <= arr.Length1
      invariant forall x :: 0 <= x < j ==>
        PixelAt(arr, i, x) == RecolorPixel(old(PixelAt(arr, i, x)), ref, t, color, w)
      invariant forall y, x :: 0 <= y < arr.Length0 && 0 <= x < arr.Length1 && (y != i || j <= x) ==>
        PixelAt(arr, y, x) == old(PixelAt(arr, y, x))
    {
      RecolorPixelAt(arr, i, j, ref, t, color, w);
      j := j + 1;
    }
  }

  /** Recolours the background of `arr` in place. The mask bit of a pixel is
      taken from its value before it is written, and the reference colour is
      read before any pixel is, so the result is the mask of the original
      array applied to it. */
  method ChangeBackgroundColor(arr: array3<byte>, threshold: int, color: Color, w: Widening)
    returns (status: Status)
    requires arr.Length2 == 4
    modifies arr
    ensures ChangeBackground(old(Snapshot(arr)), threshold, color, w) ==
              (if status == Done then Ok(Snapshot(arr)) else Err(EmptyImage))
    ensures status != Done ==> status == Failed(EmptyImage) && unchanged(arr)
  {
    var height, width := arr.Length0, arr.Length1;
    if height == 0 || width == 0 {
      return Failed(EmptyImage);
    }
    ghost var before := Snapshot(arr);
    var reference := ColorOf(PixelAt(arr, 0, 0));
    assert reference == Reference(before);
    var i := 0;
    while i < height
      invariant 0 <= i <= height
      invariant forall y, x :: 0 <= y < height && 0 <= x < width ==>
        PixelAt(arr, y, x) == if y < i then RecolorPixel(before[y][x], reference, threshold, color, w) else before[y][x]
    {
      RecolorRow(arr, i, reference, threshold, color, w);
      i := i + 1;
    }
    status := Done;
    RecoloredPointwise(before, Snapshot(arr), reference, threshold, color, w);
  }
}

/**
 * CropImage without its file and codec I/O: decide whether to crop, run the
 * search, and copy the chosen region into a fresh RGBA buffer whose origin is
 * the region's top-left corner.
 */
module Materialize {
  import opened Wrappers
  import opened Geometry
  import opened Luminance
  import opened Uniformity
  import opened CropSearch

  /** A pixel of an image.RGBA buffer: four 8-bit, alpha-premultiplied channels. */
  datatype RGBA8 = RGBA8(r: Channel8, g: Channel8, b: Channel8, a: Channel8)

  /** color.RGBAModel: each 16-bit channel shifted right by 8. */
  function ToRGBA8(c: Color): (p: RGBA8)
    ensures p.r == To8(c.r) && p.g == To8(c.g) && p.b == To8(c.b) && p.a == To8(c.a)
  {
    RGBA8(To8(c.r), To8(c.g), To8(c.b), To8(c.a))
  }

  /** Perceived brightness of a stored 8-bit pixel, with the weights of calculateBrightness. */
  function Brightness8(p: RGBA8): real {
    Weighted(p.r, p.g, p.b)
  }

  /** Storing a colour in the buffer keeps exactly the bits the brightness formula reads. */
  lemma StoredBrightness(c: Color)
    ensures Brightness8(ToRGBA8(c)) == Brightness(c)
  {
  }

  /** out(x - minX, y - minY) holds in(x, y) for every pixel (x, y) of r. */
  ghost predicate Translated(pixels: array2<RGBA8>, img: Image, r: Rect)
    reads pixels
  {
    forall x, y :: 0 <= x < pixels.Length0 && 0 <= y < pixels.Length1 ==>
      pixels[x, y] == ToRGBA8(img.at(r.minX + x, r.minY + y))
  }

  /** The copy loop of CropImage: a fresh Dx by Dy buffer, written row by row. */
  method CopyRegion(img: Image, r: Rect) returns (pixels: array2<RGBA8>)
    requires r.Canonical()
    ensures fresh(pixels)
    ensures pixels.Length0 == r.Dx() && pixels.Length1 == r.Dy()
    ensures Translated(pixels, img, r)
  {
    pixels := new RGBA8[r.Dx(), r.Dy()];
    var y := r.minY;
    while y < r.maxY
      invariant r.minY <= y <= r.maxY
      invariant forall i, j :: 0 <= i < pixels.Length0 && 0 <= j < y - r.minY ==>
        pixels[i, j] == ToRGBA8(img.at(r.minX + i, r.minY + j))
    {
      var row, x := y - r.minY, r.minX;
      while x < r.maxX
        invariant r.minX <= x <= r.maxX
        invariant forall i, j :: 0 <= i < pixels.Length0 && 0 <= j < y - r.minY ==>
          pixels[i, j] == ToRGBA8(img.at(r.minX + i, r.minY + j))
        invariant forall i :: 0 <= i < x - r.minX ==> pixels[i, row] == ToRGBA8(img.at(r.minX + i, y))
      {
        pixels[x - r.minX, row] := ToRGBA8(img.at(x, y));
        x := x + 1;
      }
      y := y + 1;
    }
  }

  /** The one error the engine reports: "crop would result in empty image". */
  datatype CropError = EmptyCrop

  /** The two messages of a CropResult; the cropped percentage itself is not modelled. */
  datatype Message = AlreadyUniform | CroppedArea

  datatype CropResult = CropResult(wasCropped: bool, message: Message)

  /** Same size: the test in CropImage that decides between copying and cropping. */
  predicate SameSize(r: Rect, bounds: Rect) {
    r.Dx() == bounds.Dx() && r.Dy() == bounds.Dy()
  }

  /** A rectangle inside the bounds with the bounds' size is the bounds themselves. */
  lemma SameSizeWithinIsBounds(r: Rect, bounds: Rect)
    requires r.Within(bounds)
    ensures SameSize(r, bounds) <==> r == bounds
  {
  }

  /**
   * CropImage on a decoded image: copy unchanged when the whole image is
   * uniform or the search ends where it started; report the search's error;
   * otherwise copy the crop rectangle into a fresh buffer. The ghost trace and
   * moves are those of the search, when it ran.
   */
  method CropImage(img: Image, tolerance: real, maxCropPercent: real)
    returns (result: Result<CropResult, CropError>, cropRect: Rect, pixels: array2?<RGBA8>,
             ghost trace: seq<Rect>, ghost moves: seq<Option<Side>>)
    requires img.bounds.Canonical()
    ensures IsUniform(img, img.bounds, tolerance) ==>
      result == Success(CropResult(false, AlreadyUniform)) && cropRect == img.bounds && pixels == null
    ensures !IsUniform(img, img.bounds, tolerance) ==>
      && Rounds(img, img.bounds, tolerance, CropLimits(img.bounds, maxCropPercent), trace, moves)
      && trace[0] == img.bounds && |moves| <= MaxIterations(img.bounds)
    ensures result.Failure? ==> !trace[|moves|].Positive() && pixels == null
    ensures result.Success? ==> cropRect.Within(img.bounds)
    ensures result.Success? && !IsUniform(img, img.bounds, tolerance) ==>
      && cropRect == trace[|moves|] && cropRect.Canonical()
      && (Decide(img, img.bounds, tolerance, CropLimits(img.bounds, maxCropPercent), cropRect) == Stop
          || |moves| == MaxIterations(img.bounds))
    ensures result.Success? ==> (result.value.wasCropped <==> !SameSize(cropRect, img.bounds))
    ensures result == Success(CropResult(false, AlreadyUniform)) <==>
      result.Success? && cropRect == img.bounds
    ensures result.Success? && result.value.wasCropped ==>
      && result.value.message == CroppedArea
      && cropRect.Positive()
      && pixels != null && fresh(pixels)
      && pixels.Length0 == cropRect.Dx() && pixels.Length1 == cropRect.Dy()
      && Translated(pixels, img, cropRect)
    ensures result.Success? && !result.value.wasCropped ==> pixels == null
  {
    var bounds := img.bounds;
    if IsUniform(img, bounds, tolerance) {
      return Success(CropResult(false, AlreadyUniform)), bounds, null, [bounds], [];
    }
    var failed;
    cropRect, failed, trace, moves := FindUniformCrop(img, bounds, tolerance, maxCropPercent);
    if failed {
      return Failure(EmptyCrop), cropRect, null, trace, moves;
    }
    SameSizeWithinIsBounds(cropRect, bounds);
    if cropRect.Dx() == bounds.Dx() && cropRect.Dy() == bounds.Dy() {
      return Success(CropResult(false, AlreadyUniform)), cropRect, null, trace, moves;
    }
    pixels := CopyRegion(img, cropRect);
    result := Success(CropResult(true, CroppedArea));
  }
}

/** Pixel buffers as the browser's canvas hands them out: RGBA bytes in
    row-major order, wrapped in an ImageData with a width and a height. */
module Pixels {
  import opened Wrappers

  /** One channel value, as stored in a Uint8ClampedArray. */
  newtype byte = x: int | 0 <= x < 256

  const BYTES_PER_PIXEL: nat := 4

  /** An ImageData: its `data` array and the dimensions it was built with. */
  datatype ImageData = ImageData(data: seq<byte>, width: nat, height: nat)

  /** The size relation every ImageData the browser builds satisfies. */
  predicate WellFormed(img: ImageData) {
    0 < |img.data| && |img.data| == BYTES_PER_PIXEL * (img.width * img.height)
  }

  /** A decoded image file, as drawn onto the processing canvas: its
      dimensions and the RGBA bytes the decoder produced for them. */
  datatype DecodedImage = DecodedImage(width: nat, height: nat, pixels: seq<byte>)

  type Bitmap = b: DecodedImage | |b.pixels| == BYTES_PER_PIXEL * (b.width * b.height)
    witness DecodedImage(0, 0, [])

  /** `new ImageData(data, sw, sh)`, following the constructor steps of the
      HTML standard: the byte length must be a non-zero multiple of 4
      (else InvalidStateError), the pixel count a multiple of `sw` (else
      IndexSizeError, which a zero `sw` always raises) and the quotient
      equal to `sh` (else IndexSizeError). A thrown error is `None`. */
  function NewImageData(data: seq<byte>, sw: nat, sh: nat): (r: Option<ImageData>)
    ensures r.Some? <==> WellFormed(ImageData(data, sw, sh))
    ensures r.Some? ==> r.value == ImageData(data, sw, sh)
  {
    var length := |data|;
    ConstructorChecksSize(length, sw, sh);
    if length == 0 || length % BYTES_PER_PIXEL != 0 then None
    else if sw == 0 || (length / BYTES_PER_PIXEL) % sw != 0 then None
    else if (length / BYTES_PER_PIXEL) / sw != sh then None
    else Some(ImageData(data, sw, sh))
  }

  /** The three checks of the ImageData constructor together accept exactly
      the byte lengths `4 * sw * sh` that are not zero. */
  lemma ConstructorChecksSize(length: nat, sw: nat, sh: nat)
    ensures (length > 0 && length % BYTES_PER_PIXEL == 0 && sw > 0
             && (length / BYTES_PER_PIXEL) % sw == 0 && (length / BYTES_PER_PIXEL) / sw == sh)
        <==> (length > 0 && length == BYTES_PER_PIXEL * (sw * sh))
  {
    if length > 0 && length == BYTES_PER_PIXEL * (sw * sh) {
      assert length / BYTES_PER_PIXEL == sw * sh;
      assert sw > 0;
      ProductDivides(sw, sh);
    }
  }

  /** `getImageData(0, 0, width, height)` on a canvas holding `bitmap`:
      a zero width or height throws IndexSizeError. */
  function GetImageData(bitmap: Bitmap): (r: Option<ImageData>)
    ensures r.Some? <==> bitmap.width > 0 && bitmap.height > 0
    ensures r.Some? ==> WellFormed(r.value) && r.value.data == bitmap.pixels
    ensures r.Some? ==> r.value.width == bitmap.width && r.value.height == bitmap.height
  {
    if bitmap.width == 0 || bitmap.height == 0 then None
    else Some(ImageData(bitmap.pixels, bitmap.width, bitmap.height))
  }

  /** Division of `w * h` by `w` is exact and gives `h` back. */
  lemma ProductDivides(w: nat, h: nat)
    requires w > 0
    ensures (w * h) % w == 0 && (w * h) / w == h
  {
    var q, r := (w * h) / w, (w * h) % w;
    assert w * h == w * q + r && 0 <= r < w;
    assert w * (h - q) == r by {
      assert w * (h - q) == w * h - w * q;
    }
    if h - q >= 1 {
      AtLeastOneMultiple(w, h - q);
    } else if h - q <= -1 {
      AtLeastOneMultiple(w, q - h);
    }
  }

  lemma AtLeastOneMultiple(w: nat, k: int)
    requires k >= 1
    ensures w * k >= w
  {
  }
}

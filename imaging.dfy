/**
 * The image codec (PIL) as compress_pdf uses it: decode to RGB, resize, and
 * encode as JPEG. The three stages are foreign and partial; the only logic of
 * the program's own is the target size.
 */
module Imaging {
  import opened Common

  /** A decoded image; the samples are carried, never inspected. */
  datatype Raster = Raster(width: nat, height: nat, samples: Bytes)

  /** The codec's three stages; None means the stage raised.
      decodeRgb: Image.open(BytesIO(bytes)).convert("RGB")
      resize:    image.resize((width, height), resample=LANCZOS)
      encodeJpeg: image.save(buffer, format="JPEG", quality=quality) */
  datatype Codec = Codec(
    decodeRgb: Bytes -> Option<Raster>,
    resize: (Raster, nat, nat) -> Option<Raster>,
    encodeJpeg: (Raster, int) -> Option<Bytes>)

  /** One axis of the downscale rule max(1, n // 2). */
  function Halve(n: nat): (r: nat)
    ensures r >= 1
    ensures n >= 2 ==> 2 * r <= n < 2 * r + 2
    ensures n <= 1 ==> r == 1
    ensures n >= 1 ==> r <= n
    ensures n >= 2 ==> r < n
  {
    if n / 2 < 1 then 1 else n / 2
  }

  /** The replacement stream for one image: decode, halve both axes, re-encode
      at `quality`; None as soon as one stage raises. A stream is produced only
      when decoding succeeded, the resize to (Halve(width), Halve(height)) of the
      decoded raster succeeded, and it is the JPEG encoding of that raster at
      exactly `quality`. */
  function Recompress(codec: Codec, image: Bytes, quality: int): (r: Option<Bytes>)
    ensures r.Some? ==>
      && codec.decodeRgb(image).Some?
      && var d := codec.decodeRgb(image).value;
      && codec.resize(d, Halve(d.width), Halve(d.height)).Some?
      && r == codec.encodeJpeg(codec.resize(d, Halve(d.width), Halve(d.height)).value, quality)
    ensures codec.decodeRgb(image).None? ==> r.None?
  {
    match codec.decodeRgb(image)
    case None => None
    case Some(d) =>
      match codec.resize(d, Halve(d.width), Halve(d.height))
      case None => None
      case Some(small) => codec.encodeJpeg(small, quality)
  }
}

/** The pure helpers the routes and the store share: the expiration clamp
    and the decisions of the image sanitizer. The pixel work itself (decode,
    thumbnail, re-encode without EXIF) belongs to the imaging library and is
    taken as an oracle. */
module Utils {
  import opened Wrappers
  import opened Text
  import Settings

  /** Longest lifetime a paste may ask for: four weeks, in seconds. */
  const MaxExpiration: int := 2419200

  /** Lifetime given to a request that asks for none (or a negative one): a day. */
  const DefaultExpiration: int := 86400

  /** `sanitize_expiration` after `int(val)`: a non-positive request becomes a
      day, a request beyond four weeks is cut to four weeks, and everything
      in between, short lifetimes included, is kept as asked. */
  function SanitizeExpiration(val: int): (r: int)
    ensures 1 <= r <= MaxExpiration
    ensures val <= 0 ==> r == DefaultExpiration
    ensures val > MaxExpiration ==> r == MaxExpiration
    ensures 0 < val <= MaxExpiration ==> r == val
  {
    var v := if val <= 0 then DefaultExpiration else val;
    if v > MaxExpiration then MaxExpiration else v
  }

  /** Clamping a clamped value changes nothing. */
  lemma SanitizeIdempotent(val: int)
    ensures SanitizeExpiration(SanitizeExpiration(val)) == SanitizeExpiration(val)
  {
  }

  /** The dimensions of a decoded image. */
  datatype Picture = Picture(height: nat, width: nat)

  /** What the content sniffer and the imaging library answer, taken as
      given: the mime type of a buffer, the decoded picture (or a failure to
      identify one), the thumbnail a picture is shrunk to, and the encoded
      bytes of a picture saved in a format. */
  datatype Imaging = Imaging(
    sniff: seq<byte> -> string,
    open: seq<byte> -> Option<Picture>,
    shrink: Picture -> Picture,
    save: (Picture, string) -> seq<byte>)

  /** The formats the sanitizer agrees to re-encode. */
  predicate SanitizableExtension(extension: string) {
    extension in ["png", "jpg", "jpeg"]
  }

  function InvalidExtension(extension: string): string {
    "invalid extension '" + extension + "'"
  }

  /** Raised by the imaging library when the buffer is no picture it knows. */
  const UnidentifiedImage: string := "cannot identify image file"

  /** `max([image.height, image.width]) > max_image_bounding_box[0]` */
  predicate NeedsResize(p: Picture) {
    (if p.height > p.width then p.height else p.width) > Settings.MaxImageBoundingBox.0
  }

  /** `image_sanitize`: refuses an extension it does not handle, decodes the
      buffer, shrinks it when its long side exceeds the box, and re-encodes
      it in the requested format. */
  function ImageSanitize(buffer: seq<byte>, extension: string, im: Imaging): (r: Result<seq<byte>, string>)
    ensures r == Err(InvalidExtension(extension)) <==> !SanitizableExtension(extension)
    ensures r.Ok? ==> SanitizableExtension(extension) && im.open(buffer).Some?
  {
    if !SanitizableExtension(extension) then Err(InvalidExtension(extension))
    else match im.open(buffer)
      case None => Err(UnidentifiedImage)
      case Some(pic) =>
        var fitted := if NeedsResize(pic) then im.shrink(pic) else pic;
        Ok(im.save(fitted, extension))
  }

  /** Only the long side is compared, and only with the box's long side. */
  lemma ResizeThreshold(p: Picture)
    ensures NeedsResize(p) <==> p.height > 3840 || p.width > 3840
  {
  }

  /** So a picture taller than the box's short side is left at its size as
      long as neither side exceeds 3840. */
  lemma TallPictureKept(p: Picture)
    requires Settings.MaxImageBoundingBox.1 < p.height <= Settings.MaxImageBoundingBox.0
    requires p.width <= Settings.MaxImageBoundingBox.0
    ensures !NeedsResize(p)
  {
  }

  /** A picture that fits is re-encoded as decoded, one that does not is
      re-encoded from its thumbnail. */
  lemma SanitizeOutput(buffer: seq<byte>, extension: string, im: Imaging, pic: Picture)
    requires SanitizableExtension(extension) && im.open(buffer) == Some(pic)
    ensures !NeedsResize(pic) ==> ImageSanitize(buffer, extension, im) == Ok(im.save(pic, extension))
    ensures NeedsResize(pic) ==> ImageSanitize(buffer, extension, im) == Ok(im.save(im.shrink(pic), extension))
  {
  }
}

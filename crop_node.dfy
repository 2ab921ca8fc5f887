/** The backend half of the cropper (`InteractiveCropNode.load_and_crop`):
    the `crop_data` string "x,y,w,h" is read into four integers, falls back to
    the whole image when it cannot be read, and is clamped so that the crop box
    handed to PIL is non-empty and lies inside the `width` x `height` image. */
module CropNode {
  import opened Wrappers
  import opened DecimalText

  /** A crop rectangle in image pixels: origin and size. */
  datatype Rect = Rect(x: int, y: int, w: int, h: int)

  /** A PIL crop box: left, upper, right and lower edge, right and lower exclusive. */
  datatype Box = Box(left: int, upper: int, right: int, lower: int)

  /** `map(int, parts)` consumed in full: every piece read by `int()`, or
      `None` (Python's `ValueError`) when `int()` rejects any of them. */
  function ParseEach(parts: seq<string>): (r: Option<seq<int>>)
    ensures r.Some? <==> forall i :: 0 <= i < |parts| ==> ParseInt(parts[i]).Some?
    ensures r.Some? ==> (|r.value| == |parts| &&
      forall i :: 0 <= i < |parts| ==> ParseInt(parts[i]) == Some(r.value[i]))
    decreases |parts|
  {
    if parts == [] then Some([])
    else
      match (ParseInt(parts[0]), ParseEach(parts[1..]))
      case (Some(v), Some(vs)) => Some([v] + vs)
      case _ => None
  }

  /** `x, y, w, h = map(int, crop_data.split(','))`: `Some` with the four
      integers in order, or `None` where Python raises `ValueError` (a piece
      `int()` rejects, or not exactly four values to unpack). */
  function ParseCropData(cropData: string): (r: Option<Rect>)
    ensures Occurrences(cropData, ',') != 3 ==> r.None?
  {
    match ParseEach(Split(cropData, ','))
    case Some(v) => if |v| == 4 then Some(Rect(v[0], v[1], v[2], v[3])) else None
    case None => None
  }

  /** `crop_data` is read exactly when it splits into four pieces that
      `int()` accepts each. */
  lemma ParseCropDataAccepts(cropData: string)
    ensures ParseCropData(cropData).Some? <==>
      var parts := Split(cropData, ',');
      |parts| == 4 && forall i :: 0 <= i < 4 ==> ParseInt(parts[i]).Some?
  {
  }

  /** The four integers of a rectangle spelled "x,y,w,h", the format of the
      node's `crop_data` input (whose default is "0,0,512,512"). */
  function FormatCropData(r: Rect): string {
    Join([FormatInt(r.x), FormatInt(r.y), FormatInt(r.w), FormatInt(r.h)], ',')
  }

  /** Four comma-free pieces that `int()` accepts, joined by commas, are read
      back as those four integers in order. */
  lemma ParseFourPieces(a: string, b: string, c: string, d: string, r: Rect)
    requires ',' !in a && ',' !in b && ',' !in c && ',' !in d
    requires ParseInt(a) == Some(r.x) && ParseInt(b) == Some(r.y)
    requires ParseInt(c) == Some(r.w) && ParseInt(d) == Some(r.h)
    ensures ParseCropData(Join([a, b, c, d], ',')) == Some(r)
  {
    var parts := [a, b, c, d];
    assert forall i :: 0 <= i < |parts| ==> ',' !in parts[i];
    SplitJoin(parts, ',');
    var v := ParseEach(parts).value;
    assert ParseInt(parts[0]) == Some(v[0]) && ParseInt(parts[1]) == Some(v[1]);
    assert ParseInt(parts[2]) == Some(v[2]) && ParseInt(parts[3]) == Some(v[3]);
  }

  /** Each of the four integers is within `int()`'s digit limit. */
  predicate WithinDigitLimits(r: Rect) {
    WithinDigitLimit(r.x) && WithinDigitLimit(r.y) && WithinDigitLimit(r.w) && WithinDigitLimit(r.h)
  }

  /** `crop_data` spelled from a rectangle within the digit limit reads back
      as that rectangle. */
  lemma ParseFormatCropData(r: Rect)
    requires WithinDigitLimits(r)
    ensures ParseCropData(FormatCropData(r)) == Some(r)
  {
    ParseFormatInt(r.x);
    ParseFormatInt(r.y);
    ParseFormatInt(r.w);
    ParseFormatInt(r.h);
    ParseFourPieces(FormatInt(r.x), FormatInt(r.y), FormatInt(r.w), FormatInt(r.h), r);
  }

  function Min(a: int, b: int): int {
    if a <= b then a else b
  }

  function Max(a: int, b: int): int {
    if a >= b then a else b
  }

  /** The rectangle is non-empty and lies inside a `width` x `height` image. */
  predicate InImage(r: Rect, width: int, height: int) {
    0 <= r.x && 1 <= r.w && r.x + r.w <= width &&
    0 <= r.y && 1 <= r.h && r.y + r.h <= height
  }

  /** The sanity clamp: the origin into the last pixel column and row, then
      the size to at least one pixel and at most what is left of the image. */
  function ClampCrop(r: Rect, width: int, height: int): (c: Rect)
    ensures width >= 1 ==> 0 <= c.x <= width - 1 && 1 <= c.w <= width - c.x
    ensures height >= 1 ==> 0 <= c.y <= height - 1 && 1 <= c.h <= height - c.y
  {
    var x := Max(0, Min(r.x, width - 1));
    var y := Max(0, Min(r.y, height - 1));
    var w := Max(1, Min(r.w, width - x));
    var h := Max(1, Min(r.h, height - y));
    Rect(x, y, w, h)
  }

  /** Clamping leaves a rectangle alone exactly when it already lies inside
      the image and is non-empty. */
  lemma ClampFixesExactlyInImage(r: Rect, width: int, height: int)
    requires width >= 1 && height >= 1
    ensures ClampCrop(r, width, height) == r <==> InImage(r, width, height)
  {
  }

  lemma ClampIdempotent(r: Rect, width: int, height: int)
    requires width >= 1 && height >= 1
    ensures ClampCrop(ClampCrop(r, width, height), width, height) == ClampCrop(r, width, height)
  {
    ClampFixesExactlyInImage(ClampCrop(r, width, height), width, height);
  }

  /** `crop_box = (x, y, x + w, y + h)`: PIL's box has the rectangle's origin
      as its upper-left corner and the rectangle's width and height. */
  function CropBoxOf(r: Rect): (b: Box)
    ensures b.left == r.x && b.upper == r.y
    ensures b.right - b.left == r.w && b.lower - b.upper == r.h
  {
    Box(r.x, r.y, r.x + r.w, r.y + r.h)
  }

  /** The crop box `load_and_crop` hands to `img.crop` for a `width` x
      `height` image: parsed or whole-image rectangle, clamped. */
  function LoadAndCrop(cropData: string, width: int, height: int): (b: Box)
    ensures width >= 1 && height >= 1 ==>
      0 <= b.left < b.right <= width && 0 <= b.upper < b.lower <= height
  {
    var parsed := match ParseCropData(cropData)
      case Some(r) => r
      case None => Rect(0, 0, width, height);
    CropBoxOf(ClampCrop(parsed, width, height))
  }

  /** A `crop_data` that cannot be read crops the whole image. */
  lemma FallbackIsWholeImage(cropData: string, width: int, height: int)
    requires width >= 1 && height >= 1
    requires ParseCropData(cropData).None?
    ensures LoadAndCrop(cropData, width, height) == Box(0, 0, width, height)
  {
    ClampFixesExactlyInImage(Rect(0, 0, width, height), width, height);
  }

  /** Inside an image whose sides are within the digit limit, every
      rectangle is within it too. */
  lemma InImageWithinDigitLimits(r: Rect, width: int, height: int)
    requires InImage(r, width, height)
    requires WithinDigitLimit(width) && WithinDigitLimit(height)
    ensures WithinDigitLimits(r)
  {
    FormatNatLengthMonotone(r.x, width);
    FormatNatLengthMonotone(r.w, width);
    FormatNatLengthMonotone(r.y, height);
    FormatNatLengthMonotone(r.h, height);
  }

  /** A rectangle that already lies inside the image is cropped as it is. */
  lemma InImageCropIsExact(r: Rect, width: int, height: int)
    requires InImage(r, width, height)
    requires WithinDigitLimit(width) && WithinDigitLimit(height)
    ensures LoadAndCrop(FormatCropData(r), width, height) == CropBoxOf(r)
  {
    InImageWithinDigitLimits(r, width, height);
    ParseFormatCropData(r);
    ClampFixesExactlyInImage(r, width, height);
  }
}

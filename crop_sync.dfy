/** The hand-off between the two halves: the text the browser writes to the
    `crop_data` widget on release is what the backend node reads, so the box
    the user left on screen is the box the image is cropped to. */
module CropSync {
  import opened Wrappers
  import DecimalText
  import CropNode
  import opened CropperUi

  /** The integers the browser commits for a box: each component rounded. */
  function Committed(c: Rect): CropNode.Rect {
    CropNode.Rect(Round(c.x), Round(c.y), Round(c.w), Round(c.h))
  }

  /** The committed text is the canonical "x,y,w,h" spelling of the rounded box. */
  lemma CommitTextIsCropData(c: Rect)
    ensures CommitText(c) == CropNode.FormatCropData(Committed(c))
  {
    DecimalText.JoinSplit(CommitText(c), ',');
  }

  /** The backend reads the committed text back as exactly the four rounded
      components, in order, as long as they are within `int()`'s digit limit. */
  lemma CommitReadsBack(c: Rect)
    requires CropNode.WithinDigitLimits(Committed(c))
    ensures CropNode.ParseCropData(CommitText(c)) == Some(Committed(c))
  {
    CommitTextIsCropData(c);
    CropNode.ParseFormatCropData(Committed(c));
  }

  /** A box dragged inside the image is cropped at its rounded position;
      its rounded size is kept except where rounding pushes it past the
      image's right or bottom edge, which costs at most one pixel. The image's
      sides are within `int()`'s digit limit. */
  lemma DraggedBoxIsCroppedAsCommitted(c: Rect, image: ImageSize)
    requires image.width >= 1 && image.height >= 1
    requires DecimalText.WithinDigitLimit(image.width) && DecimalText.WithinDigitLimit(image.height)
    requires InsideImage(c, image) && c.w >= 1.0 && c.h >= 1.0
    ensures var b := CropNode.LoadAndCrop(CommitText(c), image.width, image.height);
      b.left == Round(c.x) && b.upper == Round(c.y) &&
      b.right == CropNode.Min(Round(c.x) + Round(c.w), image.width) &&
      b.lower == CropNode.Min(Round(c.y) + Round(c.h), image.height) &&
      b.right - b.left >= Round(c.w) - 1 && b.lower - b.upper >= Round(c.h) - 1
  {
    RoundMonotone(c.x, (image.width - 1) as real);
    RoundMonotone(c.y, (image.height - 1) as real);
    assert Round((image.width - 1) as real) == image.width - 1;
    assert Round((image.height - 1) as real) == image.height - 1;
    RoundMonotone(c.w, image.width as real);
    RoundMonotone(c.h, image.height as real);
    DecimalText.FormatNatLengthMonotone(Round(c.x), image.width);
    DecimalText.FormatNatLengthMonotone(Round(c.w), image.width);
    DecimalText.FormatNatLengthMonotone(Round(c.y), image.height);
    DecimalText.FormatNatLengthMonotone(Round(c.h), image.height);
    CommitReadsBack(c);
  }
}

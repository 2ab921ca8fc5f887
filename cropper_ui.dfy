/** The browser half of the cropper: the node keeps a crop box in image pixels,
    lays the preview image out on itself, hit-tests pointer presses against the
    box as drawn, moves the box with the pointer (translation only, clamped to
    the image), and on release writes "x,y,w,h" to its `crop_data` widget.
    Coordinates are exact reals; the host's pointer events, image loads and
    redraws arrive as method calls. */
module CropperUi {
  import opened Wrappers
  import DecimalText

  /** A rectangle: the crop box in image pixels, or the box as drawn in the
      node's local display pixels. */
  datatype Rect = Rect(x: real, y: real, w: real, h: real)

  /** The drag session: whether a drag is on, where the pointer went down, and
      where the crop box was at that moment. */
  datatype DragState = DragState(isDragging: bool, startX: real, startY: real,
                                 initialCropX: real, initialCropY: real)

  /** Pixel size of the loaded preview image. */
  datatype ImageSize = ImageSize(width: nat, height: nat)

  /** Where the image is drawn on the node, and display pixels per image pixel. */
  datatype ImageArea = ImageArea(x: real, y: real, w: real, h: real, scale: real)

  /** What one foreground pass draws: the image over `area`, the crop box
      (filled and stroked) at `box`, and the `sizeText` label at (textX, textY). */
  datatype Frame = Frame(area: ImageArea, box: Rect, sizeText: string, textX: real, textY: real)

  const Margin: real := 10.0
  const TopPadding: real := 40.0
  /** How far above the box's top edge the size label sits. */
  const LabelRise: real := 5.0
  const InitialCrop: Rect := Rect(0.0, 0.0, 512.0, 512.0)
  const IdleDrag: DragState := DragState(false, 0.0, 0.0, 0.0, 0.0)

  /** JavaScript's `Math.round`: the nearest integer, halves rounded up. */
  function Round(v: real): (n: int)
    ensures v - 0.5 < n as real <= v + 0.5
  {
    (v + 0.5).Floor
  }

  lemma RoundMonotone(u: real, v: real)
    requires u <= v
    ensures Round(u) <= Round(v)
  {
  }

  /** The image drawn `Margin` in from the left and `TopPadding` down from the
      top, as wide as the node less both margins, its height following the
      image's aspect ratio. */
  function Layout(nodeWidth: real, image: ImageSize): (a: ImageArea)
    requires image.width >= 1
    ensures a.x == Margin && a.y == TopPadding && a.w == nodeWidth - 2.0 * Margin
    ensures a.scale * image.width as real == a.w
    ensures a.h * image.width as real == a.w * image.height as real
    ensures nodeWidth > 2.0 * Margin ==> a.scale > 0.0
  {
    var displayWidth := nodeWidth - Margin * 2.0;
    var scale := displayWidth / image.width as real;
    ImageArea(Margin, TopPadding, displayWidth, image.height as real * scale, scale)
  }

  function ToDisplayX(a: ImageArea, x: real): real {
    a.x + x * a.scale
  }

  function ToDisplayY(a: ImageArea, y: real): real {
    a.y + y * a.scale
  }

  function ToImageX(a: ImageArea, px: real): real
    requires a.scale != 0.0
  {
    (px - a.x) / a.scale
  }

  function ToImageY(a: ImageArea, py: real): real
    requires a.scale != 0.0
  {
    (py - a.y) / a.scale
  }

  /** Display and image coordinates are exact inverses of each other. */
  lemma TransformRoundTrip(a: ImageArea, px: real, x: real)
    requires a.scale != 0.0
    ensures ToDisplayX(a, ToImageX(a, px)) == px && ToImageX(a, ToDisplayX(a, x)) == x
    ensures ToDisplayY(a, ToImageY(a, px)) == px && ToImageY(a, ToDisplayY(a, x)) == x
  {
  }

  /** The laid-out area covers the image exactly: its far corner is the
      image's far corner. */
  lemma LayoutCoversImage(nodeWidth: real, image: ImageSize)
    requires image.width >= 1 && nodeWidth > 2.0 * Margin
    ensures var a := Layout(nodeWidth, image);
      ToImageX(a, a.x) == 0.0 && ToImageX(a, a.x + a.w) == image.width as real &&
      ToImageY(a, a.y) == 0.0 && ToImageY(a, a.y + a.h) == image.height as real
  {
    var a := Layout(nodeWidth, image);
    assert a.w / a.scale == image.width as real;
    assert a.h == image.height as real * a.scale;
  }

  /** The crop box as drawn: its origin through the transform, its size
      scaled. At a positive scale it is a proper box exactly when the crop
      box is. */
  function DisplayBox(c: Rect, a: ImageArea): (b: Rect)
    ensures a.scale > 0.0 ==> (b.w >= 0.0 <==> c.w >= 0.0) && (b.h >= 0.0 <==> c.h >= 0.0)
  {
    Rect(ToDisplayX(a, c.x), ToDisplayY(a, c.y), c.w * a.scale, c.h * a.scale)
  }

  /** The drawn box's edges map back to the crop box's edges. */
  lemma DisplayBoxEdges(c: Rect, a: ImageArea)
    requires a.scale != 0.0
    ensures var b := DisplayBox(c, a);
      ToImageX(a, b.x) == c.x && ToImageX(a, b.x + b.w) == c.x + c.w &&
      ToImageY(a, b.y) == c.y && ToImageY(a, b.y + b.h) == c.y + c.h
  {
    var b := DisplayBox(c, a);
    assert b.x + b.w - a.x == (c.x + c.w) * a.scale;
    assert b.y + b.h - a.y == (c.y + c.h) * a.scale;
  }

  /** The closed-interval hit test: the edges belong to the box, and a box of
      negative width or height contains no point at all. */
  predicate Contains(b: Rect, px: real, py: real)
    ensures Contains(b, px, py) ==> b.w >= 0.0 && b.h >= 0.0
  {
    b.x <= px <= b.x + b.w && b.y <= py <= b.y + b.h
  }

  /** Every point on an edge of a box is inside it; the points one unit
      beyond an edge, along its whole length, are not. */
  lemma EdgesAreInside(b: Rect, px: real, py: real)
    requires b.w >= 0.0 && b.h >= 0.0
    ensures b.y <= py <= b.y + b.h ==>
      Contains(b, b.x, py) && Contains(b, b.x + b.w, py) &&
      !Contains(b, b.x - 1.0, py) && !Contains(b, b.x + b.w + 1.0, py)
    ensures b.x <= px <= b.x + b.w ==>
      Contains(b, px, b.y) && Contains(b, px, b.y + b.h) &&
      !Contains(b, px, b.y - 1.0) && !Contains(b, px, b.y + b.h + 1.0)
  {
  }

  lemma DivideBounds(u: real, lo: real, hi: real, s: real)
    requires s > 0.0
    ensures lo * s <= u <= hi * s <==> lo <= u / s <= hi
  {
    assert u / s * s == u;
    assert (u / s - lo) * s == u - lo * s;
    assert (hi - u / s) * s == hi * s - u;
  }

  /** A press hits the drawn box exactly when the pressed point, taken back
      to image pixels, lies in the crop box. */
  lemma HitTestInImageSpace(c: Rect, a: ImageArea, px: real, py: real)
    requires a.scale > 0.0
    ensures Contains(DisplayBox(c, a), px, py) <==> Contains(c, ToImageX(a, px), ToImageY(a, py))
  {
    var b := DisplayBox(c, a);
    DivideBounds(px - a.x, c.x, c.x + c.w, a.scale);
    DivideBounds(py - a.y, c.y, c.y + c.h, a.scale);
    assert b.x <= px <= b.x + b.w <==> c.x * a.scale <= px - a.x <= (c.x + c.w) * a.scale;
    assert b.y <= py <= b.y + b.h <==> c.y * a.scale <= py - a.y <= (c.y + c.h) * a.scale;
  }

  /** The crop box lies inside the image. */
  predicate InsideImage(c: Rect, image: ImageSize) {
    0.0 <= c.x && c.x + c.w <= image.width as real &&
    0.0 <= c.y && c.y + c.h <= image.height as real
  }

  function RealMin(a: real, b: real): real {
    if a <= b then a else b
  }

  function RealMax(a: real, b: real): real {
    if a >= b then a else b
  }

  /** One axis of the drag clamp: not left of 0, then not past `limit - size`;
      when the box is larger than the image the second bound wins. */
  function ClampAxis(v: real, size: real, limit: real): (r: real)
    ensures size <= limit ==> 0.0 <= r && r + size <= limit
    ensures size <= limit ==> r == RealMax(0.0, RealMin(v, limit - size))
    ensures size > limit ==> r == limit - size
  {
    var atLeastZero := if v < 0.0 then 0.0 else v;
    if atLeastZero + size > limit then limit - size else atLeastZero
  }

  /** A position already in range is kept; otherwise no position in range is
      closer to the requested one than the clamped one. */
  lemma ClampAxisNearest(v: real, size: real, limit: real, u: real)
    requires size <= limit && 0.0 <= u && u + size <= limit
    ensures 0.0 <= v && v + size <= limit ==> ClampAxis(v, size, limit) == v
    ensures var r := ClampAxis(v, size, limit);
      (if r <= v then v - r else r - v) <= (if u <= v then v - u else u - v)
  {
  }

  /** Where a drag puts the crop box with the pointer at (mx, my): the
      pointer's travel since the press, taken to image pixels, added to the
      box's origin at the press, clamped to the image; the size is kept. */
  function DragTo(c: Rect, d: DragState, a: ImageArea, image: ImageSize, mx: real, my: real): (r: Rect)
    requires a.scale != 0.0
    ensures r.w == c.w && r.h == c.h
    ensures c.w <= image.width as real && c.h <= image.height as real ==> InsideImage(r, image)
  {
    var newX := d.initialCropX + (mx - d.startX) / a.scale;
    var newY := d.initialCropY + (my - d.startY) / a.scale;
    c.(x := ClampAxis(newX, c.w, image.width as real), y := ClampAxis(newY, c.h, image.height as real))
  }

  /** Away from the image's edges the drawn box moves exactly as far as the
      pointer has since the press. */
  lemma DragFollowsPointer(c: Rect, d: DragState, a: ImageArea, image: ImageSize, mx: real, my: real)
    requires a.scale != 0.0
    requires InsideImage(c.(x := d.initialCropX + (mx - d.startX) / a.scale,
                            y := d.initialCropY + (my - d.startY) / a.scale), image)
    ensures var b := DisplayBox(DragTo(c, d, a, image, mx, my), a);
      b.x == ToDisplayX(a, d.initialCropX) + (mx - d.startX) &&
      b.y == ToDisplayY(a, d.initialCropY) + (my - d.startY)
  {
    var dx := (mx - d.startX) / a.scale;
    var dy := (my - d.startY) / a.scale;
    assert (d.initialCropX + dx) * a.scale == d.initialCropX * a.scale + (mx - d.startX);
    assert (d.initialCropY + dy) * a.scale == d.initialCropY * a.scale + (my - d.startY);
  }

  /** With the pointer back where it was pressed, a box that was inside the
      image is back where it was at the press. */
  lemma ZeroTravelKeepsPosition(c: Rect, d: DragState, a: ImageArea, image: ImageSize)
    requires a.scale != 0.0
    requires InsideImage(c.(x := d.initialCropX, y := d.initialCropY), image)
    ensures DragTo(c, d, a, image, d.startX, d.startY) == c.(x := d.initialCropX, y := d.initialCropY)
  {
  }

  /** A drag measures from the press, not from the previous move: the path the
      pointer took does not matter, only where it is now. */
  lemma DragIsPathIndependent(c: Rect, d: DragState, a: ImageArea, image: ImageSize,
                              mx0: real, my0: real, mx: real, my: real)
    requires a.scale != 0.0
    ensures DragTo(DragTo(c, d, a, image, mx0, my0), d, a, image, mx, my) == DragTo(c, d, a, image, mx, my)
  {
  }

  /** The size the box gets when an image loads: each side cut down to the
      image's, never grown; the position is kept. */
  function FitToImage(c: Rect, image: ImageSize): (r: Rect)
    ensures r.x == c.x && r.y == c.y
    ensures r.w <= c.w && r.w <= image.width as real && (r.w == c.w || r.w == image.width as real)
    ensures r.h <= c.h && r.h <= image.height as real && (r.h == c.h || r.h == image.height as real)
  {
    var w := if c.w > image.width as real then image.width as real else c.w;
    var h := if c.h > image.height as real then image.height as real else c.h;
    c.(w := w, h := h)
  }

  /** The size label: rounded width, "x", rounded height. Its one "x"
      splits it into the two spellings. */
  function SizeLabel(c: Rect): (s: string)
    ensures DecimalText.Split(s, 'x') ==
      [DecimalText.FormatInt(Round(c.w)), DecimalText.FormatInt(Round(c.h))]
  {
    var wText, hText := DecimalText.FormatInt(Round(c.w)), DecimalText.FormatInt(Round(c.h));
    DecimalText.SplitAfterPiece(wText, 'x', hText);
    DecimalText.SplitNoSeparator(hText, 'x');
    wText + "x" + hText
  }

  /** What a foreground pass draws for crop box `c` over area `a`: the image
      over `a`, the drawn box, and its size label anchored `LabelRise` above
      the box's upper-left corner. */
  function RenderFrame(c: Rect, a: ImageArea): (f: Frame)
    ensures f.area == a && f.box == DisplayBox(c, a) && f.sizeText == SizeLabel(c)
    ensures f.textX == f.box.x && f.textY == f.box.y - LabelRise && f.textY < f.box.y
    ensures a.scale > 0.0 && c.w >= 0.0 && c.h >= 0.0 ==> Contains(f.box, f.textX, f.textY + LabelRise)
  {
    var box := DisplayBox(c, a);
    Frame(a, box, SizeLabel(c), box.x, box.y - LabelRise)
  }

  /** The text written to `crop_data` on release: the four components
      rounded, joined by commas, so that splitting it at its commas gives the
      four spellings in order. */
  function CommitText(c: Rect): (t: string)
    ensures DecimalText.Split(t, ',') ==
      [DecimalText.FormatInt(Round(c.x)), DecimalText.FormatInt(Round(c.y)),
       DecimalText.FormatInt(Round(c.w)), DecimalText.FormatInt(Round(c.h))]
  {
    var xText, yText := DecimalText.FormatInt(Round(c.x)), DecimalText.FormatInt(Round(c.y));
    var wText, hText := DecimalText.FormatInt(Round(c.w)), DecimalText.FormatInt(Round(c.h));
    var wh := wText + [','] + hText;
    var ywh := yText + [','] + wh;
    DecimalText.SplitNoSeparator(hText, ',');
    DecimalText.SplitAfterPiece(wText, ',', hText);
    DecimalText.SplitAfterPiece(yText, ',', wh);
    DecimalText.SplitAfterPiece(xText, ',', ywh);
    xText + [','] + ywh
  }

  /** The node: the state the handlers share. `coordWidget` is the
      `crop_data` widget's value, `None` when the node has no such widget;
      `requestedImage` is the file name last sent for loading;
      `redrawRequested` records that the canvas was marked dirty. */
  class CropperNode {
    var crop: Rect
    var dragState: DragState
    var requestedImage: Option<string>
    var uploadedImage: Option<ImageSize>
    var imageArea: Option<ImageArea>
    var coordWidget: Option<string>
    var redrawRequested: bool

    /** The box is at least a pixel in each direction and, once an image is
        loaded, no larger than the image; a layout exists only for a loaded
        image and has a positive scale. */
    ghost predicate Valid()
      reads this
    {
      1.0 <= crop.w && 1.0 <= crop.h &&
      (uploadedImage.Some? ==>
        uploadedImage.value.width >= 1 && uploadedImage.value.height >= 1 &&
        crop.w <= uploadedImage.value.width as real && crop.h <= uploadedImage.value.height as real) &&
      (imageArea.Some? ==> uploadedImage.Some? && imageArea.value.scale > 0.0)
    }

    /** Node creation: the default box, no drag, no image yet; the image
        widget's current value, if any, is sent for loading. */
    constructor (uploadValue: string, coordWidget: Option<string>)
      ensures Valid()
      ensures crop == InitialCrop && dragState == IdleDrag
      ensures uploadedImage.None? && imageArea.None? && !redrawRequested
      ensures this.coordWidget == coordWidget
      ensures requestedImage == if uploadValue != "" then Some(uploadValue) else None
    {
      crop := InitialCrop;
      dragState := IdleDrag;
      requestedImage := None;
      uploadedImage := None;
      imageArea := None;
      this.coordWidget := coordWidget;
      redrawRequested := false;
      new;
      var _ := LoadPreviewImage(uploadValue);
    }

    /** Sends an image for loading; an empty file name is ignored. */
    method LoadPreviewImage(filename: string) returns (requested: bool)
      modifies this`requestedImage
      ensures requested == (filename != "")
      ensures requestedImage == if requested then Some(filename) else old(requestedImage)
    {
      if filename == "" {
        return false;
      }
      requestedImage := Some(filename);
      return true;
    }

    /** The image has arrived: it becomes the preview, the box shrinks to fit
        it (its position is left alone), and a redraw is requested. */
    method OnImageLoad(width: nat, height: nat)
      requires Valid() && requestedImage.Some?
      requires width >= 1 && height >= 1
      modifies this`uploadedImage, this`crop, this`redrawRequested
      ensures Valid()
      ensures uploadedImage == Some(ImageSize(width, height))
      ensures crop == FitToImage(old(crop), ImageSize(width, height))
      ensures redrawRequested
    {
      uploadedImage := Some(ImageSize(width, height));
      if crop.w > width as real {
        crop := crop.(w := width as real);
      }
      if crop.h > height as real {
        crop := crop.(h := height as real);
      }
      redrawRequested := true;
    }

    /** A foreground pass: with no image, nothing; otherwise the layout for
        the node's current width is stored and the frame is drawn. */
    method OnDrawForeground(nodeWidth: real) returns (frame: Option<Frame>)
      requires Valid() && (uploadedImage.Some? ==> nodeWidth > 2.0 * Margin)
      modifies this`imageArea
      ensures Valid()
      ensures uploadedImage.None? ==> frame.None? && imageArea == old(imageArea)
      ensures uploadedImage.Some? ==>
        imageArea == Some(Layout(nodeWidth, uploadedImage.value)) &&
        frame == Some(RenderFrame(crop, imageArea.value))
    {
      if uploadedImage.None? {
        return None;
      }
      var area := Layout(nodeWidth, uploadedImage.value);
      imageArea := Some(area);
      var boxX := area.x + crop.x * area.scale;
      var boxY := area.y + crop.y * area.scale;
      var boxW := crop.w * area.scale;
      var boxH := crop.h * area.scale;
      assert Rect(boxX, boxY, boxW, boxH) == DisplayBox(crop, area);
      frame := Some(Frame(area, Rect(boxX, boxY, boxW, boxH), SizeLabel(crop), boxX, boxY - LabelRise));
    }

    /** A press: captured exactly when a layout exists and the point lies in
        the drawn box, edges included; a capture starts a drag anchored at the
        point and at the box's current origin, a miss changes nothing. */
    method OnMouseDown(mx: real, my: real) returns (captured: bool)
      requires Valid()
      modifies this`dragState
      ensures Valid()
      ensures captured <==> imageArea.Some? && Contains(DisplayBox(crop, imageArea.value), mx, my)
      ensures captured ==> dragState == DragState(true, mx, my, crop.x, crop.y)
      ensures !captured ==> dragState == old(dragState)
    {
      if imageArea.None? {
        return false;
      }
      var scale := imageArea.value.scale;
      var boxX := imageArea.value.x + crop.x * scale;
      var boxY := imageArea.value.y + crop.y * scale;
      var boxW := crop.w * scale;
      var boxH := crop.h * scale;
      if mx >= boxX && mx <= boxX + boxW && my >= boxY && my <= boxY + boxH {
        dragState := DragState(true, mx, my, crop.x, crop.y);
        return true;
      }
      return false;
    }

    /** Pointer movement: during a drag with a layout, the box moves to
        `DragTo` (inside the image, size kept) and a redraw is requested;
        otherwise nothing changes and the event is not handled. */
    method OnMouseMove(mx: real, my: real) returns (handled: bool)
      requires Valid()
      modifies this`crop, this`redrawRequested
      ensures Valid()
      ensures handled == (dragState.isDragging && imageArea.Some?)
      ensures handled ==>
        crop == DragTo(old(crop), dragState, imageArea.value, uploadedImage.value, mx, my) &&
        InsideImage(crop, uploadedImage.value) && redrawRequested
      ensures !handled ==> crop == old(crop) && redrawRequested == old(redrawRequested)
    {
      if !(dragState.isDragging && imageArea.Some?) {
        return false;
      }
      var scale := imageArea.value.scale;
      var dxImage := (mx - dragState.startX) / scale;
      var dyImage := (my - dragState.startY) / scale;
      var newX := dragState.initialCropX + dxImage;
      var newY := dragState.initialCropY + dyImage;
      var image := uploadedImage.value;
      if newX < 0.0 {
        newX := 0.0;
      }
      if newY < 0.0 {
        newY := 0.0;
      }
      if newX + crop.w > image.width as real {
        newX := image.width as real - crop.w;
      }
      if newY + crop.h > image.height as real {
        newY := image.height as real - crop.h;
      }
      crop := crop.(x := newX, y := newY);
      redrawRequested := true;
      return true;
    }

    /** Release: ends a drag and, when the node has a `crop_data` widget,
        writes the rounded box to it; without a drag nothing changes. */
    method OnMouseUp() returns (handled: bool)
      requires Valid()
      modifies this`dragState, this`coordWidget
      ensures Valid()
      ensures handled == old(dragState.isDragging)
      ensures !dragState.isDragging
      ensures handled ==> dragState == old(dragState).(isDragging := false)
      ensures handled && old(coordWidget).Some? ==> coordWidget == Some(CommitText(crop))
      ensures !(handled && old(coordWidget).Some?) ==> coordWidget == old(coordWidget)
      ensures !handled ==> dragState == old(dragState)
    {
      if !dragState.isDragging {
        return false;
      }
      dragState := dragState.(isDragging := false);
      if coordWidget.Some? {
        coordWidget := Some(CommitText(crop));
      }
      return true;
    }
  }

  /** A new node keeps its 512 x 512 box when a larger image loads, and
      shrinks it to a 300 x 200 image (never growing it back afterwards). */
  method LoadSession() {
    var node := new CropperNode("photo.png", Some("0,0,512,512"));
    node.OnImageLoad(1000, 1000);
    assert node.crop == InitialCrop;
    node.OnImageLoad(300, 200);
    assert node.crop == Rect(0.0, 0.0, 300.0, 200.0);
    node.OnImageLoad(1000, 1000);
    assert node.crop == Rect(0.0, 0.0, 300.0, 200.0);
  }

  /** A 1000 x 1000 image on a node 520 wide is drawn at half size; a press
      on the drawn box's corner starts a drag. */
  method PressSession(node: CropperNode)
    requires node.Valid() && node.uploadedImage == Some(ImageSize(1000, 1000))
    requires node.crop == InitialCrop
    modifies node
  {
    assert Layout(520.0, ImageSize(1000, 1000)) == ImageArea(10.0, 40.0, 500.0, 500.0, 0.5);
    var frame := node.OnDrawForeground(520.0);
    var captured := node.OnMouseDown(10.0, 40.0);
    assert captured && node.dragState == DragState(true, 10.0, 40.0, 0.0, 0.0);
  }

  /** Continuing that drag: 50 display pixels to the right move the box 100
      image pixels; far past the right edge it stops at 1000 - 512. */
  method DragSession(node: CropperNode)
    requires node.Valid() && node.uploadedImage == Some(ImageSize(1000, 1000))
    requires node.crop == InitialCrop
    requires node.imageArea == Some(ImageArea(10.0, 40.0, 500.0, 500.0, 0.5))
    requires node.dragState == DragState(true, 10.0, 40.0, 0.0, 0.0)
    modifies node
  {
    var moved := node.OnMouseMove(60.0, 40.0);
    assert node.crop == Rect(100.0, 0.0, 512.0, 512.0);
    moved := node.OnMouseMove(1010.0, 40.0);
    assert node.crop == Rect(488.0, 0.0, 512.0, 512.0);
  }

  /** Releasing after a drag commits the box once; a second release and a
      later move change nothing. */
  method ReleaseSession(node: CropperNode)
    requires node.Valid() && node.dragState.isDragging && node.coordWidget.Some?
    modifies node
  {
    var box := node.crop;
    var released := node.OnMouseUp();
    assert released && node.coordWidget == Some(CommitText(box));
    released := node.OnMouseUp();
    var moved := node.OnMouseMove(0.0, 0.0);
    assert !released && !moved && node.crop == box && node.coordWidget == Some(CommitText(box));
  }
}

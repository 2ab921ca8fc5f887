# Interactive image cropper — a Dafny model

The cropper is a ComfyUI node, `InteractiveCropNode`, in two halves:

- **The browser half** (`js/cropper_ui.js`). It shows the uploaded image on the node and draws a red crop box over it. The user drags the box to move it. On release, the box is written to the hidden `crop_data` widget as `"x,y,w,h"`.
- **The backend half** (`cropper_node.py`, `load_and_crop`). It reads `crop_data` back into four integers. If the string cannot be read, it falls back to the whole image. It then clamps the box so it is non-empty and inside the image, and crops.

This project models both halves and proves what each promises and how they fit together.

- `wrappers.dfy` — `Option`.
- `decimal_text.dfy` (module `DecimalText`) — the text the two halves exchange:
  - Python's `str.split` on one character, and its inverse `Join`;
  - Python's `int()` on the text the crop string carries: surrounding ASCII whitespace, an optional sign, and at most 4300 decimal digits;
  - the decimal spelling a JavaScript template literal gives an integer.
- `crop_node.dfy` (module `CropNode`) — `load_and_crop` as pure functions and lemmas:
  - the parse, the `ValueError` fallback, the clamp and the crop box.
- `cropper_ui.dfy` (module `CropperUi`) — the node as a class, `CropperNode`:
  - its fields are the crop box, the drag session, the loaded image size, the layout (`imageArea`), the `crop_data` widget value and a redraw flag;
  - its methods are the image-load callback, the foreground pass, and the pointer-down, pointer-move and pointer-up handlers, each with `modifies` on the fields it writes;
  - the geometry the handlers share (layout, transform, hit test, drag clamp) is written as functions, with lemmas about them;
  - four short client methods (`LoadSession`, `PressSession`, `DragSession`, `ReleaseSession`) show what a caller can prove from the handlers' contracts alone, in concrete sessions: a 1000 × 1000 image drawn at half size, a 50-pixel drag, and a drag clamped at the right edge.
- `crop_sync.dfy` (module `CropSync`) — the hand-off between the halves:
  - the string committed on release parses back to the four rounded integers;
  - a box dragged inside the image is cropped at its rounded position.

Coordinates in the browser half are exact `real`s. `Math.round(v)` is `⌊v + 0.5⌋`. The backend works on unbounded integers, like Python's.

This revision of the widget has no inbound sync from edited fields back to the box, and no "button released outside the node" detection during a move. It keeps the box in one combined `"x,y,w,h"` string widget, not four numeric fields. The model follows the code: release happens only in `OnMouseUp`, and the box changes only through image loads and drags.

## Model

| member | source | states |
|---|---|---|
| `DecimalText.Split` | cropper_node.py:41 | `crop_data.split(',')` yields one piece more than there are separators, and no piece contains the separator |
| `DecimalText.SplitJoin` | cropper_node.py:41 | splitting separator-free pieces joined by the separator gives back exactly those pieces |
| `DecimalText.JoinSplit` | cropper_node.py:41 | joining the pieces of a split gives back the original string, so the split loses nothing |
| `DecimalText.TrimStartDropsOnlySpace` | cropper_node.py:41 | the whitespace `int()` ignores in front (space, tab, line feed, carriage return, vertical tab, form feed) is removed and nothing else: what is kept is a suffix that does not start with whitespace |
| `DecimalText.TrimEndDropsOnlySpace` | cropper_node.py:41 | the same at the end: a prefix is kept, it does not end with whitespace, and only whitespace is dropped |
| `DecimalText.FormatNat` | js/cropper_ui.js:183 | the decimal spelling of a natural number is non-empty, all digits, and starts with `0` only for zero |
| `DecimalText.FormatInt` | js/cropper_ui.js:183 | an integer's template-literal spelling starts with `-` exactly when it is negative, and has no comma, no `x` and no surrounding whitespace |
| `DecimalText.DigitsValueOfFormatNat` | cropper_node.py:41 | reading back the digits of a number's spelling gives the number |
| `DecimalText.FormatNatOfDigitsValue` | cropper_node.py:41 | a digit string without a superfluous leading zero is the spelling of its own value |
| `DecimalText.ParseInt` | cropper_node.py:41 | `int()` accepts only text that is non-empty once stripped and holds at most 4300 digits after an optional sign; a negative result comes from a leading `-` |
| `DecimalText.OverlongDigitsRejected` | cropper_node.py:41 | a run of more than 4300 digits is refused by `int()` (`ValueError`), whatever its value |
| `DecimalText.ParseFormatInt` | cropper_node.py:41 | `int()` reads every integer's template-literal spelling back as that integer, when its magnitude has at most 4300 digits |
| `DecimalText.CanonicalIntText` | cropper_node.py:41 | conversely, text `int()` accepts that has no whitespace, no `+` and no superfluous leading zero is exactly the spelling of its value |
| `CropNode.ParseEach` | cropper_node.py:41 | `map(int, parts)` succeeds exactly when `int()` accepts every piece, and then yields one value per piece, in order |
| `CropNode.ParseCropData` | cropper_node.py:40-44 | a `crop_data` without exactly three commas takes the `ValueError` path |
| `CropNode.ParseCropDataAccepts` | cropper_node.py:40-44 | `crop_data` is read exactly when it splits into four pieces that `int()` accepts each; otherwise it takes the `ValueError` path |
| `CropNode.ParseFourPieces` | cropper_node.py:41 | four comma-free integer texts joined by commas parse to those four integers, in order |
| `CropNode.ParseFormatCropData` | cropper_node.py:41 | the `"x,y,w,h"` spelling of any four integers within the digit limit parses back to them |
| `CropNode.ClampCrop` | cropper_node.py:48-51 | for a `W`×`H` image with `W, H ≥ 1`, `0 ≤ x ≤ W-1`, `0 ≤ y ≤ H-1`, `1 ≤ w ≤ W-x` and `1 ≤ h ≤ H-y` after the clamp |
| `CropNode.ClampFixesExactlyInImage` | cropper_node.py:48-51 | the clamp leaves a rectangle unchanged exactly when it is non-empty and already inside the image |
| `CropNode.ClampIdempotent` | cropper_node.py:48-51 | clamping twice is clamping once |
| `CropNode.CropBoxOf` | cropper_node.py:54 | the PIL box has the rectangle's origin as its upper-left corner, and the rectangle's width and height as its extent |
| `CropNode.LoadAndCrop` | cropper_node.py:40-54 | the crop box `(x, y, x+w, y+h)` is non-empty and inside the image, whatever `crop_data` holds |
| `CropNode.FallbackIsWholeImage` | cropper_node.py:42-54 | when `crop_data` cannot be read, the crop box is the whole image `(0, 0, W, H)` |
| `CropNode.InImageCropIsExact` | cropper_node.py:40-54 | a rectangle already inside an image whose sides have at most 4300 digits, written as `"x,y,w,h"`, is cropped exactly as written |
| `CropperUi.Round` | js/cropper_ui.js:183 | `Math.round` gives the nearest integer, with halves rounded up: `v - 0.5 < n ≤ v + 0.5` |
| `CropperUi.Layout` | js/cropper_ui.js:77-91 | the image is drawn at `(10, 40)`, `size[0] - 20` wide; `scale · W` is that width; the height keeps the image's aspect ratio; the scale is positive when the node is wider than the margins |
| `CropperUi.TransformRoundTrip` | js/cropper_ui.js:99-100 | image-to-display (`origin + p·scale`) and display-to-image (`(p - origin)/scale`) are exact inverses |
| `CropperUi.LayoutCoversImage` | js/cropper_ui.js:79-89 | the laid-out area maps back exactly onto the image: its near corner to `(0, 0)`, its far corner to `(W, H)` |
| `CropperUi.DisplayBox` | js/cropper_ui.js:99-102 | at a positive scale the drawn box has non-negative width (height) exactly when the crop box has |
| `CropperUi.DisplayBoxEdges` | js/cropper_ui.js:99-102 | every edge of the drawn box maps back to the matching edge of the crop box |
| `CropperUi.Contains` | js/cropper_ui.js:136 | the hit test can succeed only on a box of non-negative width and height; a box of negative size captures no press |
| `CropperUi.EdgesAreInside` | js/cropper_ui.js:136 | the hit test is closed: every point on each of the four edges hits, and every point one unit outside an edge, along its length, misses |
| `CropperUi.HitTestInImageSpace` | js/cropper_ui.js:129-136 | at a positive scale, a press hits the drawn box exactly when the point, taken back to image pixels, lies in the crop box |
| `CropperUi.ClampAxis` | js/cropper_ui.js:163-166 | when the box fits, its new position is `max(0, min(v, limit - size))` and keeps it inside; when it does not fit, the right/bottom bound wins |
| `CropperUi.ClampAxisNearest` | js/cropper_ui.js:163-166 | an in-range position is kept; otherwise the clamped position is the in-range position nearest the requested one |
| `CropperUi.DragTo` | js/cropper_ui.js:150-169 | a drag keeps `w` and `h`, and when the box is no larger than the image it ends inside the image |
| `CropperUi.DragFollowsPointer` | js/cropper_ui.js:153-160 | away from the edges, the drawn box moves by exactly the pointer's travel since the press |
| `CropperUi.ZeroTravelKeepsPosition` | js/cropper_ui.js:153-160 | with zero pointer travel, a box that was inside the image stays where it was at the press |
| `CropperUi.DragIsPathIndependent` | js/cropper_ui.js:153-160 | a move measures from the press, not from the previous move: intermediate moves do not change where the box ends |
| `CropperUi.FitToImage` | js/cropper_ui.js:62-63 | on image load each side becomes `min(old, image side)`: never grown, cut to the image; `x` and `y` are kept |
| `CropperUi.SizeLabel` | js/cropper_ui.js:116 | the label splits at its one `x` into the spellings of the rounded width and the rounded height, in that order |
| `CropperUi.RenderFrame` | js/cropper_ui.js:95-116 | a frame draws the image over the layout, the transformed box and its size label; the label is drawn at exactly `(box.x, box.y - LabelRise)`, 5 pixels above the box's upper-left corner, which at a positive scale is a point of the box |
| `CropperUi.CommitText` | js/cropper_ui.js:183 | the committed text splits at its commas into exactly four pieces: the spellings of the rounded `x`, `y`, `w` and `h`, in order |
| `CropperUi.CropperNode.constructor` | js/cropper_ui.js:16-43 | a new node has the 512×512 box at the origin, no drag, no image and no layout; the image widget's value, if non-empty, is sent for loading |
| `CropperUi.CropperNode.LoadPreviewImage` | js/cropper_ui.js:52-56 | an empty file name is ignored; any other is sent for loading |
| `CropperUi.CropperNode.OnImageLoad` | js/cropper_ui.js:57-66 | the loaded image becomes the preview; the box becomes `FitToImage` of the old box; a redraw is requested; the box stays no larger than the image |
| `CropperUi.CropperNode.OnDrawForeground` | js/cropper_ui.js:74-116 | with no image, nothing is drawn and nothing changes; otherwise `imageArea` becomes the layout for the node width, and the frame shows the transformed box with its size label 5 pixels above it |
| `CropperUi.CropperNode.OnMouseDown` | js/cropper_ui.js:123-145 | a press is captured exactly when a layout exists and the point is in the closed drawn box; a capture records the pointer and the box origin; otherwise the drag state is unchanged |
| `CropperUi.CropperNode.OnMouseMove` | js/cropper_ui.js:147-174 | while dragging with a layout, the box becomes `DragTo`, ends inside the image with `w` and `h` unchanged, and a redraw is requested; otherwise nothing changes and the event is not handled |
| `CropperUi.CropperNode.OnMouseUp` | js/cropper_ui.js:176-188 | a release during a drag ends it and writes the rounded `"x,y,w,h"` to the `crop_data` widget if there is one, leaving the box unchanged; otherwise nothing changes |
| `CropSync.CommitTextIsCropData` | js/cropper_ui.js:183 | the committed text is the canonical `"x,y,w,h"` spelling of the four rounded components |
| `CropSync.CommitReadsBack` | cropper_node.py:41 | the backend reads the committed text back as exactly the four rounded components, in order, when they are within the digit limit; the browser's spelling is modelled only below 10^21 in magnitude, where JavaScript writes plain digits (see `DecimalText.FormatInt` under "Left out") |
| `CropSync.DraggedBoxIsCroppedAsCommitted` | cropper_node.py:40-54 | a box dragged inside the image is cropped at its rounded position; its size is kept except where rounding crosses the right or bottom edge, which costs at most one pixel |

## Left out

- Extension registration and prototype wrapping (`app.registerExtension`, and the chaining of `onNodeCreated`, `onDrawForeground` and the upload callback). These are host glue. The handlers are the class's methods.
- The image request itself (`api.apiURL`, the `/view` URL, `img_obj.src`). It is network I/O. `LoadPreviewImage` records the requested file name. The `onload` completion is the event `OnImageLoad(width, height)`.
- The single shared `img_obj` is not modelled. Between a new request and its completion, the browser may already report the new image's size through `uploaded_image`, and a stale completion may overwrite a newer one. The model changes the image size only at `OnImageLoad`.
- Canvas calls, colours, fonts, `setSize` and `setDirtyCanvas`. These are rendering side effects. `OnDrawForeground` returns what would be drawn as a `Frame`, and a redraw request is the flag `redrawRequested`.
- The unused `resizeState` and the hiding of the `crop_data` widget.
- JavaScript's `undefined` return of a handler that does nothing is modelled as `false`: not consumed.
- IEEE-754 arithmetic. Scale, deltas and positions are exact reals, so rounding error in the transform is not modelled.
- CropperUi.CropperNode.OnDrawForeground: requires a node wider than the two margins (20 pixels) once an image is loaded; with no image, any width is allowed, as nothing is drawn. A node exactly 20 pixels wide gives a zero scale, and the move handler's division by it yields `Infinity` or `NaN` in JavaScript, which reals cannot express. A narrower node gives a negative scale with finite values throughout; there the drawn box has negative size and, by `CropperUi.Contains`, captures no press. Those widths are excluded by choice, so that `Valid()` can keep a positive scale.
- CropperUi.CropperNode.OnImageLoad: requires a decoded image of at least 1×1 pixels. The `onload` callback also exists only after a non-empty file name was sent, hence `requestedImage.Some?`.
- DecimalText.FormatInt: does not model JavaScript's exponent notation for integers of magnitude 10^21 or more, so the round trip is stated for the plain decimal spelling only.
- DecimalText.ParseInt: does not accept digit-separating underscores, non-ASCII digits or non-ASCII whitespace, nor U+001C–U+001F around the number in a string that also holds a non-ASCII character (Python then treats those four as whitespace). Such strings take the fallback path in the model but are read by Python. The 4300-digit limit is CPython's default `sys.int_max_str_digits`; a process that changes it is not modelled.
- After an image load, the box's position is not pulled back inside a smaller image. Only its size is cut. The model keeps this: `Valid()` bounds the size, not the position. The first drag, or the backend clamp, brings the box back inside.
- The PIL side of `load_and_crop`: open, EXIF transpose, RGB conversion, `img.crop`, tensor conversion and the mask. These are foreign libraries and float tensors. `LoadAndCrop` stops at the crop box handed to `img.crop`.
- `IS_CHANGED`, which reads a file's modification time, and `__init__.py`, which only registers the node.

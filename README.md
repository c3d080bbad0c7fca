# ImageBuddy editing core in Dafny

ImageBuddy is a browser image editor. The user loads a picture and then edits it on a canvas. The edits are filters (brightness, contrast, saturation, grayscale, sepia), flips, quarter turns, crop, resize and compression. Every edit is committed to an undo/redo history held by a React reducer. The editor can download the result. A small server route counts visitors.

This project models that core:

- The session reducer is a pure function `Session.Reduce` over a `State` value. An invariant links the history list, the history cursor and the displayed picture.
- Bitmaps are immutable values: a width, a height and a flat RGBA byte sequence in canvas `ImageData` layout. Each editing operation builds a fresh bitmap and commits it, as the editor draws into a fresh canvas.
- Channel writes go through `Bytes.ToByte`, the clamp-and-round of a `Uint8ClampedArray` store (ToUint8Clamp, section 7.1.12 of ECMA-262, 2022 edition). It applies after every step of a filter, not only at the end.
- The filter loops work in place on an `array<Byte>` (`Filters.RunFilter`). Each is proved equal to a specification on sequences (`Filters.MapRgb`).
- The editor object is `Editor.ImageProvider`, a class whose `state` field every operation updates by dispatching reducer actions.
- The crop-rectangle pointer logic and zoom (`Preview`) are modelled from the preview component. The settings and download handlers (`Controls`) come from the controls panel, and the download button (`Mobile`) from the phone layout.
- The visitor-statistics route is `Visitors.Stats`, a class holding the module-level mutable record. Its 32-bit string hash is proved equal to a polynomial reduced by ToInt32 (section 7.1.6 of ECMA-262).

The JavaScript library calls the core relies on are modelled explicitly:

- `parseInt` is `JsText.ParseInt`: leading whitespace, sign, `0x` prefix, the longest run of digits read from an index, and NaN as `None`.
- `Number.prototype.toString(radix)` of the visitor hash, a 32-bit value, is `JsText.NatToRadix`.
- `toString()` of an integer is `JsText.IntToString`. From 10^21 on it switches to exponent form (`1e+21`, `1.5e+21`), as Number::toString does (section 6.1.6.1.20 of ECMA-262).
- `Math.round` is `JsText.Round`.
- The regular expression `/\.[^/.]+$/` is `JsText.StripExtension`.

Numbers are `real` (exact) or `int`. Floating-point rounding is not modelled.

Canvas sides are `Bitmaps.Side`, at most 2^31 - 1, the largest size a canvas `width` or `height` stores (section 2.6.1 of the HTML standard). Every edit starts by drawing the current picture into a new canvas, and `drawImage` throws for a source with a zero side (section 4.12.5.1.14 of the HTML standard). So an edit of a zero-sized picture stops there and commits nothing; `Editor.Editable` names the pictures an edit can start from.

## Model

| member | source | states |
|---|---|---|
| Bytes.ToByte | src/app/context/ImageContext.js:181-199 | every channel store into `ImageData` (ToUint8Clamp): no contract of its own; stated by Bytes.ToByteOfByte, ToByteNearest, ToByteMonotone and ToByteMinRedundant |
| Bytes.ToByteOfByte | src/app/context/ImageContext.js:181-199 | storing a value that already is a byte keeps it |
| Bytes.ToByteNearest | src/app/context/ImageContext.js:181-199 | an in-range value is stored within half a unit of itself |
| Bytes.ToByteMonotone | src/app/context/ImageContext.js:181-199 | the clamped store preserves order |
| Bytes.ToByteMinRedundant | src/app/context/ImageContext.js:318-320 | the `Math.min(255, …)` cap of sepia changes nothing, because the store clamps anyway |
| Filters.AdjustRgb | src/app/context/ImageContext.js:181-199 | one pixel of the brightness/contrast/saturation loop: no contract of its own; stated by Filters.AdjustPixelInPlace, AdjustNeutralPixel, AdjustDesaturatedIsGray and AdjustClampRedundant |
| Filters.GrayRgb | src/app/context/ImageContext.js:289-294 | one pixel of the grayscale loop: no contract of its own; stated by Filters.GrayPixelInPlace, GrayscalePixel, GrayscaleFixesGray and GrayscaleIdempotent |
| Filters.SepiaRgb | src/app/context/ImageContext.js:313-321 | one pixel of the sepia loop: no contract of its own; stated by Filters.SepiaPixelInPlace, SepiaOrdered and SepiaCapRedundant |
| Filters.MapRgb | src/app/context/ImageContext.js:179-200 | a whole pixel loop on the buffer: no contract of its own; stated by Filters.RunFilter, MapRgbShape and AdjustNeutral |
| Filters.BrightenInPlace | src/app/context/ImageContext.js:181-183 | the pixel's three colour bytes become the brightened colour and no other byte changes |
| Filters.ContrastInPlace | src/app/context/ImageContext.js:186-188 | the pixel's colour bytes are stretched around 128, each write clamped; nothing else changes |
| Filters.SaturateInPlace | src/app/context/ImageContext.js:191-194 | the colour bytes move away from one gray computed before the writes; nothing else changes |
| Filters.ClampInPlace | src/app/context/ImageContext.js:197-199 | the explicit clamp rewrites the pixel with the clamped colour; nothing else changes |
| Filters.AdjustPixelInPlace | src/app/context/ImageContext.js:175-199 | one pixel of the brightness/contrast/saturation loop equals `AdjustRgb` of the old pixel, and all other bytes are kept |
| Filters.GrayPixelInPlace | src/app/context/ImageContext.js:290-293 | one pixel of the grayscale loop equals `GrayRgb` of the old pixel; other bytes are kept |
| Filters.SepiaPixelInPlace | src/app/context/ImageContext.js:314-320 | one pixel of the sepia loop equals `SepiaRgb` of the old pixel; other bytes are kept |
| Filters.RunFilter | src/app/context/ImageContext.js:179-200 | the in-place loop over every 4th byte leaves the buffer equal to `MapRgb` of its old contents |
| Filters.MapRgbShape | src/app/context/ImageContext.js:175-200 | filtering keeps the length and every alpha byte, and maps each pixel's colour independently |
| Filters.AdjustNeutralPixel | src/app/context/ImageContext.js:175-199 | with brightness, contrast and saturation all at 50 a colour is unchanged |
| Filters.AdjustNeutral | src/app/context/ImageContext.js:175-200 | the neutral adjustment leaves the whole buffer unchanged |
| Filters.AdjustDesaturatedIsGray | src/app/context/ImageContext.js:191-194 | at saturation 0 the output has equal red, green and blue |
| Filters.GrayscalePixel | src/app/context/ImageContext.js:289-294 | grayscale gives R = G = B, within half a unit of the luma 0.299R + 0.587G + 0.114B |
| Filters.GrayscaleFixesGray | src/app/context/ImageContext.js:289-294 | a gray pixel is its own grayscale |
| Filters.GrayscaleIdempotent | src/app/context/ImageContext.js:289-294 | applying grayscale twice equals applying it once |
| Filters.SepiaOrdered | src/app/context/ImageContext.js:313-321 | sepia output has red ≥ green ≥ blue |
| Filters.SepiaCapRedundant | src/app/context/ImageContext.js:318-320 | each sepia channel is the clamped store of the plain matrix product, so it is at most 255 |
| Filters.AdjustClampRedundant | src/app/context/ImageContext.js:197-199 | the explicit clamp at the end of the adjustment never changes a colour |
| Geometry.CanvasDim | src/app/context/ImageContext.js:347-348 | assigning a canvas size keeps the integer part of a number in [0, 2^31); a value in (-1, 1) gives 0, and a negative value of at least one converts (ToUint32) above 2^31 - 1 and so stores the default size |
| Geometry.Flip | src/app/context/ImageContext.js:255-274 | `flipImage`'s choice of direction: no contract of its own; stated by Geometry.FlipH, FlipV, FlipHAt, FlipVAt and FlipInvolution |
| Geometry.FlipH | src/app/context/ImageContext.js:263-266 | the horizontal flip keeps the dimensions |
| Geometry.FlipV | src/app/context/ImageContext.js:267-270 | the vertical flip keeps the dimensions |
| Geometry.FlipHAt | src/app/context/ImageContext.js:264-266 | pixel (x, y) of the horizontal flip is source pixel (W-1-x, y) |
| Geometry.FlipVAt | src/app/context/ImageContext.js:267-269 | pixel (x, y) of the vertical flip is source pixel (x, H-1-y) |
| Geometry.FlipInvolution | src/app/context/ImageContext.js:255-274 | flipping twice in the same direction gives back the image |
| Geometry.RotateQuarter | src/app/context/ImageContext.js:244-245 | a ±90° turn swaps width and height |
| Geometry.RotateAt | src/app/context/ImageContext.js:247-249 | the destination pixel of a clockwise or counter-clockwise quarter turn and the source pixel it shows |
| Geometry.RotateRoundTrip | src/app/context/ImageContext.js:234-252 | turning +90° and then -90° (or the reverse) gives back the image |
| Geometry.RotateHalfTurnAt | src/app/context/ImageContext.js:247-249 | two clockwise turns and two flips both send (x, y) to (W-1-x, H-1-y) |
| Geometry.RotateHalfTurn | src/app/context/ImageContext.js:234-252 | two clockwise quarter turns equal a vertical flip followed by a horizontal flip |
| Geometry.Crop | src/app/context/ImageContext.js:347-348 | the cropped canvas is `cropArea.width × cropArea.height`, truncated |
| Geometry.CropAt | src/app/context/ImageContext.js:350-360 | for whole-pixel offsets, pixel (i, j) is source pixel (x+i, y+j), or transparent outside the source |
| Geometry.CropOrigin | src/app/context/ImageContext.js:350-360 | pixel (0, 0) of a crop with both sides at least one is source pixel (x, y) |
| Geometry.CropWhole | src/app/context/ImageContext.js:341-364 | cropping to the full image gives back the image |
| Geometry.StartArea | src/app/context/ImageContext.js:371-377 | the initial crop area is centred, inside the image and 80% of each side |
| Geometry.StartAreaExample | src/app/context/ImageContext.js:370-377 | a 200×200 image gets the area {20, 20, 160, 160} |
| JsText.ParseInt | src/app/components/ImageControls.js:51-52 | `parseInt(s)` (also at ImageControls.js:86 and 98): a number is read only from a non-empty string; the rest is stated by JsText.ParseIntOfString, ParseIntExample, ParseIntHexExample and ParseIntNaN |
| JsText.DigitsFrom | src/app/components/ImageControls.js:51-52 | `parseInt` reads digits from an index and stops at the first character that is not a digit of the radix |
| JsText.DigitsFromValue | src/app/components/ImageControls.js:51-52 | the k-th digit read is the value of the character k places after the start, which is a digit of the radix |
| JsText.NatToRadix | src/app/api/visitor-stats/route.js:27 | `toString(radix)` starts with a digit of the radix and, past one digit, not with a zero |
| JsText.NumeralDigits | src/app/api/visitor-stats/route.js:27 | every character of `toString(radix)` is a digit of the radix |
| JsText.RadixRoundTrip | src/app/api/visitor-stats/route.js:27 | reading back the digits of `toString(radix)` gives the number |
| JsText.NumberToString | src/app/context/ImageContext.js:45-46 | `toString()` of a non-negative integer starts with a decimal digit |
| JsText.Scientific | src/app/components/ImageControls.js:86 | the exponent form starts with the leading decimal digit, followed by `.` or `e` |
| JsText.ExponentFormExample | src/app/components/ImageControls.js:86 | `(10^21).toString()` is "1e+21" |
| JsText.ExponentFormPointExample | src/app/components/ImageControls.js:86 | `(1.5 × 10^21).toString()` is "1.5e+21" |
| JsText.IntToString | src/app/context/ImageContext.js:45-46 | `toString()` of an integer is non-empty and starts with `-` exactly for negatives |
| JsText.SkipSpaces | src/app/components/ImageControls.js:51-52 | `parseInt` skips exactly the leading ECMAScript whitespace and line terminators |
| JsText.ParseMagnitudeOfString | src/app/components/ImageControls.js:86 | the digits read from `toString()` of n are n below 10^21 and its leading digit from 10^21 on |
| JsText.ParseIntOfString | src/app/context/ImageContext.js:45-46 | `parseInt` of an integer's `toString()` is that integer when its magnitude is below 10^21; from 10^21 on it is the leading digit, with the sign |
| JsText.ParseIntExample | src/app/components/ImageControls.js:51-52 | `parseInt(" +12px")` is 12 |
| JsText.ParseIntHexExample | src/app/components/ImageControls.js:51-52 | `parseInt("0x1A")` is 26 |
| JsText.ParseIntNaN | src/app/components/ImageControls.js:51-53 | an empty or non-numeric field is NaN, which fails the `> 0` guard |
| JsText.Round | src/app/components/ImageControls.js:86 | `Math.round` gives the integer in (x - 0.5, x + 0.5] |
| JsText.RoundUnique | src/app/components/ImageControls.js:86 | that integer is the only one in the interval |
| JsText.StripExtension | src/app/components/ImageControls.js:34 | the regex removes the final `.ext` (no `.` or `/` after the dot) when there is one, and keeps the name otherwise |
| JsText.StripExtensionOf | src/app/context/ImageContext.js:335 | `stem.ext` loses exactly `.ext` |
| JsText.StripExtensionKeeps | src/app/components/ImageControls.js:34 | a name without an extension is kept |
| JsText.StripExtensionExample | src/app/context/ImageContext.js:335 | "photo.final.png" becomes "photo.final"; "archive" and "dir.d/readme" are kept |
| Session.Reduce | src/app/context/ImageContext.js:33-133 | `imageReducer`: no contract of its own; stated by Session.ReducePreservesInv, CommitShape, UndoSpec, RedoSpec, LoadSeedsHistory, ResetShape, ResetSettings, UpdateSettingsSpec, StartOverForgets and UnknownIsIdentity |
| Session.SliceTo | src/app/context/ImageContext.js:53 | `slice(0, end)` with JavaScript clamping of the end index |
| Session.EntryAt | src/app/context/ImageContext.js:91 | indexing the history, `undefined` outside it |
| Session.Merge | src/app/context/ImageContext.js:65 | the settings spread: a field present in the payload replaces the old value, the others are kept |
| Session.InitialInv | src/app/context/ImageContext.js:9-31 | the initial state satisfies the history invariant |
| Session.ReducePreservesInv | src/app/context/ImageContext.js:33-133 | every action preserves `-1 <= historyIndex < |history|`, index -1 exactly for an empty history, and the displayed picture at the cursor |
| Session.RunPreservesInv | src/app/context/ImageContext.js:33-133 | every sequence of actions preserves the invariant |
| Session.SessionInv | src/app/context/ImageContext.js:9-133 | every state reachable from the initial state satisfies the invariant |
| Session.CommitShape | src/app/context/ImageContext.js:52-60 | a commit keeps the history up to the cursor and appends the payload, moves the cursor to the end, shows the payload and changes nothing else |
| Session.CommitThenRedo | src/app/context/ImageContext.js:97-106 | redo right after a commit does nothing |
| Session.UndoSpec | src/app/context/ImageContext.js:86-95 | undo changes the state exactly when the cursor is above 0, and then moves it back one and shows that entry |
| Session.RedoSpec | src/app/context/ImageContext.js:97-106 | redo changes the state exactly when the cursor is below the last entry, and then moves it forward one and shows that entry |
| Session.UndoThenRedo | src/app/context/ImageContext.js:86-106 | an undo that moves is reversed by redo |
| Session.RedoThenUndo | src/app/context/ImageContext.js:86-106 | a redo that moves is reversed by undo |
| Session.UndoMany | src/app/context/ImageContext.js:86-95 | n undos from cursor i ≥ n land on entry i - n and change nothing else |
| Session.RedoMany | src/app/context/ImageContext.js:97-106 | n redos within the history land on entry i + n and change nothing else |
| Session.UndoManyThenRedoMany | src/app/context/ImageContext.js:86-106 | n undos followed by n redos restore the state |
| Session.CommitAfterUndo | src/app/context/ImageContext.js:53-60 | a commit after an undo discards the redo entry and leaves nothing to redo |
| Session.LoadSeedsHistory | src/app/context/ImageContext.js:35-50 | loading sets the history to the image, the cursor to 0, the width and height fields to numerals of the dimensions, and keeps the other settings, crop state, canvas and compressed size |
| Session.StartOverForgets | src/app/context/ImageContext.js:127-128 | start-over yields exactly the initial state |
| Session.ResetKeepsOnlyPicture | src/app/context/ImageContext.js:108-125 | reset depends only on the original image, file name, size and dimensions |
| Session.ResetShape | src/app/context/ImageContext.js:108-125 | reset leaves the original image as the only history entry, shown; keeps the file name, size and dimensions; clears the canvas to null, the compressed size to 0, crop mode and the area to zero; nothing to undo or redo |
| Session.ResetSettings | src/app/context/ImageContext.js:116-120 | reset restores the default settings but width and height, which become the dimensions |
| Session.ResetIdempotent | src/app/context/ImageContext.js:108-125 | resetting twice equals resetting once |
| Session.UpdateSettingsSpec | src/app/context/ImageContext.js:62-66 | a settings update changes only the settings, applying it twice equals once, and an empty payload changes nothing |
| Session.UnknownIsIdentity | src/app/context/ImageContext.js:130-131 | an unknown action returns the state unchanged |
| Editor.Filtered | src/app/context/ImageContext.js:170-204 | a filtered image keeps its width and height |
| Editor.FilteredAt | src/app/context/ImageContext.js:179-200 | each pixel of the filtered image is the filtered colour of the same pixel, with its alpha |
| Editor.GrayscaleImage | src/app/context/ImageContext.js:289-294 | every pixel of the grayscale image has R = G = B and the original alpha |
| Editor.SepiaImage | src/app/context/ImageContext.js:313-321 | every pixel of the sepia image has R ≥ G ≥ B and the original alpha |
| Editor.NeutralAdjustment | src/app/context/ImageContext.js:175-200 | neutral filter settings give back the image |
| Editor.Resized | src/app/context/ImageContext.js:224-228 | the resized canvas has the requested width and height, for sizes up to 2^31 - 1 |
| Editor.DownloadImage | src/app/context/ImageContext.js:328-337 | a download exists exactly when there is a processed image, with MIME `image/{format}`, quality `quality / 100` and the stripped file name plus `.` and the format |
| Editor.DownloadReplacesExtension | src/app/context/ImageContext.js:335 | `stem.ext` downloads as `stem.{format}` |
| Editor.AfterCrop | src/app/context/ImageContext.js:341-364 | the state after `cropImage` commits: no contract of its own; stated by Editor.CropThenUndo, CheckedCropSpec and ImageProvider.CropImage |
| Editor.CropThenUndo | src/app/context/ImageContext.js:341-364 | cropping commits the cropped image, turns crop mode off, keeps the area and can be undone |
| Editor.CheckedCrop | src/app/context/ImageContext.js:341-364 | a crop that never commits a zero-sized picture: it keeps an editable state editable and keeps the original image and settings |
| Editor.CheckedCropSpec | src/app/context/ImageContext.js:341-364 | that crop commits exactly as the editor does when both sides of the crop canvas are at least one, and changes nothing when one is zero |
| Editor.StartThenCancelCrop | src/app/context/ImageContext.js:367-386 | starting a crop sets the centred area and crop mode; cancelling clears only crop mode |
| Editor.Editable | src/app/context/ImageContext.js:214 | a picture that `drawImage` accepts as a source, which every edit draws first: no contract of its own; used by the guards of every Editor.ImageProvider edit and by Editor.CheckedCrop |
| Editor.ImageProvider.constructor | src/app/context/ImageContext.js:135-136 | the provider starts in the initial state |
| Editor.ImageProvider.Dispatch | src/app/context/ImageContext.js:136 | dispatching replaces the state with the reducer's result |
| Editor.ImageProvider.LoadImage | src/app/context/ImageContext.js:145-160 | a decoded image is loaded with its own dimensions |
| Editor.ImageProvider.FilterCopy | src/app/context/ImageContext.js:280-296 | copying into a fresh canvas and running the pixel loop yields the filtered image |
| Editor.ImageProvider.ApplyFilters | src/app/context/ImageContext.js:170-204 | the adjustment of a canvas with the given settings |
| Editor.ImageProvider.ApplyFiltersToImage | src/app/context/ImageContext.js:207-218 | commits the adjusted picture; does nothing without a picture or when it has a zero side, since `drawImage` throws |
| Editor.ImageProvider.ResizeImage | src/app/context/ImageContext.js:221-231 | commits a canvas of the requested size; does nothing without a picture or when it has a zero side, since `drawImage` throws |
| Editor.ImageProvider.RotateImage | src/app/context/ImageContext.js:234-252 | commits the quarter-turned picture; does nothing without a picture or when it has a zero side, since `drawImage` throws |
| Editor.ImageProvider.FlipImage | src/app/context/ImageContext.js:255-274 | commits the flipped picture; does nothing without a picture or when it has a zero side, since `drawImage` throws |
| Editor.ImageProvider.ApplyGrayscale | src/app/context/ImageContext.js:277-298 | commits the grayscale picture; does nothing without a picture or when it has a zero side, since `drawImage` throws |
| Editor.ImageProvider.ApplySepia | src/app/context/ImageContext.js:301-325 | commits the sepia picture; does nothing without a picture or when it has a zero side, since `drawImage` throws |
| Editor.ImageProvider.CropImage | src/app/context/ImageContext.js:341-364 | commits the crop and leaves crop mode; does nothing without an area, without a picture or when it has a zero side, and checks neither crop mode nor a minimum size |
| Editor.ImageProvider.StartCrop | src/app/context/ImageContext.js:367-381 | sets the centred 80% area and crop mode; does nothing without a picture |
| Editor.ImageProvider.CancelCrop | src/app/context/ImageContext.js:384-386 | clears crop mode and nothing else |
| Editor.ImageProvider.CompressImage | src/app/context/ImageContext.js:389-421 | commits the decoded result of compression when an original image exists |
| Controls.Divide | src/app/components/ImageControls.js:85 | the aspect ratio of image sizes is their quotient when the divisor is positive |
| Controls.LockedDimension | src/app/components/ImageControls.js:86 | the locked field's text (also at ImageControls.js:98): no contract of its own; stated by Controls.LockedDimensionNearest, LockExample, WidthChange and HeightChange |
| Controls.LockedDimensionNearest | src/app/components/ImageControls.js:86 | the locked dimension parses back to the integer nearest entered × ratio while that is below 10^21 in magnitude, and to its leading digit (with the sign) from there on |
| Controls.RoundedReadBack | src/app/components/ImageControls.js:86 | the same read-back for `Math.round(x).toString()` of any x |
| Controls.WidthChange | src/app/components/ImageControls.js:80-90 | the payload holds the new width, and a height exactly when the lock is on, an original image exists and the field is non-empty; that height is `round(parseInt(width) * oh / ow)` |
| Controls.HeightChange | src/app/components/ImageControls.js:92-102 | the symmetric handler recomputes width from `ow / oh` under the same condition |
| Controls.LockExample | src/app/components/ImageControls.js:84-87 | at 100×50 a width of "200" gives a height of "100" |
| Controls.ResizeRequest | src/app/components/ImageControls.js:50-53 | a resize is requested exactly when both fields parse to positive integers and resize is enabled |
| Controls.ResizeAfterLoad | src/app/components/ImageControls.js:50-53 | right after loading, an enabled resize requests the image's own dimensions |
| Controls.HandleResize | src/app/components/ImageControls.js:50-56 | resizes to the parsed size only when the guard holds and the picture can be drawn |
| Controls.HandleApplyCrop | src/app/components/ImageControls.js:631 | Apply Crop crops to the state's current area, and does nothing when the picture cannot be drawn |
| Controls.ClickThenApplyCrop | src/app/components/ImageControls.js:631 | a click off the crop rectangle without moving, then Apply Crop, commits a 0×0 picture, after which no edit can run |
| Controls.ClickThenCheckedCrop | src/app/components/ImageControls.js:631 | with the checked crop the same gesture leaves the state as it was, still editable and in crop mode |
| Controls.HandleCompress | src/app/components/ImageControls.js:58-62 | compresses only when compression is enabled |
| Controls.InitialCustomName | src/app/components/ImageControls.js:32-37 | the default name is the file name without its final extension, set only while the custom name is empty |
| Controls.InitialCustomNameOf | src/app/components/ImageControls.js:33-35 | for `stem.ext` the default name is `stem` |
| Controls.HandleDownload | src/app/components/ImageControls.js:64-78 | the name is `(customFileName or 'edited-image') + '.' + format` with quality `quality / 100`; nothing without a processed image |
| Controls.DownloadNamesAgree | src/app/components/ImageControls.js:69-74 | with the default custom name this agrees with the editor's own download, except for a name that is only an extension |
| Preview.ClampTo | src/app/components/ImagePreview.js:142 | `max(0, min(hi, v))` lies in [0, hi] and keeps values already inside |
| Preview.ScreenToImage | src/app/components/ImagePreview.js:131-143 | the result lies in [0, width] × [0, height] and is the unscaled offset when that is inside |
| Preview.HitTest | src/app/components/ImagePreview.js:150-173 | the classification of a press: no contract of its own; stated by Preview.HitTestSpec and MouseDownSpec |
| Preview.HitTestSpec | src/app/components/ImagePreview.js:146-174 | priority se, ne, sw, nw within `10/scale`, then a drag with offset (cx - x, cy - y) inside the area, else a zero-size area at the point |
| Preview.MouseDown | src/app/components/ImagePreview.js:146-174 | a press does something exactly in crop mode with an image; it keeps the area or starts a zero-size one at the point |
| Preview.MouseUp | src/app/components/ImagePreview.js:222-225 | releasing stops resizing and dragging |
| Preview.MouseDownSpec | src/app/components/ImagePreview.js:146-174 | a handle press starts resizing from that corner, a press inside starts a drag with the grab offset, and any other press starts a 0×0 area at the point and resizes it from the se corner |
| Preview.FreshPressThenMove | src/app/components/ImagePreview.js:168-187 | after a fresh press, a move gives an area with both sides at least 10, equal to max(10, pointer − press), anchored at the press when it fits |
| Preview.ClickWithoutMove | src/app/components/ImagePreview.js:168-172 | a fresh press released without a move leaves a 0×0 area at the point and an idle gesture |
| Preview.CornerResize | src/app/components/ImagePreview.js:184-205 | the corner switch of a resize move: no contract of its own; stated by Preview.CornerResizeSpec, ResizeStep and FreshPressThenMove |
| Preview.PushInside | src/app/components/ImagePreview.js:207-209 | the clamp into the image after a resize move: no contract of its own; stated by Preview.PushInsideSpec and ResizeStep |
| Preview.CornerResizeSpec | src/app/components/ImagePreview.js:184-205 | after a corner step both sides are at least 10, and the edges opposite the corner stay fixed |
| Preview.PushInsideSpec | src/app/components/ImagePreview.js:207-209 | the clamp gives x, y ≥ 0, keeps the size, keeps the area inside when it fits and moves nothing already inside |
| Preview.ResizeStep | src/app/components/ImagePreview.js:181-211 | the field-by-field update equals clamping the corner step, so sides are at least 10, x, y ≥ 0 and a fitting area is inside |
| Preview.DragTo | src/app/components/ImagePreview.js:212-218 | the rectangle after a drag move: no contract of its own; stated by Preview.DragToSpec and PressThenDragInPlace |
| Preview.DragToSpec | src/app/components/ImagePreview.js:212-218 | dragging keeps the size, clamps the origin to the image and follows the pointer where it can |
| Preview.PressThenDragInPlace | src/app/components/ImagePreview.js:212-218 | dragging without moving the pointer leaves an inside area where it is |
| Preview.MouseMove | src/app/components/ImagePreview.js:176-220 | nothing outside crop mode or without an image; else a resize step, a drag or nothing |
| Preview.ZoomIn | src/app/components/ImagePreview.js:58-61 | zoom in is `min(s * 1.2, 5)` and clears fit-to-screen |
| Preview.ZoomOut | src/app/components/ImagePreview.js:63-66 | zoom out is `max(s / 1.2, 0.1)` and clears fit-to-screen |
| Preview.ZoomRoundTrip | src/app/components/ImagePreview.js:58-66 | away from the limits, zooming in then out (or out then in) restores the scale |
| Preview.ZoomStaysInRange | src/app/components/ImagePreview.js:58-66 | zooming keeps a scale in [0.1, 5] there |
| Preview.Actual | src/app/components/ImagePreview.js:53-56 | 100% sets scale 1 and clears fit-to-screen |
| Preview.FitToScreen | src/app/components/ImagePreview.js:49-51 | fit sets the flag and leaves the scale to the fit computation |
| Preview.KeyDown | src/app/components/ImagePreview.js:73-90 | '+' and '=' zoom in, '-' zooms out, '0' fits, '1' is 100%, other keys and no image do nothing |
| Preview.Wheel | src/app/components/ImagePreview.js:118-128 | with Ctrl and an image, wheel up zooms in and otherwise out |
| Preview.FitScale | src/app/components/ImagePreview.js:34-45 | the fit scale is `min(sx, sy, 1)`: at most 1 and small enough for both padded sides |
| Mobile.MobileFileName | src/app/components/MobileFloatingButton.js:20-22 | the stripped file name plus `.` and the format, or `edited-image.` and the format for an empty name |
| Mobile.HandleTap | src/app/components/MobileFloatingButton.js:11-35 | a warning toast and no download without a picture, else an encode with MIME `image/{format}` and quality `quality / 100` |
| Mobile.OnBlob | src/app/components/MobileFloatingButton.js:24-34 | a blob is saved under the name with a success toast; a null blob saves nothing and shows an error |
| Mobile.Visible | src/app/components/MobileFloatingButton.js:43-45 | whether the button renders: no contract of its own; stated by Mobile.VisibleMeansEncode |
| Mobile.VisibleMeansEncode | src/app/components/MobileFloatingButton.js:43-45 | the button shows exactly on the preview tab with a picture, so a visible button's tap always encodes |
| Mobile.TapAgreesWithSession | src/app/components/MobileFloatingButton.js:20-22 | with a file name the request equals the editor's own download; without one the names differ |
| Mobile.TapExample | src/app/components/MobileFloatingButton.js:20-22 | "photo.png" in jpeg downloads as "photo.jpeg" |
| Visitors.ToInt32 | src/app/api/visitor-stats/route.js:25 | the 32-bit conversion lands in [-2^31, 2^31) |
| Visitors.ToInt32Periodic | src/app/api/visitor-stats/route.js:24-25 | the conversion depends only on its argument modulo 2^32 |
| Visitors.StepIsTimes31 | src/app/api/visitor-stats/route.js:24-25 | `((h << 5) - h) + c` then `& itself` is `ToInt32(31h + c)` |
| Visitors.HashFold | src/app/api/visitor-stats/route.js:20-26 | the folded hash is a signed 32-bit integer |
| Visitors.HashIsPolynomial | src/app/api/visitor-stats/route.js:19-26 | the hash equals the polynomial Σ c·31^k reduced by ToInt32 |
| Visitors.HashExample | src/app/api/visitor-stats/route.js:19-28 | "a" with agent "b" hashes to 3105, written "2e9" |
| Visitors.HashOf | src/app/api/visitor-stats/route.js:19-28 | `hashVisitor(ip, userAgent)`: no contract of its own; stated by Visitors.HashOfDigits, HashOfInjective, HashExample and HashVisitor |
| Visitors.HashOfDigits | src/app/api/visitor-stats/route.js:27 | the identifier is the absolute hash in base 36, at most 2^31 |
| Visitors.HashOfInjective | src/app/api/visitor-stats/route.js:27 | two identifiers are equal exactly when the absolute hashes are |
| Visitors.HashVisitor | src/app/api/visitor-stats/route.js:19-28 | the loop returns the base-36 absolute value of the folded hash |
| Visitors.FirstField | src/app/api/visitor-stats/route.js:53 | `split(",")[0]`: the longest comma-free prefix |
| Visitors.ClientIp | src/app/api/visitor-stats/route.js:52-53 | the first forwarded address, else the request address, else 'unknown' |
| Visitors.ClientAgent | src/app/api/visitor-stats/route.js:54 | the user agent, or 'unknown' without one: no contract of its own; used by Visitors.Stats.Get |
| Visitors.Visit | src/app/api/visitor-stats/route.js:63-67 | the identifier joins the set, and the count grows by one exactly when it was new |
| Visitors.CountsDistinct | src/app/api/visitor-stats/route.js:63-67 | over any run of visits the count grows by the number of distinct new identifiers |
| Visitors.Live | src/app/api/visitor-stats/route.js:31-38 | the entries kept are exactly those not older than the cutoff, with their timestamps |
| Visitors.LiveIdempotent | src/app/api/visitor-stats/route.js:31-38 | expiring twice equals once, and a later cutoff keeps fewer entries |
| Visitors.Activity | src/app/api/visitor-stats/route.js:74-76 | the simulated bump is 1 to 3 when the first draw is below 0.1, else 0 |
| Visitors.Stats.constructor | src/app/api/visitor-stats/route.js:7-16 | the seeded counters 1247, 23, 1, 3456, 67, empty set and map |
| Visitors.Stats.CleanupOnlineUsers | src/app/api/visitor-stats/route.js:31-38 | deleting while iterating removes exactly the entries older than five minutes and nothing else changes |
| Visitors.Stats.CheckDailyReset | src/app/api/visitor-stats/route.js:41-47 | a new day zeroes today's count and records the day; the same day changes nothing |
| Visitors.Stats.Get | src/app/api/visitor-stats/route.js:49-85 | records the visitor (counts rise by one exactly when new), stamps it with `now`, sets `onlineNow` to the map's size and returns the counters |
| Visitors.Stats.Post | src/app/api/visitor-stats/route.js:95-113 | `photo_edited` adds exactly one and returns the new count; another action is refused and a failing body gives a server error, both changing nothing |

## Left out

- Floating point: numbers are exact reals, so filter coefficients, the 0.1 crop margin, the 1.2 zoom step and the aspect ratio are computed without IEEE rounding. Results near a rounding tie may differ by one unit from a browser.
- Canvas resampling: `drawImage` scaling in a resize, and the decode after compression, are host behaviour. The resized pixels and the decoded bitmap are parameters; only the dimensions and the commit are modelled.
- Geometry.CropAt: pixels are stated only for whole-pixel crop offsets. A fractional offset is read from the floor of the offset, and the host's interpolation is not modelled.
- Geometry.CanvasDim: sizes are exact reals, so NaN and infinities, which the unsigned long conversion turns into 0, are not modelled. Its negative branch is never reached here, because crop areas never have a negative side.
- Picture sides are at most 2^31 - 1: a canvas cannot store more, and a decoded image larger than that is not modelled.
- Premultiplied alpha: `putImageData` may round the colour of a pixel that is not fully opaque, so `getImageData` can later read it back changed (ImageContext.js:172 and 202, 286 and 296, 310 and 323). The filters are modelled as exact on every pixel. That matches the browser only for opaque pixels.
- Exceptions: a `drawImage` that throws inside an edit is modelled as the edit changing nothing. The exception that reaches the caller is not modelled.
- Editor.ImageProvider.CompressImage: a zero-sized canvas yields a null blob and the compression fails. That case falls under a `None` decoded result.
- Rotation by angles other than ±90° is not modelled. The controls only ever ask for quarter turns.
- Preview.ScreenToImage: requires a non-zero scale. A zero scale would divide by zero in JavaScript and then clamp an infinity.
- Preview.HitTestSpec: requires a non-zero scale for the same reason.
- Preview.FitScale: requires positive canvas dimensions. A zero-sized canvas divides by zero.
- JsText.ParseInt: digit strings are read exactly. `parseInt` loses precision beyond 2^53, and numbers are printed exactly below 10^21; that rounding is not modelled.
- JsText.ParseIntOfString: from 10^21 on, `parseInt` of `toString()` is no longer the number itself but its leading digit, because `toString()` switches to exponent form. The lemma states that instead.
- Controls.LockedDimensionNearest: for the same reason, a locked dimension of 10^21 or more reads back as its leading digit, not as the nearest integer.
- Preview.HitTest: classifies a press only. The crop-mode and image guard of the handler is in `Preview.MouseDown`.
- Visitors.HashVisitor: characters are single code units. Text outside the Basic Multilingual Plane would be hashed as two surrogates, which is not modelled.
- Randomness and clocks: `Math.random`, `Date.now` and `toDateString` are parameters of `Visitors.Stats.Get` and of the other members that need them.
- HTTP plumbing (reading headers and bodies, JSON responses, status codes other than the modelled outcomes) is not modelled.
- The filter debounce timer in the controls is not modelled, because it is timer-driven rather than a one-shot operation.
- File-size formatting and the 0.4 size estimate are floating-point presentation and are not modelled.
- Image decoding on load and the compression library are foreign calls. Loading takes a decoded bitmap, and compression takes an optional decoded result, where `None` stands for a failed compression.
- Rendering, DOM events, drag-and-drop and toast display are not modelled. The `try`/`catch` around the mobile download, which catches host exceptions, is left out too.
- The zoom percentage label (`Math.round(scale * 100)`) is display only and is not modelled.
- The visitor polling context is network code and is not modelled.

## Findings

| source | as written | input that shows it | evidently intended | confidence | as-written member | corrected member |
|---|---|---|---|---|---|---|
| src/app/components/ImagePreview.js:168-172, src/app/components/ImageControls.js:631, src/app/context/ImageContext.js:341-364 | a press off the crop rectangle sets a 0×0 area, the release keeps it, and Apply Crop crops to it without a size check: the result is a 0×0 canvas, committed to the history, from which every later edit throws in `drawImage` | in crop mode, click once outside the rectangle without moving the mouse, then press Apply Crop | a crop whose canvas would have a zero side does not commit and leaves the state as it was | not executed | Controls.ClickThenApplyCrop | Editor.CheckedCrop, with Editor.CheckedCropSpec and Controls.ClickThenCheckedCrop |

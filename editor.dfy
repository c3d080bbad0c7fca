/** The `ImageProvider`: the session state behind a dispatch function, and
    the editing operations, each of which draws the shown image into a fresh
    canvas, transforms it and commits the result. */
module Editor {
  import opened Bytes
  import opened Bitmaps
  import opened Filters
  import opened Geometry
  import opened Options
  import opened JsText
  import opened Session

  /** The buffer a filter loop leaves behind in a copy of `img`. */
  function Filtered(img: Bitmap, f: Filter): (r: Bitmap)
    ensures r.width == img.width && r.height == img.height
  {
    DataLengthMultipleOf4(img);
    MapRgbLength(img.data, f);
    RawBitmap(img.width, img.height, MapRgb(img.data, f))
  }

  lemma MapRgbLength(s: seq<Byte>, f: Filter)
    requires |s| % 4 == 0
    ensures |MapRgb(s, f)| == |s|
  {
  }

  function ColourOf(p: Pixel): Rgb { Rgb(p.r, p.g, p.b) }

  /** Each pixel of the filtered copy is the filtered colour of the same
      pixel, with its alpha kept. */
  lemma FilteredAt(img: Bitmap, f: Filter, x: nat, y: nat)
    requires x < img.width && y < img.height
    ensures var p, q := At(img, x, y), At(Filtered(img, f), x, y);
      ColourOf(q) == ApplyPixel(f, ColourOf(p)) && q.a == p.a
  {
    var i := Offset(img.width, x, y);
    AtBytes(img, x, y);
    DataLengthMultipleOf4(img);
    MapRgbPixel(img.data, f, i);
    AtBytes(Filtered(img, f), x, y);
  }

  /** The pixel starting at byte `i` after a filter loop. */
  lemma MapRgbPixel(s: seq<Byte>, f: Filter, i: nat)
    requires |s| % 4 == 0 && i % 4 == 0 && i + 3 < |s|
    ensures var m := MapRgb(s, f);
      |m| == |s| && m[i + 3] == s[i + 3]
      && Rgb(m[i], m[i + 1], m[i + 2]) == ApplyPixel(f, Rgb(s[i], s[i + 1], s[i + 2]))
  {
    var j := i / 4;
    assert i == 4 * j;
    MapRgbShape(s, f, j);
  }

  /** After grayscale every pixel has equal red, green and blue. */
  lemma GrayscaleImage(img: Bitmap, x: nat, y: nat)
    requires x < img.width && y < img.height
    ensures var q := At(Filtered(img, Grayscale), x, y); q.r == q.g == q.b && q.a == At(img, x, y).a
  {
    FilteredAt(img, Grayscale, x, y);
    GrayscalePixel(ColourOf(At(img, x, y)));
  }

  /** After sepia every pixel has red >= green >= blue, all of them bytes. */
  lemma SepiaImage(img: Bitmap, x: nat, y: nat)
    requires x < img.width && y < img.height
    ensures var q := At(Filtered(img, Sepia), x, y); q.r >= q.g >= q.b && q.a == At(img, x, y).a
  {
    FilteredAt(img, Sepia, x, y);
    SepiaOrdered(ColourOf(At(img, x, y)));
  }

  /** With the three sliders at 50 the adjustment gives the image back. */
  lemma NeutralAdjustment(img: Bitmap)
    ensures Filtered(img, Adjust(50, 50, 50)) == img
  {
    DataLengthMultipleOf4(img);
    AdjustNeutral(img.data);
  }

  /** The resized canvas: `width` by `height` as canvas sizes, with pixels
      drawn by the host. */
  function Resized(width: int, height: int, drawn: (nat, nat) -> Pixel): (r: Bitmap)
    ensures 0 <= width <= MaxSide && 0 <= height <= MaxSide ==> r.width == width && r.height == height
  {
    Build(CanvasDim(width as real, DefaultWidth), CanvasDim(height as real, DefaultHeight), drawn)
  }

  /** What `downloadImage` asks the host to save: the file name without its
      extension plus the format, the MIME type and the encoder quality. */
  datatype Download = Download(fileName: string, mimeType: string, quality: real)

  function MimeType(format: string): string { "image/" + format }

  function DownloadImage(s: State): (d: Option<Download>)
    ensures d.Some? <==> s.processedImage.Some?
    ensures d.Some? ==>
      && d.value.mimeType == "image/" + s.settings.format
      && d.value.quality * 100.0 == s.settings.quality as real
      && d.value.fileName == StripExtension(s.fileName) + "." + s.settings.format
  {
    if s.processedImage.None? then None
    else Some(Download(StripExtension(s.fileName) + "." + s.settings.format,
                       MimeType(s.settings.format), s.settings.quality as real / 100.0))
  }

  /** A loaded `stem.ext` downloads as `stem.format`. */
  lemma DownloadReplacesExtension(s: State, stem: string, ext: string)
    requires s.processedImage.Some? && s.fileName == stem + "." + ext
    requires |ext| > 0 && forall j :: 0 <= j < |ext| ==> ext[j] != '.' && ext[j] != '/'
    ensures DownloadImage(s).Some?
    ensures DownloadImage(s).value.fileName == stem + "." + s.settings.format
  {
    StripExtensionOf(stem, ext);
  }

  /** The state after a crop: the cropped buffer is committed and crop mode
      is switched off. */
  function AfterCrop(s: State, area: CropArea): State
    requires s.processedImage.Some?
  {
    Reduce(Reduce(s, SetProcessedImage(Crop(s.processedImage.value, area))), SetCropMode(false))
  }

  /** A crop shows the cropped buffer with crop mode off, and one undo
      brings back the image the crop was taken from. */
  lemma CropThenUndo(s: State, area: CropArea)
    requires Inv(s) && s.processedImage.Some?
    ensures var t := AfterCrop(s, area);
      Inv(t) && !t.cropMode && t.cropArea == s.cropArea
      && t.processedImage == Some(Crop(s.processedImage.value, area))
      && Reduce(t, Undo).processedImage == s.processedImage
  {
    var c := Crop(s.processedImage.value, area);
    CommitShape(s, c);
  }

  /** Apply Crop as evidently intended: a crop whose canvas would have a
      zero side is refused, leaving the session as it is (still in crop
      mode), so the picture stays editable. */
  function CheckedCrop(s: State, area: CropArea): (t: State)
    ensures Editable(s) ==> Editable(t)
    ensures t.originalImage == s.originalImage && t.settings == s.settings
  {
    if Editable(s) && Drawable(Crop(s.processedImage.value, area)) then AfterCrop(s, area) else s
  }

  /** The size check changes nothing for a crop canvas with both sides at
      least 1, and refuses exactly the others. */
  lemma CheckedCropSpec(s: State, area: CropArea)
    requires Editable(s)
    ensures CanvasDim(area.width, DefaultWidth) >= 1 && CanvasDim(area.height, DefaultHeight) >= 1 ==>
      CheckedCrop(s, area) == AfterCrop(s, area)
    ensures CanvasDim(area.width, DefaultWidth) == 0 || CanvasDim(area.height, DefaultHeight) == 0 ==>
      CheckedCrop(s, area) == s
  {
  }

  /** Starting a crop sets the centred rectangle and turns crop mode on;
      cancelling turns crop mode off and keeps that rectangle; neither
      touches the history. */
  lemma StartThenCancelCrop(s: State)
    requires s.processedImage.Some?
    ensures var img := s.processedImage.value;
      var started := Reduce(Reduce(s, SetCropArea(StartArea(img.width, img.height))), SetCropMode(true));
      var cancelled := Reduce(started, SetCropMode(false));
      started.cropMode && started.cropArea == StartArea(img.width, img.height)
      && !cancelled.cropMode && cancelled.cropArea == started.cropArea
      && cancelled == s.(cropMode := false, cropArea := StartArea(img.width, img.height))
  {
  }

  /** Whether an edit can redraw the current picture: there is one and
      neither of its sides is zero. Every edit below starts with a
      `drawImage` of the current picture, which throws otherwise, so the
      edit stops before it dispatches anything. */
  predicate Editable(s: State)
  {
    s.processedImage.Some? && Drawable(s.processedImage.value)
  }

  class ImageProvider {
    var state: State

    constructor()
      ensures state == InitialState
    {
      state := InitialState;
    }

    method Dispatch(a: Action)
      modifies this
      ensures state == Reduce(old(state), a)
    {
      state := Reduce(state, a);
    }

    /** `loadImage`: the decoded picture is a parameter; the canvas takes
        its size. */
    method LoadImage(decoded: Bitmap, name: string, size: nat)
      modifies this
      ensures state == Reduce(old(state), SetOriginalImage(decoded, name, size, Dims(decoded.width, decoded.height)))
    {
      Dispatch(SetOriginalImage(decoded, name, size, Dims(decoded.width, decoded.height)));
    }

    /** Copies `img` into a fresh byte array and runs a filter loop on it. */
    static method FilterCopy(img: Bitmap, f: Filter) returns (r: Bitmap)
      ensures r == Filtered(img, f)
    {
      DataLengthMultipleOf4(img);
      var data := new Byte[|img.data|](k requires 0 <= k < |img.data| => img.data[k]);
      assert data[..] == img.data;
      RunFilter(data, f);
      MapRgbLength(img.data, f);
      r := RawBitmap(img.width, img.height, data[..]);
    }

    /** `applyFilters(canvas, filters)` on a fresh copy of `img`. */
    static method ApplyFilters(img: Bitmap, filters: Settings) returns (r: Bitmap)
      ensures r == Filtered(img, Adjust(filters.brightness, filters.contrast, filters.saturation))
    {
      r := FilterCopy(img, Adjust(filters.brightness, filters.contrast, filters.saturation));
    }

    method ApplyFiltersToImage()
      modifies this
      ensures !Editable(old(state)) ==> state == old(state)
      ensures Editable(old(state)) ==>
        var st := old(state).settings;
        state == Reduce(old(state), SetProcessedImage(
          Filtered(old(state).processedImage.value, Adjust(st.brightness, st.contrast, st.saturation))))
    {
      if !Editable(state) { return; }
      var filtered := ApplyFilters(state.processedImage.value, state.settings);
      Dispatch(SetProcessedImage(filtered));
    }

    /** `resizeImage(width, height)`; the host's resampling is `drawn`. */
    method ResizeImage(width: int, height: int, drawn: (nat, nat) -> Pixel)
      modifies this
      ensures !Editable(old(state)) ==> state == old(state)
      ensures Editable(old(state)) ==>
        state == Reduce(old(state), SetProcessedImage(Resized(width, height, drawn)))
    {
      if !Editable(state) { return; }
      Dispatch(SetProcessedImage(Resized(width, height, drawn)));
    }

    /** `rotateImage(90)` when `clockwise`, `rotateImage(-90)` otherwise. */
    method RotateImage(clockwise: bool)
      modifies this
      ensures !Editable(old(state)) ==> state == old(state)
      ensures Editable(old(state)) ==>
        state == Reduce(old(state), SetProcessedImage(RotateQuarter(old(state).processedImage.value, clockwise)))
    {
      if !Editable(state) { return; }
      Dispatch(SetProcessedImage(RotateQuarter(state.processedImage.value, clockwise)));
    }

    method FlipImage(horizontal: bool)
      modifies this
      ensures !Editable(old(state)) ==> state == old(state)
      ensures Editable(old(state)) ==>
        state == Reduce(old(state), SetProcessedImage(Flip(old(state).processedImage.value, horizontal)))
    {
      if !Editable(state) { return; }
      Dispatch(SetProcessedImage(Flip(state.processedImage.value, horizontal)));
    }

    method ApplyGrayscale()
      modifies this
      ensures !Editable(old(state)) ==> state == old(state)
      ensures Editable(old(state)) ==>
        state == Reduce(old(state), SetProcessedImage(Filtered(old(state).processedImage.value, Grayscale)))
    {
      if !Editable(state) { return; }
      var gray := FilterCopy(state.processedImage.value, Grayscale);
      Dispatch(SetProcessedImage(gray));
    }

    method ApplySepia()
      modifies this
      ensures !Editable(old(state)) ==> state == old(state)
      ensures Editable(old(state)) ==>
        state == Reduce(old(state), SetProcessedImage(Filtered(old(state).processedImage.value, Sepia)))
    {
      if !Editable(state) { return; }
      var toned := FilterCopy(state.processedImage.value, Sepia);
      Dispatch(SetProcessedImage(toned));
    }

    /** `cropImage(cropArea)`; a missing area does nothing. */
    method CropImage(area: Option<CropArea>)
      modifies this
      ensures !Editable(old(state)) || area.None? ==> state == old(state)
      ensures Editable(old(state)) && area.Some? ==> state == AfterCrop(old(state), area.value)
    {
      if !Editable(state) || area.None? { return; }
      Dispatch(SetProcessedImage(Crop(state.processedImage.value, area.value)));
      Dispatch(SetCropMode(false));
    }

    method StartCrop()
      modifies this
      ensures old(state).processedImage.None? ==> state == old(state)
      ensures old(state).processedImage.Some? ==>
        var img := old(state).processedImage.value;
        state == old(state).(cropArea := StartArea(img.width, img.height), cropMode := true)
    {
      if state.processedImage.None? { return; }
      var img := state.processedImage.value;
      Dispatch(SetCropArea(StartArea(img.width, img.height)));
      Dispatch(SetCropMode(true));
    }

    method CancelCrop()
      modifies this
      ensures state == old(state).(cropMode := false)
    {
      Dispatch(SetCropMode(false));
    }

    /** `compressImage`: the host's compress-and-decode round trip is
        `decoded`, `None` when it fails. */
    method CompressImage(decoded: Option<Bitmap>)
      modifies this
      ensures old(state).originalImage.None? || decoded.None? ==> state == old(state)
      ensures old(state).originalImage.Some? && decoded.Some? ==>
        state == Reduce(old(state), SetProcessedImage(decoded.value))
    {
      if state.originalImage.None? || decoded.None? { return; }
      Dispatch(SetProcessedImage(decoded.value));
    }
  }
}

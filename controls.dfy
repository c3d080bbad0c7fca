/** The handlers of the editing panel: the aspect-ratio lock on the width
    and height fields, the resize and compress buttons, the custom file
    name and the download button. */
module Controls {
  import opened Bitmaps
  import opened Options
  import opened JsText
  import opened Session
  import opened Editor
  import opened Geometry
  import Preview

  /** The values a JavaScript number computation can end in here. */
  datatype Number = Finite(v: real) | NaN | PlusInfinity | MinusInfinity

  /** The exact quotient and product; kept as functions of their own so
      that proofs treat them as values. */
  function Ratio(a: nat, b: nat): real
    requires b > 0
  {
    a as real / b as real
  }

  function Product(k: int, v: real): real { k as real * v }

  /** `a / b` for canvas sizes: division by zero gives Infinity, or NaN
      for `0 / 0`. */
  function Divide(a: nat, b: nat): (q: Number)
    ensures b > 0 ==> q == Finite(Ratio(a, b))
  {
    if b > 0 then Finite(Ratio(a, b)) else if a > 0 then PlusInfinity else NaN
  }

  /** `n * q` for an integer `n` (or NaN, as `None`). */
  function Times(n: Option<int>, q: Number): Number
  {
    match (n, q)
    case (None, _) => NaN
    case (_, NaN) => NaN
    case (Some(k), Finite(v)) => Finite(Product(k, v))
    case (Some(k), PlusInfinity) => if k > 0 then PlusInfinity else if k < 0 then MinusInfinity else NaN
    case (Some(k), MinusInfinity) => if k > 0 then MinusInfinity else if k < 0 then PlusInfinity else NaN
  }

  /** `Math.round(x).toString()`. */
  function RoundToString(x: Number): string
  {
    match x
    case Finite(v) => IntToString(Round(v))
    case NaN => "NaN"
    case PlusInfinity => "Infinity"
    case MinusInfinity => "-Infinity"
  }

  /** The other field under the lock: `Math.round(parseInt(entered) *
      (numerator / denominator)).toString()`. */
  function LockedDimension(entered: string, numerator: nat, denominator: nat): string
  {
    RoundToString(Times(ParseInt(entered), Divide(numerator, denominator)))
  }

  /** For a number typed into the field and a non-empty picture, the other
      field reads back as the integer nearest to the scaled value while
      that integer has fewer than 22 digits; from 10^21 on its text is in
      exponent form and reads back as its leading digit, with the sign. */
  lemma LockedDimensionNearest(entered: string, numerator: nat, denominator: nat)
    requires ParseInt(entered).Some? && denominator > 0
    ensures var x := Product(ParseInt(entered).value, Ratio(numerator, denominator));
      var r := ParseInt(LockedDimension(entered, numerator, denominator));
      -Exp21 < Round(x) < Exp21 ==> r.Some? && x - 0.5 < r.value as real <= x + 0.5
    ensures var x := Product(ParseInt(entered).value, Ratio(numerator, denominator));
      var r := ParseInt(LockedDimension(entered, numerator, denominator));
      (Round(x) >= Exp21 ==> r == Some(LeadingDigit(Round(x)))) &&
      (Round(x) <= -Exp21 ==> r == Some(-(LeadingDigit(-Round(x)) as int)))
  {
    LockedDimensionOfNumber(entered, numerator, denominator);
    RoundedReadBack(Product(ParseInt(entered).value, Ratio(numerator, denominator)));
  }

  /** `parseInt(Math.round(x).toString())`. */
  lemma RoundedReadBack(x: real)
    ensures var r := ParseInt(IntToString(Round(x)));
      -Exp21 < Round(x) < Exp21 ==> r.Some? && x - 0.5 < r.value as real <= x + 0.5
    ensures var r := ParseInt(IntToString(Round(x)));
      (Round(x) >= Exp21 ==> r == Some(LeadingDigit(Round(x)))) &&
      (Round(x) <= -Exp21 ==> r == Some(-(LeadingDigit(-Round(x)) as int)))
  {
    ParseIntOfString(Round(x));
  }

  lemma LockedDimensionOfNumber(entered: string, numerator: nat, denominator: nat)
    requires ParseInt(entered).Some? && denominator > 0
    ensures LockedDimension(entered, numerator, denominator)
      == IntToString(Round(Product(ParseInt(entered).value, Ratio(numerator, denominator))))
  {
  }

  /** `handleWidthChange`: the typed width, and under the lock the height
      recomputed from the loaded picture's proportions. */
  function WidthChange(value: string, settings: Settings, original: Canvas): (p: SettingsPatch)
    ensures p.width == Some(value)
    ensures p.height.Some? <==> settings.lockAspectRatio && original.Some? && value != ""
    ensures p.height.Some? ==> p.height.value == LockedDimension(value, original.value.height, original.value.width)
    ensures p.(width := None, height := None) == EmptyPatch
  {
    if settings.lockAspectRatio && original.Some? && value != "" then
      EmptyPatch.(width := Some(value), height := Some(LockedDimension(value, original.value.height, original.value.width)))
    else EmptyPatch.(width := Some(value))
  }

  /** `handleHeightChange`, the mirror image. */
  function HeightChange(value: string, settings: Settings, original: Canvas): (p: SettingsPatch)
    ensures p.height == Some(value)
    ensures p.width.Some? <==> settings.lockAspectRatio && original.Some? && value != ""
    ensures p.width.Some? ==> p.width.value == LockedDimension(value, original.value.width, original.value.height)
    ensures p.(width := None, height := None) == EmptyPatch
  {
    if settings.lockAspectRatio && original.Some? && value != "" then
      EmptyPatch.(height := Some(value), width := Some(LockedDimension(value, original.value.width, original.value.height)))
    else EmptyPatch.(height := Some(value))
  }

  lemma Numerals()
    ensures IntToString(200) == "200" && IntToString(100) == "100"
  {
    assert NatToRadix(2, 10) == "2";
    assert NatToRadix(20, 10) == "20";
    assert NatToRadix(1, 10) == "1";
    assert NatToRadix(10, 10) == "10";
  }

  lemma HalfOf200()
    ensures LockedDimension("200", 50, 100) == "100"
  {
    Numerals();
    ParseIntOfString(200);
    assert ParseInt("200") == Some(200);
    assert Ratio(50, 100) == 0.5;
    assert Product(200, 0.5) == 100.0;
    assert Times(Some(200), Divide(50, 100)) == Finite(100.0);
    assert Round(100.0) == 100;
  }

  /** A 100 by 50 picture with the lock on: typing 200 as the width sets
      the height to 100. */
  lemma LockExample(settings: Settings, original: Bitmap)
    requires settings.lockAspectRatio && original.width == 100 && original.height == 50
    ensures WidthChange("200", settings, Some(original)).height == Some("100")
  {
    HalfOf200();
  }

  /** `handleResize`: the size passed to `resizeImage`, when both fields
      parse to positive numbers and resizing is switched on. */
  function ResizeRequest(settings: Settings, enableResize: bool): (r: Option<(int, int)>)
    ensures r.Some? <==>
      enableResize && ParseInt(settings.width).Some? && ParseInt(settings.width).value > 0
      && ParseInt(settings.height).Some? && ParseInt(settings.height).value > 0
    ensures r.Some? ==> r.value == (ParseInt(settings.width).value, ParseInt(settings.height).value)
  {
    var w, h := ParseInt(settings.width), ParseInt(settings.height);
    if w.Some? && w.value > 0 && h.Some? && h.value > 0 && enableResize then Some((w.value, h.value)) else None
  }

  /** A freshly loaded picture's own size is a valid resize request that
      leaves the size unchanged. */
  lemma ResizeAfterLoad(s: State, image: Bitmap, name: string, size: nat)
    requires image.width > 0 && image.height > 0
    ensures var t := Reduce(s, SetOriginalImage(image, name, size, Dims(image.width, image.height)));
      ResizeRequest(t.settings, true) == Some((image.width as int, image.height as int))
  {
    LoadSeedsHistory(s, image, name, size, Dims(image.width, image.height));
  }

  method HandleResize(editor: ImageProvider, enableResize: bool, drawn: (nat, nat) -> Pixel)
    modifies editor
    ensures ResizeRequest(old(editor.state).settings, enableResize).None? ==> editor.state == old(editor.state)
    ensures ResizeRequest(old(editor.state).settings, enableResize).Some? ==>
      var (w, h) := ResizeRequest(old(editor.state).settings, enableResize).value;
      editor.state == (if !Editable(old(editor.state)) then old(editor.state)
                       else Reduce(old(editor.state), SetProcessedImage(Resized(w, h, drawn))))
  {
    var request := ResizeRequest(editor.state.settings, enableResize);
    if request.Some? {
      editor.ResizeImage(request.value.0, request.value.1, drawn);
    }
  }

  /** The Apply Crop button: `cropImage(state.cropArea)`. */
  method HandleApplyCrop(editor: ImageProvider)
    modifies editor
    ensures !Editable(old(editor.state)) ==> editor.state == old(editor.state)
    ensures Editable(old(editor.state)) ==>
      editor.state == AfterCrop(old(editor.state), old(editor.state).cropArea)
  {
    editor.CropImage(Some(editor.state.cropArea));
  }

  /** As written, a click in crop mode off the rectangle and its handles,
      released without a move, leaves an empty rectangle, and Apply Crop
      then commits a canvas with no pixels: from there on no edit can
      redraw the picture. */
  lemma ClickThenApplyCrop(s: State, g: Preview.Gesture, c: Preview.Point, scale: real)
    requires Editable(s) && s.cropMode && scale != 0.0
    requires Preview.HitTest(c, s.cropArea, scale).Fresh?
    ensures var (_, area) := Preview.MouseDown(true, true, g, c, s.cropArea, scale).value;
      var t := Reduce(s, SetCropArea(area));
      var u := AfterCrop(t, t.cropArea);
      Editable(t) && u.processedImage.Some?
      && u.processedImage.value.width == 0 && u.processedImage.value.height == 0
      && !Editable(u)
  {
    Preview.ClickWithoutMove(g, c, s.cropArea, scale);
  }

  /** With the corrected crop the same click leaves the session as it was,
      in crop mode and with the picture still editable. */
  lemma ClickThenCheckedCrop(s: State, g: Preview.Gesture, c: Preview.Point, scale: real)
    requires Editable(s) && s.cropMode && scale != 0.0
    requires Preview.HitTest(c, s.cropArea, scale).Fresh?
    ensures var (_, area) := Preview.MouseDown(true, true, g, c, s.cropArea, scale).value;
      var t := Reduce(s, SetCropArea(area));
      CheckedCrop(t, t.cropArea) == t && Editable(t) && t.cropMode
  {
    Preview.ClickWithoutMove(g, c, s.cropArea, scale);
    var area := Preview.MouseDown(true, true, g, c, s.cropArea, scale).value.1;
    CheckedCropSpec(Reduce(s, SetCropArea(area)), area);
  }

  /** `handleCompress`: compresses only while compression is switched on. */
  method HandleCompress(editor: ImageProvider, enableCompression: bool, decoded: Option<Bitmap>)
    modifies editor
    ensures !enableCompression ==> editor.state == old(editor.state)
    ensures enableCompression ==>
      editor.state == (if old(editor.state).originalImage.None? || decoded.None? then old(editor.state)
                       else Reduce(old(editor.state), SetProcessedImage(decoded.value)))
  {
    if enableCompression {
      editor.CompressImage(decoded);
    }
  }

  /** The custom name after the load effect: the file name without its
      extension, but only while the custom name is still empty. */
  function InitialCustomName(fileName: string, customFileName: string): (r: string)
    ensures customFileName != "" || fileName == "" ==> r == customFileName
    ensures customFileName == "" && fileName != "" ==>
      |r| <= |fileName| && r == fileName[..|r|] && (r == fileName || ExtensionAt(fileName, |r|))
  {
    if fileName != "" && customFileName == "" then StripExtension(fileName) else customFileName
  }

  lemma InitialCustomNameOf(stem: string, ext: string)
    requires |ext| > 0 && forall j :: 0 <= j < |ext| ==> ext[j] != '.' && ext[j] != '/'
    ensures InitialCustomName(stem + "." + ext, "") == stem
  {
    StripExtensionOf(stem, ext);
  }

  /** `handleDownload`: the custom name, or `edited-image`, plus the format. */
  function HandleDownload(s: State, customFileName: string): (d: Option<Download>)
    ensures d.Some? <==> s.processedImage.Some?
    ensures d.Some? ==>
      && d.value.fileName == (if customFileName != "" then customFileName else "edited-image") + "." + s.settings.format
      && d.value.mimeType == MimeType(s.settings.format)
      && d.value.quality * 100.0 == s.settings.quality as real
  {
    if s.processedImage.None? then None
    else
      var name := if customFileName != "" then customFileName else "edited-image";
      Some(Download(name + "." + s.settings.format, MimeType(s.settings.format), s.settings.quality as real / 100.0))
  }

  /** With the custom name left as the load effect sets it, the panel's
      download and the session's own download agree, unless stripping the
      extension leaves nothing (a name such as `.png`), when the panel
      falls back to `edited-image`. */
  lemma DownloadNamesAgree(s: State)
    requires s.fileName != ""
    ensures var custom := InitialCustomName(s.fileName, "");
      StripExtension(s.fileName) != "" ==> HandleDownload(s, custom) == DownloadImage(s)
    ensures var custom := InitialCustomName(s.fileName, "");
      StripExtension(s.fileName) == "" && s.processedImage.Some? ==>
        HandleDownload(s, custom).value.fileName == "edited-image." + s.settings.format
        && DownloadImage(s).value.fileName == "." + s.settings.format
  {
  }
}

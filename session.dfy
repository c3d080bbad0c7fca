/** The editing session's state and its reducer: a pure state machine over
    the settings, the crop rectangle and an undo history with a cursor. */
module Session {
  import opened Bitmaps
  import opened Geometry
  import opened Options
  import opened JsText

  datatype Dims = Dims(width: Side, height: Side)

  datatype Settings = Settings(
    width: string, height: string, lockAspectRatio: bool,
    quality: int, format: string,
    brightness: int, contrast: int, saturation: int)

  /** The fields an `UPDATE_SETTINGS` payload carries; absent ones are kept. */
  datatype SettingsPatch = SettingsPatch(
    width: Option<string>, height: Option<string>, lockAspectRatio: Option<bool>,
    quality: Option<int>, format: Option<string>,
    brightness: Option<int>, contrast: Option<int>, saturation: Option<int>)

  const EmptyPatch := SettingsPatch(None, None, None, None, None, None, None, None)

  /** A canvas value, or `null`/`undefined` as `None`. */
  type Canvas = Option<Bitmap>

  datatype State = State(
    originalImage: Canvas,
    processedImage: Canvas,
    canvas: Canvas,
    fileName: string,
    originalSize: nat,
    compressedSize: nat,
    dimensions: Dims,
    settings: Settings,
    cropMode: bool,
    cropArea: CropArea,
    history: seq<Canvas>,
    historyIndex: int)

  datatype Action =
    | SetOriginalImage(image: Bitmap, fileName: string, size: nat, dims: Dims)
    | SetProcessedImage(payload: Bitmap)
    | UpdateSettings(patch: SettingsPatch)
    | SetCropMode(on: bool)
    | SetCropArea(area: CropArea)
    | SetCanvas(target: Canvas)
    | Undo
    | Redo
    | Reset
    | StartOver
    | Unknown(actionType: string)

  const DefaultSettings := Settings("", "", false, 75, "jpeg", 50, 50, 50)

  const InitialState := State(None, None, None, "", 0, 0, Dims(0, 0), DefaultSettings,
                              false, NoArea, [], -1)

  // ---------------------------------------------------------------------
  // The two array primitives the reducer uses, with JavaScript's out-of-
  // range behaviour.
  // ---------------------------------------------------------------------

  /** `a.slice(0, end)`: a negative end counts from the back, and the end is
      clamped into the array. */
  function SliceTo<T>(a: seq<T>, end: int): (r: seq<T>)
    ensures 0 <= end <= |a| ==> r == a[..end]
    ensures |r| <= |a| && r == a[..|r|]
  {
    var e := if end < 0 then (if |a| + end < 0 then 0 else |a| + end) else if end > |a| then |a| else end;
    a[..e]
  }

  /** `history[i]`, `undefined` (here `None`) outside the array. */
  function EntryAt(h: seq<Canvas>, i: int): (c: Canvas)
    ensures 0 <= i < |h| ==> c == h[i]
    ensures !(0 <= i < |h|) ==> c == None
  {
    if 0 <= i < |h| then h[i] else None
  }

  function Merge(s: Settings, p: SettingsPatch): (r: Settings)
    ensures r.width == (if p.width.Some? then p.width.value else s.width)
    ensures r.height == (if p.height.Some? then p.height.value else s.height)
    ensures r.lockAspectRatio == (if p.lockAspectRatio.Some? then p.lockAspectRatio.value else s.lockAspectRatio)
    ensures r.quality == (if p.quality.Some? then p.quality.value else s.quality)
    ensures r.format == (if p.format.Some? then p.format.value else s.format)
    ensures r.brightness == (if p.brightness.Some? then p.brightness.value else s.brightness)
    ensures r.contrast == (if p.contrast.Some? then p.contrast.value else s.contrast)
    ensures r.saturation == (if p.saturation.Some? then p.saturation.value else s.saturation)
  {
    Settings(
      if p.width.Some? then p.width.value else s.width,
      if p.height.Some? then p.height.value else s.height,
      if p.lockAspectRatio.Some? then p.lockAspectRatio.value else s.lockAspectRatio,
      if p.quality.Some? then p.quality.value else s.quality,
      if p.format.Some? then p.format.value else s.format,
      if p.brightness.Some? then p.brightness.value else s.brightness,
      if p.contrast.Some? then p.contrast.value else s.contrast,
      if p.saturation.Some? then p.saturation.value else s.saturation)
  }

  /** `imageReducer(state, action)`. */
  function Reduce(s: State, a: Action): State
  {
    match a
    case SetOriginalImage(image, name, size, dims) =>
      s.(originalImage := Some(image), processedImage := Some(image), fileName := name,
         originalSize := size, dimensions := dims,
         settings := s.settings.(width := IntToString(dims.width), height := IntToString(dims.height)),
         history := [Some(image)], historyIndex := 0)
    case SetProcessedImage(payload) =>
      var kept := SliceTo(s.history, s.historyIndex + 1);
      var newHistory := kept + [Some(payload)];
      s.(processedImage := Some(payload), history := newHistory, historyIndex := |newHistory| - 1)
    case UpdateSettings(patch) => s.(settings := Merge(s.settings, patch))
    case SetCropMode(on) => s.(cropMode := on)
    case SetCropArea(area) => s.(cropArea := area)
    case SetCanvas(target) => s.(canvas := target)
    case Undo =>
      if s.historyIndex > 0 then
        s.(processedImage := EntryAt(s.history, s.historyIndex - 1), historyIndex := s.historyIndex - 1)
      else s
    case Redo =>
      if s.historyIndex < |s.history| - 1 then
        s.(processedImage := EntryAt(s.history, s.historyIndex + 1), historyIndex := s.historyIndex + 1)
      else s
    case Reset =>
      InitialState.(originalImage := s.originalImage, processedImage := s.originalImage,
         fileName := s.fileName, originalSize := s.originalSize, dimensions := s.dimensions,
         settings := DefaultSettings.(width := IntToString(s.dimensions.width), height := IntToString(s.dimensions.height)),
         cropMode := false, cropArea := NoArea,
         history := [s.originalImage], historyIndex := 0)
    case StartOver => InitialState
    case Unknown(_) => s
  }

  /** Dispatching a sequence of actions in order. */
  function Run(s: State, actions: seq<Action>): State
    decreases |actions|
  {
    if |actions| == 0 then s else Run(Reduce(s, actions[0]), actions[1..])
  }

  // ---------------------------------------------------------------------
  // The history invariant
  // ---------------------------------------------------------------------

  /** The cursor points into the history (or is -1 exactly when the history
      is empty), and the image shown is the one under the cursor (none when
      there is no history). */
  ghost predicate Inv(s: State)
  {
    -1 <= s.historyIndex < |s.history|
    && (s.historyIndex == -1 <==> |s.history| == 0)
    && (s.historyIndex >= 0 ==> s.processedImage == s.history[s.historyIndex])
    && (s.historyIndex == -1 ==> s.processedImage == None)
  }

  lemma InitialInv()
    ensures Inv(InitialState)
  {
  }

  /** Every action keeps the invariant. */
  lemma ReducePreservesInv(s: State, a: Action)
    requires Inv(s)
    ensures Inv(Reduce(s, a))
  {
  }

  /** So does every sequence of actions, in particular every session that
      starts from the initial state. */
  lemma {:induction false} RunPreservesInv(s: State, actions: seq<Action>)
    requires Inv(s)
    ensures Inv(Run(s, actions))
    decreases |actions|
  {
    if |actions| > 0 {
      ReducePreservesInv(s, actions[0]);
      RunPreservesInv(Reduce(s, actions[0]), actions[1..]);
    }
  }

  lemma SessionInv(actions: seq<Action>)
    ensures Inv(Run(InitialState, actions))
  {
    InitialInv();
    RunPreservesInv(InitialState, actions);
  }

  // ---------------------------------------------------------------------
  // Commit, undo, redo
  // ---------------------------------------------------------------------

  /** A commit keeps the history up to the cursor, appends the new image,
      moves the cursor onto it and shows it; nothing else changes. */
  lemma CommitShape(s: State, p: Bitmap)
    requires Inv(s)
    ensures var t := Reduce(s, SetProcessedImage(p));
      t.history == s.history[..s.historyIndex + 1] + [Some(p)]
      && t.historyIndex == s.historyIndex + 1 == |t.history| - 1
      && t.processedImage == Some(p)
      && t.(history := s.history, historyIndex := s.historyIndex, processedImage := s.processedImage) == s
  {
  }

  /** Right after a commit there is nothing to redo. */
  lemma CommitThenRedo(s: State, p: Bitmap)
    ensures var t := Reduce(s, SetProcessedImage(p)); Reduce(t, Redo) == t
  {
  }

  /** Undo moves the cursor back one step and shows that entry exactly when
      the cursor is past the first entry; otherwise it changes nothing. */
  lemma UndoSpec(s: State)
    requires Inv(s)
    ensures Reduce(s, Undo) == s <==> s.historyIndex <= 0
    ensures s.historyIndex > 0 ==>
      var t := Reduce(s, Undo);
      t.historyIndex == s.historyIndex - 1 && t.processedImage == s.history[s.historyIndex - 1]
      && t.history == s.history && Inv(t)
  {
  }

  /** Redo is symmetric, guarded by a later entry existing. */
  lemma RedoSpec(s: State)
    requires Inv(s)
    ensures Reduce(s, Redo) == s <==> s.historyIndex >= |s.history| - 1
    ensures s.historyIndex < |s.history| - 1 ==>
      var t := Reduce(s, Redo);
      t.historyIndex == s.historyIndex + 1 && t.processedImage == s.history[s.historyIndex + 1]
      && t.history == s.history && Inv(t)
  {
  }

  /** Undo followed by redo restores the state. */
  lemma UndoThenRedo(s: State)
    requires Inv(s) && s.historyIndex > 0
    ensures Reduce(Reduce(s, Undo), Redo) == s
  {
  }

  /** Redo followed by undo restores the state. */
  lemma RedoThenUndo(s: State)
    requires Inv(s) && s.historyIndex < |s.history| - 1
    ensures Reduce(Reduce(s, Redo), Undo) == s
  {
  }

  function Repeat(s: State, a: Action, n: nat): State
    decreases n
  {
    if n == 0 then s else Repeat(Reduce(s, a), a, n - 1)
  }

  /** `n` undos walk the cursor back `n` entries and show the entry they
      reach; the history itself is untouched. */
  lemma {:induction false} UndoMany(s: State, n: nat)
    requires Inv(s) && n <= s.historyIndex
    ensures Repeat(s, Undo, n) ==
      s.(historyIndex := s.historyIndex - n, processedImage := s.history[s.historyIndex - n])
    decreases n
  {
    if n > 0 {
      UndoSpec(s);
      UndoMany(Reduce(s, Undo), n - 1);
    }
  }

  /** `n` redos walk it forward the same way, as far as the last entry. */
  lemma {:induction false} RedoMany(s: State, n: nat)
    requires Inv(s) && 0 <= s.historyIndex && s.historyIndex + n < |s.history|
    ensures Repeat(s, Redo, n) ==
      s.(historyIndex := s.historyIndex + n, processedImage := s.history[s.historyIndex + n])
    decreases n
  {
    if n > 0 {
      RedoSpec(s);
      RedoMany(Reduce(s, Redo), n - 1);
    }
  }

  /** So `n` undos followed by `n` redos come back to the same state. */
  lemma UndoManyThenRedoMany(s: State, n: nat)
    requires Inv(s) && n <= s.historyIndex
    ensures Repeat(Repeat(s, Undo, n), Redo, n) == s
  {
    UndoMany(s, n);
    var t := Repeat(s, Undo, n);
    RedoMany(t, n);
  }

  /** Undoing and then committing throws the undone entries away: the
      history ends with the new image right after the entry undone to,
      and there is nothing to redo. */
  lemma CommitAfterUndo(s: State, p: Bitmap)
    requires Inv(s) && s.historyIndex > 0
    ensures var t := Reduce(Reduce(s, Undo), SetProcessedImage(p));
      t.history == s.history[..s.historyIndex] + [Some(p)]
      && t.historyIndex == s.historyIndex
      && Reduce(t, Redo) == t
  {
    UndoSpec(s);
    CommitShape(Reduce(s, Undo), p);
  }

  // ---------------------------------------------------------------------
  // Loading, resetting, starting over, settings
  // ---------------------------------------------------------------------

  /** Loading a picture starts a one-entry history on it and writes its
      dimensions into the width and height fields; every other setting, the
      crop state, the canvas and the compressed size are kept, and the fields
      read back as the dimensions. */
  lemma LoadSeedsHistory(s: State, image: Bitmap, name: string, size: nat, dims: Dims)
    ensures var t := Reduce(s, SetOriginalImage(image, name, size, dims));
      t.history == [Some(image)] && t.historyIndex == 0
      && t.originalImage == t.processedImage == Some(image)
      && t.fileName == name && t.originalSize == size && t.dimensions == dims
      && ParseInt(t.settings.width) == Some(dims.width as int)
      && ParseInt(t.settings.height) == Some(dims.height as int)
      && t.settings.(width := s.settings.width, height := s.settings.height) == s.settings
      && t.cropMode == s.cropMode && t.cropArea == s.cropArea && t.canvas == s.canvas
      && t.compressedSize == s.compressedSize
      && Inv(t)
  {
    ParseIntOfString(dims.width);
    ParseIntOfString(dims.height);
  }

  /** Starting over forgets everything. */
  lemma StartOverForgets(s: State)
    ensures Reduce(s, StartOver) == InitialState && Inv(Reduce(s, StartOver))
  {
  }

  /** The result of a reset depends on nothing but the loaded picture, its
      name, size and dimensions: two states that agree on those reset to the
      same state. */
  lemma ResetKeepsOnlyPicture(s: State, u: State)
    requires s.originalImage == u.originalImage && s.fileName == u.fileName
    requires s.originalSize == u.originalSize && s.dimensions == u.dimensions
    ensures Reduce(s, Reset) == Reduce(u, Reset)
  {
  }

  /** Reset shows the loaded picture as the only history entry, keeps its
      name, size and dimensions, and clears the canvas, the compressed size,
      crop mode and the crop rectangle. */
  lemma ResetShape(s: State)
    ensures var t := Reduce(s, Reset);
      t.history == [s.originalImage] && t.historyIndex == 0
      && t.processedImage == t.originalImage == s.originalImage
      && t.fileName == s.fileName && t.originalSize == s.originalSize
      && t.dimensions == s.dimensions
      && t.canvas == None && t.compressedSize == 0
      && !t.cropMode && t.cropArea == NoArea
      && Inv(t) && Reduce(t, Undo) == t && Reduce(t, Redo) == t
  {
  }

  /** Reset restores the default settings, except that the width and height
      fields read back as the picture's dimensions. */
  lemma ResetSettings(s: State)
    ensures var t := Reduce(s, Reset);
      t.settings.(width := "", height := "") == DefaultSettings
      && ParseInt(t.settings.width) == Some(s.dimensions.width as int)
      && ParseInt(t.settings.height) == Some(s.dimensions.height as int)
  {
    var t := Reduce(s, Reset);
    assert t.settings == DefaultSettings.(width := IntToString(s.dimensions.width), height := IntToString(s.dimensions.height));
    ParseIntOfString(s.dimensions.width);
    ParseIntOfString(s.dimensions.height);
  }

  /** Resetting twice is resetting once. */
  lemma ResetIdempotent(s: State)
    ensures Reduce(Reduce(s, Reset), Reset) == Reduce(s, Reset)
  {
  }

  /** A settings update changes the fields it carries and nothing else;
      applying it twice is applying it once. */
  lemma UpdateSettingsSpec(s: State, p: SettingsPatch)
    ensures var t := Reduce(s, UpdateSettings(p));
      t.(settings := s.settings) == s
      && Reduce(t, UpdateSettings(p)) == t
      && (p == EmptyPatch ==> t == s)
  {
  }

  /** An action type the reducer does not know leaves the state alone. */
  lemma UnknownIsIdentity(s: State, name: string)
    ensures Reduce(s, Unknown(name)) == s
  {
  }
}

/** The floating download button shown on small screens. */
module Mobile {
  import opened Options
  import opened JsText
  import opened Session
  import opened Editor

  datatype ToastKind = Success | Warning | Failure

  datatype Toast = Toast(message: string, kind: ToastKind)

  /** What a tap does: warn, or ask the canvas to encode a file. */
  datatype Tap = Warn(toast: Toast) | Encode(request: Download)

  /** The saved file's name: the loaded name with its extension replaced by
      the format, or `edited-image` when no name is known. */
  function MobileFileName(s: State): (name: string)
    ensures s.fileName != "" ==> name == StripExtension(s.fileName) + "." + s.settings.format
    ensures s.fileName == "" ==> name == "edited-image." + s.settings.format
  {
    if s.fileName != "" then StripExtension(s.fileName) + "." + s.settings.format
    else "edited-image." + s.settings.format
  }

  /** `handleDownload`. */
  function HandleTap(s: State): (t: Tap)
    ensures t.Warn? <==> s.processedImage.None?
    ensures t.Warn? ==> t.toast == Toast("No image to download", Warning)
    ensures t.Encode? ==>
      t.request == Download(MobileFileName(s), "image/" + s.settings.format, s.settings.quality as real / 100.0)
  {
    if s.processedImage.None? then Warn(Toast("No image to download", Warning))
    else Encode(Download(MobileFileName(s), MimeType(s.settings.format), s.settings.quality as real / 100.0))
  }

  /** The encoder's answer: a file saved under the name with a success
      toast, or, without a blob, nothing saved and an error toast. */
  datatype Outcome = Outcome(saved: Option<string>, toast: Toast)

  function OnBlob(fileName: string, blobPresent: bool): (o: Outcome)
    ensures o.saved.Some? <==> blobPresent
    ensures o.saved.Some? ==> o.saved.value == fileName && o.toast.kind == Success
    ensures o.saved.None? ==> o.toast == Toast("Failed to generate download", Failure)
  {
    if blobPresent then Outcome(Some(fileName), Toast("Image downloaded successfully!", Success))
    else Outcome(None, Toast("Failed to generate download", Failure))
  }

  /** The button renders only on the preview tab with an image to save. */
  predicate Visible(activeTab: string, s: State)
  {
    activeTab == "preview" && s.processedImage.Some?
  }

  /** A visible button never warns. */
  lemma VisibleMeansEncode(activeTab: string, s: State)
    ensures Visible(activeTab, s) ==> HandleTap(s).Encode?
    ensures Visible(activeTab, s) <==> activeTab == "preview" && !HandleTap(s).Warn?
  {
  }

  /** For a loaded file the button saves exactly what the session's own
      download saves; only without a name do they differ. */
  lemma TapAgreesWithSession(s: State)
    requires s.processedImage.Some?
    ensures s.fileName != "" ==> HandleTap(s).request == DownloadImage(s).value
    ensures s.fileName == "" ==>
      HandleTap(s).request.fileName == "edited-image." + s.settings.format
      && DownloadImage(s).value.fileName == "." + s.settings.format
  {
    assert StripExtension("") == "";
  }

  /** `photo.png` saved as JPEG is `photo.jpeg`. */
  lemma TapExample(s: State)
    requires s.processedImage.Some? && s.fileName == "photo.png" && s.settings.format == "jpeg"
    ensures HandleTap(s).request.fileName == "photo.jpeg"
  {
    assert "photo" + "." + "png" == "photo.png";
    StripExtensionOf("photo", "png");
  }
}

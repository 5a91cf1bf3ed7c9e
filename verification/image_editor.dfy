/** One image's editor: the settings a user edits, the preview of the last
    successful resize, and whether a resize is running. Each handler of the
    component is one pure transition on an immutable `Editor` record.
    `resizeImage` and the browser's image decoding are outside the model:
    they appear only as events that deliver their results. */
module ImageEditor {
  import opened Options
  import Formats
  import FileName

  /** An object URL made for a resized blob. The component keeps the empty
      string to mean "no preview", and object URLs are never empty. */
  type Url = s: string | |s| > 0 witness "blob:"

  datatype Dimensions = Dimensions(width: int, height: int)

  datatype Editor = Editor(
    width: int,
    height: int,
    maintainAspectRatio: bool,
    quality: int,
    format: string,
    preview: Option<Url>,
    processing: bool,
    originalDimensions: Dimensions)

  /** Bounds of the quality slider, in percent. */
  const MinQuality: int := 1
  const MaxQuality: int := 100

  /** The editor as first rendered for a file. */
  const Initial: Editor :=
    Editor(0, 0, true, 90, "jpeg", None, false, Dimensions(0, 0))

  /** What the quality slider and the format selector can hold. */
  predicate ControlsValid(e: Editor) {
    MinQuality <= e.quality <= MaxQuality && Formats.IsOption(e.format)
  }

  /** Two editors agree on everything the user sets or the image reports;
      they may differ only in `preview` and `processing`. */
  predicate SameSettings(a: Editor, b: Editor) {
    && a.width == b.width
    && a.height == b.height
    && a.maintainAspectRatio == b.maintainAspectRatio
    && a.quality == b.quality
    && a.format == b.format
    && a.originalDimensions == b.originalDimensions
  }

  /** The defaults: quality 90, JPEG, aspect ratio kept, nothing to download. */
  lemma InitialEditor()
    ensures ControlsValid(Initial)
    ensures Initial.quality == 90 && Formats.FromName(Initial.format) == Some(Formats.Jpeg)
    ensures Initial.maintainAspectRatio
    ensures Initial.preview.None? && !Initial.processing
  {
  }

  // ---------------------------------------------------------------------
  // Loading the image

  /** The decoded image reports its natural size: both the original
      dimensions and the editable width and height take it. */
  function OnImageLoad(e: Editor, naturalWidth: nat, naturalHeight: nat): (r: Editor)
    ensures r.originalDimensions == Dimensions(naturalWidth, naturalHeight)
    ensures r.width == naturalWidth && r.height == naturalHeight
    ensures r.(width := e.width, height := e.height, originalDimensions := e.originalDimensions) == e
  {
    e.(originalDimensions := Dimensions(naturalWidth, naturalHeight),
       width := naturalWidth,
       height := naturalHeight)
  }

  // ---------------------------------------------------------------------
  // The controls

  /** Typing a width sets the width only: the height is not recomputed,
      whatever the aspect-ratio box says. */
  function OnWidthInput(e: Editor, value: int): (r: Editor)
    ensures r.width == value
    ensures r.height == e.height
    ensures r.(width := e.width) == e
  {
    e.(width := value)
  }

  /** Typing a height sets the height only. */
  function OnHeightInput(e: Editor, value: int): (r: Editor)
    ensures r.height == value
    ensures r.width == e.width
    ensures r.(height := e.height) == e
  {
    e.(height := value)
  }

  /** The aspect-ratio box only records the choice; it is forwarded to
      `resizeImage` and nothing else reads it. */
  function OnAspectToggle(e: Editor, checked: bool): (r: Editor)
    ensures r.maintainAspectRatio == checked
    ensures r.(maintainAspectRatio := e.maintainAspectRatio) == e
  {
    e.(maintainAspectRatio := checked)
  }

  /** The value a range input with bounds 1 and 100 and step 1 reports for a
      slider position: positions are clamped into the bounds. */
  function SliderValue(position: int): (v: int)
    ensures MinQuality <= v <= MaxQuality
    ensures MinQuality <= position <= MaxQuality ==> v == position
  {
    if position < MinQuality then MinQuality
    else if position > MaxQuality then MaxQuality
    else position
  }

  /** Moving the quality slider. */
  function OnQualityInput(e: Editor, position: int): (r: Editor)
    ensures MinQuality <= r.quality <= MaxQuality
    ensures MinQuality <= position <= MaxQuality ==> r.quality == position
    ensures r.(quality := e.quality) == e
  {
    e.(quality := SliderValue(position))
  }

  /** Picking a format stores the chosen option's value string. */
  function OnFormatSelect(e: Editor, choice: Formats.Format): (r: Editor)
    ensures Formats.FromName(r.format) == Some(choice)
    ensures r.(format := e.format) == e
  {
    e.(format := Formats.Name(choice))
  }

  // ---------------------------------------------------------------------
  // Resizing

  /** The arguments passed to `resizeImage`; the quality is still the
      slider's percentage. */
  datatype ResizeCall = ResizeCall(
    width: int,
    height: int,
    maintainAspectRatio: bool,
    quality: int,
    format: string)

  datatype Started = Started(editor: Editor, call: Option<ResizeCall>)

  /** A click on "Process Image". While a resize runs the button is
      disabled, so the click does nothing; otherwise the editor enters
      processing and `resizeImage` is called with the current values as
      they stand, the aspect-ratio flag passed through unchanged. */
  function OnProcessClick(e: Editor): (r: Started)
    ensures e.processing ==> r == Started(e, None)
    ensures !e.processing ==> r.editor.processing && r.editor.(processing := false) == e
    ensures !e.processing ==> r.call.Some?
    ensures r.call.Some? ==>
      && r.call.value.width == e.width
      && r.call.value.height == e.height
      && r.call.value.maintainAspectRatio == e.maintainAspectRatio
      && r.call.value.quality == e.quality
      && r.call.value.format == e.format
  {
    if e.processing then Started(e, None)
    else
      Started(e.(processing := true),
              Some(ResizeCall(e.width, e.height, e.maintainAspectRatio, e.quality, e.format)))
  }

  /** How a `resizeImage` call settles: an object URL for the new blob, or
      a rejection (which the component only logs). */
  datatype Outcome = Resized(url: Url) | Failed

  /** The end of a resize. On success the preview becomes the new URL; on
      failure it is left as it was, so an earlier result stays available.
      Either way processing is over, and no setting changes. */
  function OnResizeSettled(e: Editor, outcome: Outcome): (r: Editor)
    ensures !r.processing
    ensures outcome.Resized? ==> r.preview == Some(outcome.url)
    ensures outcome.Failed? ==> r.preview == e.preview
    ensures SameSettings(e, r)
  {
    match outcome
    case Resized(url) => e.(preview := Some(url), processing := false)
    case Failed => e.(processing := false)
  }

  // ---------------------------------------------------------------------
  // Downloading

  /** The anchor the component clicks: its target and suggested file name. */
  datatype Link = Link(href: Url, download: string)

  /** A click on "Download": nothing without a preview; otherwise a link to
      the preview named after the original file and the format currently
      selected. */
  function OnDownloadClick(e: Editor, fileName: string): (r: Option<Link>)
    ensures r.None? <==> e.preview.None?
    ensures r.Some? ==> r.value.href == e.preview.value
    ensures r.Some? ==> r.value.download == FileName.DownloadName(fileName, e.format)
  {
    if e.preview.None? then None
    else Some(Link(e.preview.value, FileName.DownloadName(fileName, e.format)))
  }

  /** The suggested name of every download reads back as the original
      file's stem and the selected format. */
  lemma DownloadNameReadable(e: Editor, fileName: string)
    requires ControlsValid(e) && e.preview.Some?
    ensures OnDownloadClick(e, fileName).Some?
    ensures FileName.ParseDownloadName(OnDownloadClick(e, fileName).value.download)
         == Some((FileName.Stem(fileName), Formats.FromName(e.format).value))
  {
    var f := Formats.FromName(e.format).value;
    assert Formats.Name(f) == e.format;
    FileName.ParseDownloadNameRoundTrip(fileName, f);
  }

  /** A failed resize leaves the download exactly as it was. */
  lemma FailureKeepsDownload(e: Editor, fileName: string)
    ensures OnDownloadClick(OnResizeSettled(e, Failed), fileName) == OnDownloadClick(e, fileName)
  {
  }

  /** The extension comes from the selector at the time of the click, not
      from the format the preview was encoded in: choosing another format
      after a resize renames the download but still links the old blob. */
  lemma DownloadFollowsSelectedFormat(e: Editor, fileName: string, choice: Formats.Format)
    requires e.preview.Some?
    ensures OnDownloadClick(OnFormatSelect(e, choice), fileName)
         == Some(Link(e.preview.value, FileName.DownloadName(fileName, Formats.Name(choice))))
  {
  }

  // ---------------------------------------------------------------------
  // A session: the editor together with its unsettled resizeImage calls

  datatype Event =
    | ImageLoaded(naturalWidth: nat, naturalHeight: nat)
    | WidthInput(width: int)
    | HeightInput(height: int)
    | AspectToggle(checked: bool)
    | QualityInput(position: int)
    | FormatSelect(choice: Formats.Format)
    | ProcessClick
    | ResizeSettled(outcome: Outcome)
    | DownloadClick

  /** The editor and the calls to `resizeImage` it has made whose promises
      have not settled yet, oldest first. */
  datatype Session = Session(editor: Editor, pending: seq<ResizeCall>)

  const Mounted: Session := Session(Initial, [])

  /** One event. A settlement can only arrive for a call that is pending;
      with none pending there is nothing to deliver and nothing happens. A
      download click does not change the editor. */
  function Apply(c: Session, ev: Event): Session {
    match ev
    case ImageLoaded(w, h) => c.(editor := OnImageLoad(c.editor, w, h))
    case WidthInput(v) => c.(editor := OnWidthInput(c.editor, v))
    case HeightInput(v) => c.(editor := OnHeightInput(c.editor, v))
    case AspectToggle(b) => c.(editor := OnAspectToggle(c.editor, b))
    case QualityInput(p) => c.(editor := OnQualityInput(c.editor, p))
    case FormatSelect(f) => c.(editor := OnFormatSelect(c.editor, f))
    case ProcessClick =>
      var s := OnProcessClick(c.editor);
      Session(s.editor, if s.call.Some? then c.pending + [s.call.value] else c.pending)
    case ResizeSettled(o) =>
      if |c.pending| == 0 then c
      else Session(OnResizeSettled(c.editor, o), c.pending[1..])
    case DownloadClick => c
  }

  function Run(c: Session, events: seq<Event>): Session
    decreases |events|
  {
    if |events| == 0 then c else Run(Apply(c, events[0]), events[1..])
  }

  /** At most one resize is in flight, the processing flag says exactly
      whether one is, and the controls hold values they can offer. */
  predicate Invariant(c: Session) {
    && ControlsValid(c.editor)
    && |c.pending| <= 1
    && (c.editor.processing <==> |c.pending| == 1)
  }

  lemma ApplyPreservesInvariant(c: Session, ev: Event)
    requires Invariant(c)
    ensures Invariant(Apply(c, ev))
  {
  }

  lemma {:induction false} RunPreservesInvariant(c: Session, events: seq<Event>)
    requires Invariant(c)
    ensures Invariant(Run(c, events))
    decreases |events|
  {
    if |events| > 0 {
      ApplyPreservesInvariant(c, events[0]);
      RunPreservesInvariant(Apply(c, events[0]), events[1..]);
    }
  }

  /** Whatever the user does and however the calls settle, an editor never
      has two resizes running at once, its quality stays within 1..100 and
      its format stays one of jpeg, png and webp. */
  lemma NoConcurrentResize(events: seq<Event>)
    ensures |Run(Mounted, events).pending| <= 1
    ensures Run(Mounted, events).editor.processing <==> |Run(Mounted, events).pending| == 1
    ensures ControlsValid(Run(Mounted, events).editor)
  {
    InitialEditor();
    RunPreservesInvariant(Mounted, events);
  }

  /** Once a preview exists it is never cleared: later resizes may replace
      it, failures keep it, so a download stays possible. */
  lemma {:induction false} PreviewPersists(c: Session, events: seq<Event>)
    requires c.editor.preview.Some?
    ensures Run(c, events).editor.preview.Some?
    decreases |events|
  {
    if |events| > 0 {
      PreviewPersists(Apply(c, events[0]), events[1..]);
    }
  }

  /** Every settlement ends processing and empties the pending list. */
  lemma SettleEndsProcessing(c: Session, o: Outcome)
    requires Invariant(c) && c.editor.processing
    ensures !Apply(c, ResizeSettled(o)).editor.processing
    ensures Apply(c, ResizeSettled(o)).pending == []
  {
  }
}

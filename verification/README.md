# Image resizer: editor state machine, download names and the file list

This project models the logic of a browser image resizer that lives in its
two React components. It does not model the image arithmetic itself.

- **`ImageEditor`** (`src/components/ImageEditor.tsx`): one editor per
  dropped image. It holds the width, height, aspect-ratio flag, quality,
  format, preview URL, processing flag and the image's natural dimensions.
  Every handler is a pure transition on an immutable `Editor` record: image
  loaded, width/height/aspect/quality/format edited, "Process Image"
  clicked, the `resizeImage` call settling with a URL or a rejection, and
  "Download" clicked. A `Session` pairs the editor with its unsettled
  `resizeImage` calls. This lets the model state, over every event
  sequence, that an editor never runs two resizes at once.
- **`FileName`**: the suggested download name `resized-<stem>.<format>`.
  The stem is `name.split('.')[0]`, so `Split` models JavaScript's
  `String.prototype.split` for a one-character separator, with `Join` as
  its inverse. A parser reads a download name back into stem and format.
- **`Formats`**: the three values of the format selector (`jpeg`, `png`,
  `webp`).
- **`App`** (`src/App.tsx`): the list of dropped files. Dropping appends a
  batch. Removing keeps every position but one, modelled as the filter loop
  `RemoveFile` and proved equal to `Without`. Each
  editor is keyed by `name-index`.
- **`Decimal`**: how a template literal prints an index. `Parse` inverts
  it, which is why keys are distinct.

Facts about the editor component that shape the model:
- It validates nothing before a resize. Width and height go to
  `resizeImage` as typed, even zero or negative.
- It keeps no state enumeration and no failure reason. A rejection is only
  logged.
- It does no aspect-ratio arithmetic. It passes the flag on to
  `resizeImage`.
- The download name's extension is the format selected when Download is
  clicked. It is not the format the preview was encoded in
  (`ImageEditor.DownloadFollowsSelectedFormat`).

## Model

| member | source | states |
|---|---|---|
| `Decimal.Show` | src/App.tsx:39 | an index prints as a non-empty string of decimal digits with no leading zero, so it contains no '-' |
| `Decimal.ParseShow` | src/App.tsx:39 | reading the printed index back as a decimal number gives the index |
| `Decimal.ShowInjective` | src/App.tsx:39 | two indices print alike exactly when they are equal |
| `Formats.FromName` | src/components/ImageEditor.tsx:109-117 | a selector value reads as a format exactly when it is that format's option value; anything else reads as none |
| `Formats.NameIsExtension` | src/components/ImageEditor.tsx:114-116 | each option value is non-empty, contains no '.', and reads back as its own format |
| `FileName.Split` | src/components/ImageEditor.tsx:46 | split yields at least one piece and no piece contains the separator |
| `FileName.JoinSplit` | src/components/ImageEditor.tsx:46 | gluing the pieces of a split back with the separator gives the original string |
| `FileName.SplitJoin` | src/components/ImageEditor.tsx:46 | splitting separator-free pieces glued with the separator gives the pieces back |
| `FileName.Stem` | src/components/ImageEditor.tsx:46 | the stem is a prefix of the name, contains no '.', and is followed by '.' unless it is the whole name |
| `FileName.StemUnique` | src/components/ImageEditor.tsx:46 | any dot-free prefix that reaches the end or a '.' is the stem, so the three properties define it |
| `FileName.StemNoDot` | src/components/ImageEditor.tsx:46 | a name without '.' is its own stem |
| `FileName.StemLeadingDot` | src/components/ImageEditor.tsx:46 | a name starting with '.' has the empty stem |
| `FileName.StemFirstDot` | src/components/ImageEditor.tsx:46 | with several dots, the stem stops at the first one |
| `FileName.DownloadName` | src/components/ImageEditor.tsx:46 | the name starts with "resized-", followed by the stem, '.', and the format |
| `FileName.ParseDownloadNameRoundTrip` | src/components/ImageEditor.tsx:46 | from every suggested name the stem and the format can be read back |
| `FileName.ParseDownloadNameSound` | src/components/ImageEditor.tsx:46 | a string that parses is exactly "resized-" + stem + "." + format, with a dot-free stem |
| `ImageEditor.InitialEditor` | src/components/ImageEditor.tsx:11-18 | a new editor has quality 90, format jpeg, aspect ratio kept, no preview, not processing |
| `ImageEditor.OnImageLoad` | src/components/ImageEditor.tsx:23-27 | width, height and original dimensions all become the natural size; nothing else changes |
| `ImageEditor.OnWidthInput` | src/components/ImageEditor.tsx:67-70 | editing the width sets it and leaves the height and everything else unchanged |
| `ImageEditor.OnHeightInput` | src/components/ImageEditor.tsx:76-79 | editing the height sets it and leaves the width and everything else unchanged |
| `ImageEditor.OnAspectToggle` | src/components/ImageEditor.tsx:86-89 | the checkbox sets only the aspect-ratio flag |
| `ImageEditor.SliderValue` | src/components/ImageEditor.tsx:97-101 | the quality slider reports a value in 1..100, the position itself when in range |
| `ImageEditor.OnQualityInput` | src/components/ImageEditor.tsx:97-104 | after a slider move the quality lies in 1..100 and nothing else changes |
| `ImageEditor.OnFormatSelect` | src/components/ImageEditor.tsx:109-117 | the stored format reads back as the chosen option; nothing else changes |
| `ImageEditor.OnProcessClick` | src/components/ImageEditor.tsx:30-33 | while processing, a click does nothing; otherwise processing starts and resizeImage gets the current width, height, aspect flag, quality and format unchanged |
| `ImageEditor.OnResizeSettled` | src/components/ImageEditor.tsx:34-39 | processing ends on both paths; success replaces the preview with the new URL; failure keeps the old preview; no setting changes |
| `ImageEditor.OnDownloadClick` | src/components/ImageEditor.tsx:42-46 | there is no download exactly when there is no preview; otherwise the link targets the preview and carries the derived name |
| `ImageEditor.DownloadNameReadable` | src/components/ImageEditor.tsx:46 | every download's name reads back as the file's stem and the selected format |
| `ImageEditor.FailureKeepsDownload` | src/components/ImageEditor.tsx:35-38 | a failed resize leaves the offered download exactly as it was |
| `ImageEditor.DownloadFollowsSelectedFormat` | src/components/ImageEditor.tsx:46 | changing the format after a resize changes the download's extension but keeps its target |
| `ImageEditor.ApplyPreservesInvariant` | src/components/ImageEditor.tsx:121-123 | every event keeps the controls valid, at most one call pending, and processing true exactly when one is |
| `ImageEditor.RunPreservesInvariant` | src/components/ImageEditor.tsx:121-123 | the invariant holds after any sequence of events |
| `ImageEditor.NoConcurrentResize` | src/components/ImageEditor.tsx:121-123 | from mounting, no event sequence leads to two resizes in flight, to a quality outside 1..100, or to a format other than the three options |
| `ImageEditor.PreviewPersists` | src/components/ImageEditor.tsx:34-36 | once a preview exists no event sequence removes it |
| `ImageEditor.SettleEndsProcessing` | src/components/ImageEditor.tsx:37-38 | when a pending call settles, either way, processing ends and nothing is pending |
| `App.DropFiles` | src/App.tsx:9-11 | the old files keep their positions, the batch follows in its order, and the length is the sum |
| `App.DropNothing` | src/App.tsx:10 | dropping an empty batch leaves the list unchanged |
| `App.Without` | src/App.tsx:13-15 | for an existing position the list loses exactly that element: one shorter, the rest in order, same multiset minus it; any other index leaves it unchanged |
| `App.RemoveFile` | src/App.tsx:13-15 | filtering out the position gives exactly `Without` |
| `App.RemoveDropped` | src/App.tsx:9-15 | removing a file of the latest batch leaves the earlier files as they were |
| `App.RemoveEarlier` | src/App.tsx:9-15 | removing an earlier file leaves the latest batch intact at the end |
| `App.KeyInjective` | src/App.tsx:37-39 | a key determines the file name and the position it was built from |
| `App.Keys` | src/App.tsx:37-39 | the key at each position is the file's name, '-', and that position; the keys of one render are pairwise distinct, even when files share a name |
| `App.RemoveRekeys` | src/App.tsx:37-41 | after a removal every later file is keyed with its new position, so its key changes |
| `App.KeyReusedAfterRemove` | src/App.tsx:37-41 | after removing a file, the next file takes over the removed file's key exactly when both have the same name |

## Left out

- `resizeImage` and `formatFileSize`: `src/lib/utils` is not part of this model. A resize is an outcome event: a URL or a rejection. No aspect-ratio, canvas or encoder behaviour is modelled.
- `quality / 100`: the floating-point conversion at the call is not modelled. The call carries the integer percentage.
- `Number(e.target.value)`: width and height inputs are modelled as integers. Fractional values are not modelled. An empty field reads as 0, which `WidthInput(0)` and `HeightInput(0)` cover.
- Image decoding: the natural size arrives as an `ImageLoaded` event. The source installs no error handler, so a decode failure produces no event.
- `URL.createObjectURL`: object URLs are event parameters, never revoked. The source revokes none either. The original-image URL made during rendering is not modelled.
- The DOM anchor, its click, `console.error`, all JSX and CSS, and the "New: WxH" label are not modelled.
- `src/components/ImageDropzone.tsx`: it only configures `react-dropzone` (accepted types, 25 MiB limit) and holds no logic.
- React's asynchrony: each handler is one atomic transition. A stale image load that races a file change is not modelled.
- `onRemove` is passed to the editor but never called there, so removal is modelled on the list only.
- `ImageEditor.Apply`: a settlement with no pending call cannot occur, and the model ignores one.

/**
 * The preview's three export handlers: download, copy to clipboard, share.
 *
 * The rasteriser, the anchor click, the clipboard and the native share sheet
 * are outside the model. Each awaited call is an oracle that resolves or
 * rejects with a named error, and the clock reading is a parameter. A
 * handler run is described by the snapshot it requested, the sink it
 * called and the toasts it showed, in order.
 */
module QrExport {
  import opened Wrappers
  import opened QrTypes
  import QrPreview
  import JsString

  /** How an awaited platform call settles. */
  datatype Attempt = Resolved | Rejected(errorName: string)

  /** The name a DOMException carries when the user dismisses the share sheet. */
  const AbortErrorName: string := "AbortError"

  datatype Toast = Toast(title: string, description: string, destructive: bool)

  const DownloadSucceeded := Toast("Success", "QR code downloaded successfully", false)
  const DownloadFailed := Toast("Error", "Failed to download QR code", true)
  const CopySucceeded := Toast("Success", "QR code copied to clipboard", false)
  const CopyFailed := Toast("Error", "Failed to copy QR code", true)
  const ShareSucceeded := Toast("Success", "QR code shared successfully", false)
  const ShareFailed := Toast("Error", "Failed to share QR code", true)
  const ShareUnsupported := Toast("Error", "Sharing is not supported on this device", true)

  predicate IsSuccess(t: Toast) {
    t.title == "Success" && !t.destructive
  }

  /** The options every handler passes to the rasteriser. */
  datatype SnapshotOptions = SnapshotOptions(
    quality: real,
    pixelRatio: int,
    skipAutoScale: bool,
    canvasWidth: int,
    canvasHeight: int,
    margin: string,
    paddingPx: int,
    background: string)

  /** The platform sink a handler hands the PNG to. */
  datatype SinkCall =
    | AnchorDownload(fileName: string)
    | ClipboardWrite(mimeType: string)
    | NativeShare(title: string, fileName: string, mimeType: string)

  /** What one handler invocation did. */
  datatype ExportRun = ExportRun(snapshot: Option<SnapshotOptions>, sink: Option<SinkCall>, toasts: seq<Toast>)

  /** The early return: nothing rasterised, nothing delivered, nothing shown. */
  const Idle := ExportRun(None, None, [])

  const PngType: string := "image/png"
  const ShareTitle: string := "My QR Code"
  const ShareFileName: string := "qr-code.png"

  function SnapshotOptionsFor(d: QrCodeData): (o: SnapshotOptions)
    ensures o.canvasWidth == o.canvasHeight == 2 * QrPreview.Render(d).width
    ensures o.pixelRatio == 2 && o.quality == 1.0 && o.skipAutoScale
    ensures o.background == d.backgroundColor
    ensures o.paddingPx == QrPreview.Render(d).padding && o.margin == "0"
  {
    var side := QrPreview.ContainerSize(d.size);
    SnapshotOptions(1.0, 2, true, side * 2, side * 2, "0",
                    QrPreview.ContainerPadding,
                    d.backgroundColor)
  }

  /** The handlers' guard: no mounted frame, or nothing to encode. */
  predicate Guarded(d: QrCodeData, mounted: bool) {
    !mounted || QrPreview.IsEmpty(d)
  }

  /** "qr-code-<clock value>.png". */
  function DownloadFileName(now: nat): string
  {
    "qr-code-" + JsString.DecimalString(now) + ".png"
  }

  function HandleDownload(d: QrCodeData, mounted: bool, snapshot: Attempt, click: Attempt, now: nat): (r: ExportRun)
    ensures Guarded(d, mounted) ==> r == Idle
    ensures !Guarded(d, mounted) ==>
      && r.snapshot == Some(SnapshotOptionsFor(d))
      && |r.toasts| == 1
      && (IsSuccess(r.toasts[0]) <==> snapshot.Resolved? && click.Resolved?)
      && (r.toasts[0] == DownloadSucceeded || r.toasts[0] == DownloadFailed)
    ensures r.sink.Some? <==> !Guarded(d, mounted) && snapshot.Resolved?
    ensures r.sink.Some? ==> r.sink.value == AnchorDownload(DownloadFileName(now))
  {
    if Guarded(d, mounted) then Idle
    else
      var opts := Some(SnapshotOptionsFor(d));
      match snapshot
      case Rejected(_) => ExportRun(opts, None, [DownloadFailed])
      case Resolved =>
        var call := Some(AnchorDownload(DownloadFileName(now)));
        if click.Resolved? then ExportRun(opts, call, [DownloadSucceeded])
        else ExportRun(opts, call, [DownloadFailed])
  }

  /**
   * Copy. The write oracle also stands for the data-URL-to-Blob conversion
   * before it: anything thrown in that stretch lands in the same catch.
   */
  function HandleCopy(d: QrCodeData, mounted: bool, snapshot: Attempt, write: Attempt): (r: ExportRun)
    ensures Guarded(d, mounted) ==> r == Idle
    ensures !Guarded(d, mounted) ==>
      && r.snapshot == Some(SnapshotOptionsFor(d))
      && |r.toasts| == 1
      && (IsSuccess(r.toasts[0]) <==> snapshot.Resolved? && write.Resolved?)
      && (r.toasts[0] == CopySucceeded || r.toasts[0] == CopyFailed)
    ensures r.sink.Some? <==> !Guarded(d, mounted) && snapshot.Resolved?
    ensures r.sink.Some? ==> r.sink.value == ClipboardWrite(PngType)
  {
    if Guarded(d, mounted) then Idle
    else
      var opts := Some(SnapshotOptionsFor(d));
      match snapshot
      case Rejected(_) => ExportRun(opts, None, [CopyFailed])
      case Resolved =>
        var call := Some(ClipboardWrite(PngType));
        if write.Resolved? then ExportRun(opts, call, [CopySucceeded])
        else ExportRun(opts, call, [CopyFailed])
  }

  /** The share handler's catch: an AbortError is swallowed, anything else is reported. */
  function ShareCatch(errorName: string): seq<Toast>
  {
    if errorName != AbortErrorName then [ShareFailed] else []
  }

  /** The user dismissed the share sheet (or the snapshot itself was aborted). */
  predicate Cancelled(snapshot: Attempt, share: Attempt) {
    || (snapshot.Rejected? && snapshot.errorName == AbortErrorName)
    || (snapshot.Resolved? && share.Rejected? && share.errorName == AbortErrorName)
  }

  /** The try block of the share handler, once sharing is known to be supported. */
  function ShareAttempt(opts: SnapshotOptions, snapshot: Attempt, share: Attempt): (r: ExportRun)
    ensures r.snapshot == Some(opts)
    ensures r.toasts == [] <==> Cancelled(snapshot, share)
    ensures r.toasts == [ShareSucceeded] <==> snapshot.Resolved? && share.Resolved?
    ensures r.toasts == [ShareFailed] <==> !Cancelled(snapshot, share) && !(snapshot.Resolved? && share.Resolved?)
    ensures |r.toasts| <= 1
    ensures forall t | t in r.toasts :: t == ShareSucceeded || t == ShareFailed
    ensures r.sink.Some? <==> snapshot.Resolved?
    ensures r.sink.Some? ==> r.sink.value == NativeShare(ShareTitle, ShareFileName, PngType)
  {
    assert ShareSucceeded != ShareFailed;
    match snapshot
    case Rejected(name) => ExportRun(Some(opts), None, ShareCatch(name))
    case Resolved =>
      var call := Some(NativeShare(ShareTitle, ShareFileName, PngType));
      match share
      case Resolved => ExportRun(Some(opts), call, [ShareSucceeded])
      case Rejected(name) => ExportRun(Some(opts), call, ShareCatch(name))
  }

  function HandleShare(d: QrCodeData, mounted: bool, canShare: bool, snapshot: Attempt, share: Attempt): (r: ExportRun)
    ensures Guarded(d, mounted) ==> r == Idle
    ensures !Guarded(d, mounted) && !canShare ==>
      r.snapshot.None? && r.sink.None? && r.toasts == [ShareUnsupported]
    ensures !Guarded(d, mounted) && canShare ==>
      && r.snapshot == Some(SnapshotOptionsFor(d))
      && (r.toasts == [] <==> Cancelled(snapshot, share))
      && (r.toasts == [ShareSucceeded] <==> snapshot.Resolved? && share.Resolved?)
      && (r.toasts == [ShareFailed] <==> !Cancelled(snapshot, share) && !(snapshot.Resolved? && share.Resolved?))
    ensures |r.toasts| <= 1
    ensures canShare ==> forall t | t in r.toasts :: t == ShareSucceeded || t == ShareFailed
    ensures r.sink.Some? <==> !Guarded(d, mounted) && canShare && snapshot.Resolved?
    ensures r.sink.Some? ==> r.sink.value == NativeShare(ShareTitle, ShareFileName, PngType)
  {
    if Guarded(d, mounted) then Idle
    else if !canShare then ExportRun(None, None, [ShareUnsupported])
    else ShareAttempt(SnapshotOptionsFor(d), snapshot, share)
  }

  // ---------------------------------------------------------------------
  // Properties that relate the handlers to the rest of the preview.
  // ---------------------------------------------------------------------

  /** The clock value can be read back out of the file name. */
  lemma DownloadNameStamp(now: nat)
    ensures var n := DownloadFileName(now);
      |n| >= 12 && n[8..|n| - 4] == JsString.DecimalString(now)
  {
  }

  /** Two downloads at different clock readings never get the same file name. */
  lemma DownloadNamesDistinct(a: nat, b: nat)
    requires a != b
    ensures DownloadFileName(a) != DownloadFileName(b)
  {
    JsString.DecimalInjective(a, b);
    DownloadNameStamp(a);
    DownloadNameStamp(b);
  }

  /**
   * Each handler, invoked on a mounted frame, does nothing exactly when its
   * button is disabled: the guard and the buttons use the same emptiness test.
   */
  lemma GuardMatchesButtons(d: QrCodeData, canShare: bool, s1: Attempt, s2: Attempt, now: nat)
    ensures HandleDownload(d, true, s1, s2, now) == Idle <==> QrPreview.Actions(d, canShare).downloadDisabled
    ensures HandleCopy(d, true, s1, s2) == Idle <==> QrPreview.Actions(d, canShare).copyDisabled
    ensures HandleShare(d, true, canShare, s1, s2) == Idle <==> QrPreview.Actions(d, canShare).shareDisabled
  {
  }

  /**
   * The share button is only rendered where sharing exists, so a click on it
   * never produces the "not supported" toast.
   */
  lemma ShareButtonNeverUnsupported(d: QrCodeData, canShare: bool, snapshot: Attempt, share: Attempt)
    ensures QrPreview.Actions(d, canShare).shareShown ==>
      ShareUnsupported !in HandleShare(d, true, canShare, snapshot, share).toasts
  {
    assert ShareUnsupported != ShareFailed && ShareUnsupported != ShareSucceeded;
  }

  /**
   * In WhatsApp mode export always proceeds on a mounted frame, even with an
   * empty phone field: the link prefix alone is never blank.
   */
  lemma WhatsAppAlwaysExports(d: QrCodeData, snapshot: Attempt, click: Attempt, now: nat)
    requires d.qrType == WhatsApp
    ensures HandleDownload(d, true, snapshot, click, now) != Idle
    ensures HandleCopy(d, true, snapshot, click) != Idle
  {
    QrPreview.WhatsAppNeverEmpty(d);
  }

  /** A success toast is shown only after the sink was called and resolved. */
  lemma SuccessOnlyAfterDelivery(d: QrCodeData, mounted: bool, canShare: bool, s1: Attempt, s2: Attempt, now: nat)
    ensures forall t | t in HandleDownload(d, mounted, s1, s2, now).toasts ::
      IsSuccess(t) ==> HandleDownload(d, mounted, s1, s2, now).sink.Some? && s2.Resolved?
    ensures forall t | t in HandleCopy(d, mounted, s1, s2).toasts ::
      IsSuccess(t) ==> HandleCopy(d, mounted, s1, s2).sink.Some? && s2.Resolved?
    ensures forall t | t in HandleShare(d, mounted, canShare, s1, s2).toasts ::
      IsSuccess(t) ==> HandleShare(d, mounted, canShare, s1, s2).sink.Some? && s2.Resolved?
  {
    var down := HandleDownload(d, mounted, s1, s2, now);
    var copy := HandleCopy(d, mounted, s1, s2);
    var share := HandleShare(d, mounted, canShare, s1, s2);
    if !Guarded(d, mounted) {
      assert down.toasts == [down.toasts[0]] && copy.toasts == [copy.toasts[0]];
      assert !IsSuccess(ShareFailed) && !IsSuccess(ShareUnsupported);
    }
  }
}

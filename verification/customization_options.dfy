/**
 * The style panel: two sliders, two colour fields (each a colour picker plus
 * a text box), and the logo picker with its remove button. The panel holds
 * no state; every control forwards a value to a callback of its parent.
 */
module CustomizationOptions {
  import opened Wrappers
  import opened QrTypes
  import JsString

  /** A slider producing the integers from min to max in steps of step. */
  datatype Slider = Slider(min: int, max: int, step: int)

  const SizeSlider := Slider(128, 512, 1)
  const LogoSizeSlider := Slider(20, 150, 1)

  predicate CanProduce(sl: Slider, v: int)
    requires sl.step > 0
  {
    sl.min <= v <= sl.max && (v - sl.min) % sl.step == 0
  }

  /**
   * The logo's size in whole kilobytes, as `Math.round(size / 1024)`: the
   * nearest multiple of 1024, with an exact half rounded up.
   */
  function LogoKilobytes(sizeBytes: nat): (k: nat)
    ensures k * 1024 - 512 <= sizeBytes < k * 1024 + 512
  {
    (sizeBytes + 512) / 1024
  }

  /** The caption shown under the logo picker: the file name and its size in KB. */
  function LogoCaption(f: LogoFile): string
  {
    f.name + " (" + JsString.DecimalString(LogoKilobytes(f.sizeBytes)) + " KB)"
  }

  /** The caption begins with the file name and ends with its size, read back as a number. */
  lemma LogoCaptionShape(f: LogoFile)
    ensures |LogoCaption(f)| > |f.name| + 5
    ensures LogoCaption(f)[..|f.name|] == f.name
    ensures LogoCaption(f)[|LogoCaption(f)| - 4..] == " KB)"
    ensures JsString.DecimalValue(LogoCaption(f)[|f.name| + 2..|LogoCaption(f)| - 4]) == LogoKilobytes(f.sizeBytes)
  {
    var digits := JsString.DecimalString(LogoKilobytes(f.sizeBytes));
    assert LogoCaption(f) == f.name + " (" + digits + " KB)";
    assert LogoCaption(f)[|f.name| + 2..|LogoCaption(f)| - 4] == digits;
    JsString.DecimalRoundTrip(LogoKilobytes(f.sizeBytes));
  }

  /** The callbacks the panel calls on its parent, with their arguments. */
  datatype Callback =
    | QrSizeChange(size: int)
    | ForegroundColorChange(color: string)
    | BackgroundColorChange(color: string)
    | LogoSizeChange(logoSize: int)
    | LogoUpload(file: Option<LogoFile>)

  /**
   * One user action on the panel. Each slider has a single thumb (its value is
   * a one-element array), so a slide reports that thumb's value.
   */
  datatype Input =
    | SizeSlid(value: int)
    | ForegroundPicked(color: string)
    | ForegroundTyped(color: string)
    | BackgroundPicked(color: string)
    | BackgroundTyped(color: string)
    | LogoFilesChosen(files: Option<seq<LogoFile>>)
    | RemoveLogoClicked
    | LogoSizeSlid(value: int)

  /** The file input's change handler: upload the first file, if there is one. */
  function HandleLogoChange(files: Option<seq<LogoFile>>): (calls: seq<Callback>)
    ensures |calls| <= 1
    ensures calls != [] <==> files.Some? && |files.value| > 0
    ensures calls != [] ==> calls[0] == LogoUpload(Some(files.value[0]))
  {
    if files.Some? && |files.value| > 0 then [LogoUpload(Some(files.value[0]))] else []
  }

  /** The remove button: always report "no logo" (it also clears the file input, outside the model). */
  function HandleRemoveLogo(): seq<Callback>
  {
    [LogoUpload(None)]
  }

  /** The callbacks one panel action makes, in order. */
  function Handle(i: Input): (calls: seq<Callback>)
    ensures |calls| <= 1
    ensures calls == [] <==> i.LogoFilesChosen? && (i.files.None? || i.files.value == [])
    ensures forall cb | cb in calls :: cb.LogoUpload? <==> i.LogoFilesChosen? || i.RemoveLogoClicked?
  {
    match i
    case SizeSlid(v) => [QrSizeChange(v)]
    case ForegroundPicked(c) => [ForegroundColorChange(c)]
    case ForegroundTyped(c) => [ForegroundColorChange(c)]
    case BackgroundPicked(c) => [BackgroundColorChange(c)]
    case BackgroundTyped(c) => [BackgroundColorChange(c)]
    case LogoFilesChosen(files) => HandleLogoChange(files)
    case RemoveLogoClicked => HandleRemoveLogo()
    case LogoSizeSlid(v) => [LogoSizeChange(v)]
  }

  /**
   * What the panel can emit while the parent holds the given logo: slider
   * values within the slider's range, and the remove button and the logo-size
   * slider only while a logo is present. Colours are free text.
   */
  predicate Available(logo: Option<LogoFile>, i: Input) {
    match i
    case SizeSlid(v) => CanProduce(SizeSlider, v)
    case LogoSizeSlid(v) => logo.Some? && CanProduce(LogoSizeSlider, v)
    case RemoveLogoClicked => logo.Some?
    case _ => true
  }

  /**
   * Every callback an available action makes carries a value the control
   * permits, and the colour controls forward their text unchanged.
   */
  lemma CallbacksWithinRanges(logo: Option<LogoFile>, i: Input)
    requires Available(logo, i)
    ensures forall cb | cb in Handle(i) ::
      && (cb.QrSizeChange? ==> 128 <= cb.size <= 512)
      && (cb.LogoSizeChange? ==> 20 <= cb.logoSize <= 150 && logo.Some?)
    ensures (i.ForegroundPicked? || i.ForegroundTyped?) ==> Handle(i) == [ForegroundColorChange(i.color)]
    ensures (i.BackgroundPicked? || i.BackgroundTyped?) ==> Handle(i) == [BackgroundColorChange(i.color)]
  {
  }
}

/**
 * The page controller: the session state, the effect that recomputes the
 * content string whenever one of its inputs changes, the logo-upload handler,
 * and the bundle handed to the preview.
 */
module Home {
  import opened Wrappers
  import opened QrTypes
  import QrPreview
  import UriComponent
  import Panel = CustomizationOptions

  /** The page's state hooks, one field each. */
  datatype Session = Session(
    qrType: QrType,
    url: string,
    text: string,
    phone: string,
    message: string,
    qrSize: int,
    foregroundColor: string,
    backgroundColor: string,
    logo: Option<LogoFile>,
    logoImg: Option<LogoImage>,
    logoSize: int,
    qrContent: string)

  const Initial := Session(Url, "", "", "", "", 250, "#000000", "#FFFFFF", None, None, 15, "")

  /** The effect's computation. Unlike the preview, an empty phone gives "". */
  function Content(qrType: QrType, url: string, text: string, phone: string, message: string): string
  {
    match qrType
    case Url => url
    case Text => text
    case WhatsApp =>
      if phone == [] then []
      else
        "https://wa.me/" + QrPreview.NormalizePhone(phone)
          + (if message != [] then "?text=" + UriComponent.Encode(message) else [])
  }

  /** The effect's dependency list. */
  function Deps(s: Session): (QrType, string, string, string, string)
  {
    (s.qrType, s.url, s.text, s.phone, s.message)
  }

  function ContentOf(s: Session): string
  {
    Content(s.qrType, s.url, s.text, s.phone, s.message)
  }

  /** The effect has caught up with the current inputs. */
  predicate Settled(s: Session) {
    s.qrContent == ContentOf(s)
  }

  /** The object handed to the preview: every state field, copied. */
  function Bundle(s: Session): QrCodeData
  {
    QrCodeData(s.qrType, s.qrContent, s.url, s.text, s.phone, s.message, s.qrSize,
               s.foregroundColor, s.backgroundColor, s.logo, s.logoImg, s.logoSize)
  }

  /**
   * handleLogoUpload, synchronous part: the logo is replaced at once; the
   * decoded image is cleared on removal and otherwise left as it is until
   * the asynchronous decode completes (the LogoDecoded event).
   */
  function HandleLogoUpload(s: Session, file: Option<LogoFile>): (t: Session)
    ensures t.logo == file
    ensures file.None? ==> t.logoImg.None?
    ensures file.Some? ==> t.logoImg == s.logoImg
    ensures Deps(t) == Deps(s) && t.qrContent == s.qrContent
    ensures t.qrSize == s.qrSize && t.logoSize == s.logoSize
    ensures t.foregroundColor == s.foregroundColor && t.backgroundColor == s.backgroundColor
  {
    if file.Some? then s.(logo := file) else s.(logo := None, logoImg := None)
  }

  /** The parent's side of one panel callback. */
  function ApplyCallback(s: Session, cb: Panel.Callback): Session
  {
    match cb
    case QrSizeChange(v) => s.(qrSize := v)
    case ForegroundColorChange(c) => s.(foregroundColor := c)
    case BackgroundColorChange(c) => s.(backgroundColor := c)
    case LogoSizeChange(v) => s.(logoSize := v)
    case LogoUpload(f) => HandleLogoUpload(s, f)
  }

  function ApplyCallbacks(s: Session, cbs: seq<Panel.Callback>): Session
    decreases |cbs|
  {
    if cbs == [] then s else ApplyCallbacks(ApplyCallback(s, cbs[0]), cbs[1..])
  }

  lemma ApplySingleCallback(s: Session, cb: Panel.Callback)
    ensures ApplyCallbacks(s, [cb]) == ApplyCallback(s, cb)
  {
    assert [cb][1..] == [];
  }

  /** One thing that can happen to the page. */
  datatype Event =
    | TypeChange(t: QrType)
    | UrlChange(v: string)
    | TextChange(v: string)
    | PhoneChange(v: string)
    | MessageChange(v: string)
    | PanelInput(input: Panel.Input)
    | LogoDecoded(img: LogoImage)

  /** The state setters an event calls, before any effect runs. */
  function Apply(s: Session, e: Event): Session
  {
    match e
    case TypeChange(t) => s.(qrType := t)
    case UrlChange(v) => s.(url := v)
    case TextChange(v) => s.(text := v)
    case PhoneChange(v) => s.(phone := v)
    case MessageChange(v) => s.(message := v)
    case PanelInput(i) => ApplyCallbacks(s, Panel.Handle(i))
    case LogoDecoded(img) => s.(logoImg := Some(img))
  }

  /** The effect: store the freshly computed content. */
  function RunEffect(s: Session): (t: Session)
    ensures Settled(t)
  {
    s.(qrContent := ContentOf(s))
  }

  /** An event followed by the re-render, which runs the effect iff a dependency changed. */
  function Step(s: Session, e: Event): Session
  {
    var t := Apply(s, e);
    if Deps(t) != Deps(s) then RunEffect(t) else t
  }

  // ---------------------------------------------------------------------
  // The two resolvers.
  // ---------------------------------------------------------------------

  /**
   * The page's content and the preview's value agree on every input except
   * a WhatsApp session with an empty phone field, where the page has ""
   * and the preview has the bare link prefix.
   */
  lemma ContentAgreesWithPreview(s: Session)
    ensures ContentOf(s) == QrPreview.Value(Bundle(s)) <==> !(s.qrType == WhatsApp && s.phone == [])
    ensures s.qrType == WhatsApp && s.phone == [] ==>
      ContentOf(s) == [] && QrPreview.Value(Bundle(s)) == QrPreview.WaMePrefix + QrPreview.LinkTail(s.message)
  {
    if s.qrType == WhatsApp {
      QrPreview.LinkSplit(s.phone, s.message);
      if s.phone == [] {
        assert QrPreview.NormalizePhone(s.phone) == [];
        assert QrPreview.Value(Bundle(s))[0] == 'h';
      }
    }
  }

  /** The page's WhatsApp content, whatever the URL and text fields hold: "" for an empty phone, otherwise the link, even without digits. */
  lemma WhatsAppContent(url: string, text: string, phone: string, message: string)
    ensures phone == [] ==> Content(WhatsApp, url, text, phone, message) == []
    ensures phone != [] ==> Content(WhatsApp, url, text, phone, message) == QrPreview.WhatsAppLink(phone, message)
    ensures phone != [] && QrPreview.CountPhoneChars(phone) == 0 && message == [] ==>
      Content(WhatsApp, url, text, phone, message) == "https://wa.me/"
  {
    if QrPreview.CountPhoneChars(phone) == 0 {
      QrPreview.NormalizePhoneContents(phone);
    }
  }

  // ---------------------------------------------------------------------
  // Transitions.
  // ---------------------------------------------------------------------

  /** The initial state: a URL session with nothing typed, so the preview shows its placeholder. */
  lemma InitialState()
    ensures Settled(Initial)
    ensures QrPreview.IsEmpty(Bundle(Initial))
    ensures QrPreview.Render(Bundle(Initial)).inner == QrPreview.Placeholder(QrPreview.UrlHint)
    ensures Panel.CanProduce(Panel.SizeSlider, Initial.qrSize)
    ensures !Panel.CanProduce(Panel.LogoSizeSlider, Initial.logoSize)
  {
  }

  /** Content is a function of its five inputs alone. */
  lemma ContentDependsOnlyOnDeps(s: Session, t: Session)
    requires Deps(s) == Deps(t)
    ensures ContentOf(s) == ContentOf(t)
  {
  }

  /** Every step leaves the effect caught up. */
  lemma StepSettles(s: Session, e: Event)
    requires Settled(s)
    ensures Settled(Step(s, e))
  {
    var t := Apply(s, e);
    if Deps(t) == Deps(s) {
      ApplyKeepsContentField(s, e);
      ContentDependsOnlyOnDeps(s, t);
    }
  }

  lemma {:induction false} ApplyCallbacksKeepsContent(s: Session, cbs: seq<Panel.Callback>)
    ensures Deps(ApplyCallbacks(s, cbs)) == Deps(s)
    ensures ApplyCallbacks(s, cbs).qrContent == s.qrContent
    decreases |cbs|
  {
    if cbs != [] {
      ApplyCallbacksKeepsContent(ApplyCallback(s, cbs[0]), cbs[1..]);
    }
  }

  lemma ApplyKeepsContentField(s: Session, e: Event)
    ensures Apply(s, e).qrContent == s.qrContent
  {
    if e.PanelInput? {
      ApplyCallbacksKeepsContent(s, Panel.Handle(e.input));
    }
  }

  /** Style and logo events never touch the content or the fields it comes from. */
  lemma StyleEventsKeepContent(s: Session, e: Event)
    requires e.PanelInput? || e.LogoDecoded?
    ensures Deps(Step(s, e)) == Deps(s)
    ensures Step(s, e).qrContent == s.qrContent
  {
    if e.PanelInput? {
      ApplyCallbacksKeepsContent(s, Panel.Handle(e.input));
    }
  }

  /**
   * Switching type changes only the type: the other kinds' fields survive,
   * so switching back restores the earlier content.
   */
  lemma TypeSwitchRetainsFields(s: Session, t: QrType)
    requires Settled(s)
    ensures Step(s, TypeChange(t)) == s.(qrType := t, qrContent := ContentOf(s.(qrType := t)))
    ensures Step(Step(s, TypeChange(t)), TypeChange(s.qrType)).qrContent == s.qrContent
  {
    StepSettles(s, TypeChange(t));
    StepSettles(Step(s, TypeChange(t)), TypeChange(s.qrType));
  }

  /** Removing the logo takes the overlay away at once. */
  lemma RemoveLogoClearsOverlay(s: Session)
    ensures var s' := Step(s, PanelInput(Panel.RemoveLogoClicked));
      s'.logo.None? && s'.logoImg.None? && QrPreview.Overlay(Bundle(s')).None?
  {
    assert Panel.Handle(Panel.RemoveLogoClicked) == [Panel.LogoUpload(None)];
  }

  /** Picking files uploads the first one; an empty pick changes nothing. */
  lemma ChooseLogoFiles(s: Session, files: Option<seq<LogoFile>>)
    ensures var s' := Step(s, PanelInput(Panel.LogoFilesChosen(files)));
      if files.Some? && |files.value| > 0
      then s'.logo == Some(files.value[0]) && s'.logoImg == s.logoImg
      else s' == s
  {
    var cbs := Panel.HandleLogoChange(files);
    if cbs != [] {
      ApplySingleCallback(s, cbs[0]);
      assert cbs == [cbs[0]];
    }
  }

  // ---------------------------------------------------------------------
  // Sessions reachable through the controls.
  // ---------------------------------------------------------------------

  /**
   * What the controls can emit in a state. Typing and type switches are
   * unrestricted; the panel's limits are those of CustomizationOptions. A
   * decode completion may arrive at any time, since an earlier upload's
   * image can finish loading after the logo was replaced or removed.
   */
  predicate Producible(s: Session, e: Event) {
    e.PanelInput? ==> Panel.Available(s.logo, e.input)
  }

  function Run(s: Session, es: seq<Event>): Session
    decreases |es|
  {
    if es == [] then s else Run(Step(s, es[0]), es[1..])
  }

  predicate ProducibleTrace(s: Session, es: seq<Event>)
    decreases |es|
  {
    es == [] || (Producible(s, es[0]) && ProducibleTrace(Step(s, es[0]), es[1..]))
  }

  /**
   * What holds in every reachable session: the content is up to date, the
   * size lies on its slider, and the logo size is either the untouched
   * initial 15 or a value of the logo-size slider.
   */
  predicate Invariant(s: Session) {
    && Settled(s)
    && 128 <= s.qrSize <= 512
    && (s.logoSize == 15 || 20 <= s.logoSize <= 150)
  }

  lemma PanelStepKeepsRanges(s: Session, i: Panel.Input)
    requires Invariant(s) && Panel.Available(s.logo, i)
    ensures var t := ApplyCallbacks(s, Panel.Handle(i));
      128 <= t.qrSize <= 512 && (t.logoSize == 15 || 20 <= t.logoSize <= 150)
  {
    var cbs := Panel.Handle(i);
    Panel.CallbacksWithinRanges(s.logo, i);
    if cbs != [] {
      assert cbs == [cbs[0]];
      ApplySingleCallback(s, cbs[0]);
      assert cbs[0] in cbs;
    }
  }

  lemma StepKeepsInvariant(s: Session, e: Event)
    requires Invariant(s) && Producible(s, e)
    ensures Invariant(Step(s, e))
  {
    StepSettles(s, e);
    if e.PanelInput? {
      PanelStepKeepsRanges(s, e.input);
      ApplyCallbacksKeepsContent(s, Panel.Handle(e.input));
    }
  }

  lemma {:induction false} TraceKeepsInvariant(s: Session, es: seq<Event>)
    requires Invariant(s) && ProducibleTrace(s, es)
    ensures Invariant(Run(s, es))
    decreases |es|
  {
    if es != [] {
      StepKeepsInvariant(s, es[0]);
      TraceKeepsInvariant(Step(s, es[0]), es[1..]);
    }
  }

  /**
   * Every session the page can reach holds the invariant, and its preview
   * frame is between 160 and 544 pixels wide.
   */
  lemma ReachableSessions(es: seq<Event>)
    requires ProducibleTrace(Initial, es)
    ensures Invariant(Run(Initial, es))
    ensures 160 <= QrPreview.Render(Bundle(Run(Initial, es))).width <= 544
  {
    InitialState();
    TraceKeepsInvariant(Initial, es);
  }

  predicate MovesLogoSlider(e: Event) {
    e.PanelInput? && e.input.LogoSizeSlid?
  }

  /** The logo size keeps its initial 15 until the logo-size slider is moved. */
  lemma {:induction false} LogoSizeKeptUntilSlid(s: Session, es: seq<Event>)
    requires forall k | 0 <= k < |es| :: !MovesLogoSlider(es[k])
    ensures Run(s, es).logoSize == s.logoSize
    decreases |es|
  {
    if es != [] {
      var e := es[0];
      if e.PanelInput? {
        var cbs := Panel.Handle(e.input);
        if cbs != [] {
          assert cbs == [cbs[0]];
          ApplySingleCallback(s, cbs[0]);
        }
      }
      assert Step(s, e).logoSize == s.logoSize;
      LogoSizeKeptUntilSlid(Step(s, e), es[1..]);
    }
  }
}

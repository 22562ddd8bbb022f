/**
 * The preview component: the content resolver that decides the exact string
 * the QR symbol encodes, the trim-based emptiness gate, and the parameters
 * handed to the QR renderer (which itself is outside the model).
 */
module QrPreview {
  import opened Wrappers
  import opened QrTypes
  import UriComponent
  import JsString

  // ---------------------------------------------------------------------
  // Phone normalisation: phone.replace(/[^0-9+]/g, "").
  // ---------------------------------------------------------------------

  predicate IsPhoneChar(c: char) {
    ('0' <= c <= '9') || c == '+'
  }

  predicate AllPhoneChars(s: string) {
    forall k | 0 <= k < |s| :: IsPhoneChar(s[k])
  }

  /** Removes every character other than an ASCII digit or '+'. */
  function NormalizePhone(s: string): string
  {
    if s == [] then []
    else if IsPhoneChar(s[0]) then [s[0]] + NormalizePhone(s[1..])
    else NormalizePhone(s[1..])
  }

  /** How many digits and '+' signs s holds. */
  function CountPhoneChars(s: string): nat
  {
    if s == [] then 0
    else (if IsPhoneChar(s[0]) then 1 else 0) + CountPhoneChars(s[1..])
  }

  /** t can be obtained from s by deleting characters. */
  predicate IsSubsequence(t: string, s: string)
    decreases |s|
  {
    if t == [] then true
    else if s == [] then false
    else (t[0] == s[0] && IsSubsequence(t[1..], s[1..])) || IsSubsequence(t, s[1..])
  }

  /** The normalised phone holds only digits and '+', one for each the input holds. */
  lemma {:induction false} NormalizePhoneContents(s: string)
    ensures AllPhoneChars(NormalizePhone(s))
    ensures |NormalizePhone(s)| == CountPhoneChars(s)
  {
    if s != [] {
      NormalizePhoneContents(s[1..]);
    }
  }

  lemma {:induction false} NormalizePhoneIsSubsequence(s: string)
    ensures IsSubsequence(NormalizePhone(s), s)
  {
    if s != [] {
      NormalizePhoneIsSubsequence(s[1..]);
      var r := NormalizePhone(s);
      if IsPhoneChar(s[0]) {
        assert r[0] == s[0] && r[1..] == NormalizePhone(s[1..]);
      }
    }
  }

  /** A subsequence made only of digits and '+' is no longer than their count. */
  lemma {:induction false} PhoneSubsequenceBound(t: string, s: string)
    requires AllPhoneChars(t) && IsSubsequence(t, s)
    ensures |t| <= CountPhoneChars(s)
    decreases |s|
  {
    if t != [] {
      if t[0] == s[0] && IsSubsequence(t[1..], s[1..]) {
        PhoneSubsequenceBound(t[1..], s[1..]);
      } else {
        PhoneSubsequenceBound(t, s[1..]);
      }
    }
  }

  /**
   * The normalised phone is the only subsequence of the input that consists
   * of digits and '+' and keeps all of them: it is exactly the order-preserving
   * list of the input's digits and plus signs.
   */
  lemma {:induction false} NormalizePhoneUnique(t: string, s: string)
    requires AllPhoneChars(t) && IsSubsequence(t, s) && |t| == CountPhoneChars(s)
    ensures t == NormalizePhone(s)
    decreases |s|
  {
    if s == [] {
    } else if IsPhoneChar(s[0]) {
      if !(t[0] == s[0] && IsSubsequence(t[1..], s[1..])) {
        PhoneSubsequenceBound(t, s[1..]);
        assert false;
      }
      NormalizePhoneUnique(t[1..], s[1..]);
      assert t == [t[0]] + t[1..];
    } else {
      if t != [] {
        assert t[0] != s[0];
      }
      NormalizePhoneUnique(t, s[1..]);
    }
  }

  /** A string of digits and '+' is already normalised. */
  lemma {:induction false} NormalizePhoneFixpoint(s: string)
    requires AllPhoneChars(s)
    ensures NormalizePhone(s) == s
  {
    if s != [] {
      NormalizePhoneFixpoint(s[1..]);
      assert [s[0]] + s[1..] == s;
    }
  }

  lemma NormalizePhoneIdempotent(s: string)
    ensures NormalizePhone(NormalizePhone(s)) == NormalizePhone(s)
  {
    NormalizePhoneContents(s);
    NormalizePhoneFixpoint(NormalizePhone(s));
  }

  lemma {:induction false} NormalizePhoneConcat(a: string, b: string)
    ensures NormalizePhone(a + b) == NormalizePhone(a) + NormalizePhone(b)
    decreases |a|
  {
    if a == [] {
      assert a + b == b;
    } else {
      assert (a + b)[0] == a[0];
      assert (a + b)[1..] == a[1..] + b;
      NormalizePhoneConcat(a[1..], b);
    }
  }

  // ---------------------------------------------------------------------
  // The content resolver (getQrValue) and the emptiness gate.
  // ---------------------------------------------------------------------

  const WaMePrefix: string := "https://wa.me/"
  const TextQuery: string := "?text="

  /** What follows the phone: "?text=" and the encoded message, or nothing for an empty message. */
  function LinkTail(message: string): string
  {
    if message != [] then TextQuery + UriComponent.Encode(message) else []
  }

  /** The WhatsApp click-to-chat link. */
  function WhatsAppLink(phone: string, message: string): (r: string)
    ensures |r| >= |WaMePrefix| && r[..|WaMePrefix|] == WaMePrefix
  {
    WaMePrefix + NormalizePhone(phone) + LinkTail(message)
  }

  /** getQrValue: the exact string the symbol encodes. */
  function Value(d: QrCodeData): (r: string)
    ensures d.qrType == WhatsApp ==> |r| >= |WaMePrefix| && r[..|WaMePrefix|] == WaMePrefix
  {
    match d.qrType
    case Url => d.url
    case Text => d.text
    case WhatsApp => WhatsAppLink(d.phone, d.message)
  }

  /** The preview resolves the value itself and never reads the page's content field. */
  lemma ValueIgnoresContentField(d: QrCodeData, c: string)
    ensures Value(d.(content := c)) == Value(d)
    ensures IsEmpty(d.(content := c)) == IsEmpty(d)
  {
    var e := d.(content := c);
    assert e.qrType == d.qrType && e.url == d.url && e.text == d.text;
    assert e.phone == d.phone && e.message == d.message;
    match d.qrType
    case Url =>
    case Text =>
    case WhatsApp =>
      assert Value(e) == WhatsAppLink(d.phone, d.message);
  }

  /** isEmpty: the value trims to "". */
  predicate IsEmpty(d: QrCodeData) {
    JsString.Trim(Value(d)) == []
  }

  /**
   * URL and text are encoded verbatim, whitespace included, and the gate
   * closes for them exactly when the field is made only of trimmable
   * characters (the empty field among them).
   */
  lemma UrlAndTextVerbatim(d: QrCodeData)
    requires d.qrType != WhatsApp
    ensures d.qrType == Url ==> Value(d) == d.url
    ensures d.qrType == Text ==> Value(d) == d.text
    ensures IsEmpty(d) <==> JsString.AllTrimmable(if d.qrType == Url then d.url else d.text)
  {
    JsString.TrimEmptyIff(Value(d));
  }

  /** In WhatsApp mode the value always starts with the link prefix, so the gate never closes. */
  lemma WhatsAppNeverEmpty(d: QrCodeData)
    requires d.qrType == WhatsApp
    ensures !IsEmpty(d)
  {
    var v := Value(d);
    assert v[0] == 'h';
    JsString.TrimNonEmpty(v);
  }

  /** The first position of c in s, or |s| when c does not occur. */
  function IndexOf(s: string, c: char): (i: nat)
    ensures i <= |s|
    ensures c !in s[..i]
    ensures i < |s| ==> s[i] == c
  {
    if s == [] then 0
    else if s[0] == c then 0
    else
      var i := IndexOf(s[1..], c);
      assert s[..i + 1] == [s[0]] + s[1..][..i];
      i + 1
  }

  /**
   * Reads a WhatsApp link back into its normalised phone and its message:
   * the partner of WhatsAppLink, which shows the link loses nothing.
   */
  function ParseWhatsAppLink(v: string): Option<(string, string)>
  {
    if |v| < |WaMePrefix| || v[..|WaMePrefix|] != WaMePrefix then None
    else
      var rest := v[|WaMePrefix|..];
      var i := IndexOf(rest, '?');
      if i == |rest| then Some((rest, []))
      else
        var query := rest[i..];
        if |query| < |TextQuery| || query[..|TextQuery|] != TextQuery then None
        else
          match UriComponent.Decode(query[|TextQuery|..])
          case None => None
          case Some(m) => Some((rest[..i], m))
  }

  lemma PhoneHasNoQuestionMark(phone: string)
    ensures '?' !in NormalizePhone(phone)
  {
    NormalizePhoneContents(phone);
  }

  lemma LinkSplit(phone: string, message: string)
    ensures WhatsAppLink(phone, message) == WaMePrefix + (NormalizePhone(phone) + LinkTail(message))
  {
  }

  /** What the parser does after the prefix: split at the first '?'. */
  lemma ParseAfterPrefix(rest: string)
    ensures ParseWhatsAppLink(WaMePrefix + rest) ==
      var i := IndexOf(rest, '?');
      if i == |rest| then Some((rest, []))
      else
        var query := rest[i..];
        if |query| < |TextQuery| || query[..|TextQuery|] != TextQuery then None
        else
          match UriComponent.Decode(query[|TextQuery|..])
          case None => None
          case Some(m) => Some((rest[..i], m))
  {
    var v := WaMePrefix + rest;
    assert v[..|WaMePrefix|] == WaMePrefix;
    assert v[|WaMePrefix|..] == rest;
  }

  lemma IndexOfAfterPhone(p: string, tail: string)
    requires AllPhoneChars(p) && |tail| > 0 && tail[0] == '?'
    ensures IndexOf(p + tail, '?') == |p|
  {
    var rest := p + tail;
    var i := IndexOf(rest, '?');
    assert rest[|p|] == '?';
    assert rest[..|p| + 1][|p|] == '?';
    assert forall k | 0 <= k < |p| :: rest[k] == p[k];
  }

  lemma IndexOfPhone(p: string)
    requires AllPhoneChars(p)
    ensures IndexOf(p, '?') == |p|
  {
  }

  /** Parsing a WhatsApp link gives back the normalised phone and the message exactly. */
  lemma WhatsAppLinkRoundTrip(phone: string, message: string)
    ensures ParseWhatsAppLink(WhatsAppLink(phone, message)) == Some((NormalizePhone(phone), message))
  {
    var p := NormalizePhone(phone);
    var tail := LinkTail(message);
    var rest := p + tail;
    LinkSplit(phone, message);
    ParseAfterPrefix(rest);
    NormalizePhoneContents(phone);
    if message == [] {
      assert rest == p;
      IndexOfPhone(p);
    } else {
      IndexOfAfterPhone(p, tail);
      var query := rest[|p|..];
      assert query == tail;
      assert rest[..|p|] == p;
      assert query[..|TextQuery|] == TextQuery;
      assert query[|TextQuery|..] == UriComponent.Encode(message);
      UriComponent.DecodeOfEncode(message);
    }
  }

  /** Two WhatsApp links coincide only when their normalised phones and messages do. */
  lemma WhatsAppLinkInjective(p1: string, m1: string, p2: string, m2: string)
    requires WhatsAppLink(p1, m1) == WhatsAppLink(p2, m2)
    ensures NormalizePhone(p1) == NormalizePhone(p2) && m1 == m2
  {
    WhatsAppLinkRoundTrip(p1, m1);
    WhatsAppLinkRoundTrip(p2, m2);
  }

  /** The link carries a '?' exactly when a message was given. */
  lemma WhatsAppQueryIffMessage(phone: string, message: string)
    ensures '?' in WhatsAppLink(phone, message) <==> message != []
  {
    var p := NormalizePhone(phone);
    var v := WhatsAppLink(phone, message);
    PhoneHasNoQuestionMark(phone);
    assert '?' !in WaMePrefix;
    if message == [] {
      assert v == WaMePrefix + p;
    } else {
      assert v[|WaMePrefix| + |p|] == '?';
    }
  }

  /** A string without digits or '+' normalises to "". */
  lemma {:induction false} NormalizePhoneDropsAll(s: string)
    requires forall k | 0 <= k < |s| :: !IsPhoneChar(s[k])
    ensures NormalizePhone(s) == []
  {
    if s != [] {
      NormalizePhoneDropsAll(s[1..]);
    }
  }

  /** A run of phone characters followed by formatting keeps the run and drops the formatting. */
  lemma NormalizeGroup(digits: string, separator: string, rest: string)
    requires AllPhoneChars(digits)
    requires forall k | 0 <= k < |separator| :: !IsPhoneChar(separator[k])
    ensures NormalizePhone(digits + separator + rest) == digits + NormalizePhone(rest)
  {
    assert NormalizePhone(digits + separator) == digits by {
      NormalizePhoneConcat(digits, separator);
      NormalizePhoneFixpoint(digits);
      NormalizePhoneDropsAll(separator);
    }
    NormalizePhoneConcat(digits + separator, rest);
  }

  /**
   * Spaces, brackets and dashes are dropped; the leading '+' stays. The
   * number is rebuilt from its digit groups and separators so that the proof
   * goes through NormalizeGroup rather than character-by-character evaluation.
   */
  lemma FormattedPhoneExample(phone: string)
    requires phone == "+1 (234) 567-8900"
    ensures NormalizePhone(phone) == "+12345678900"
  {
    var r3 := "8900";
    var r2 := "567" + "-" + r3;
    var r1 := "234" + ") " + r2;
    var r0 := "+1" + " (" + r1;
    assert NormalizePhone(r0) == "+1" + ("234" + ("567" + r3)) by {
      NormalizePhoneFixpoint(r3);
      NormalizeGroup("567", "-", r3);
      NormalizeGroup("234", ") ", r2);
      NormalizeGroup("+1", " (", r1);
    }
    assert r0 == phone;
    assert "+1" + ("234" + ("567" + r3)) == "+12345678900";
  }

  lemma DashedPhoneExample(phone: string)
    requires phone == "234-567-8900"
    ensures NormalizePhone(phone) == "2345678900"
  {
    var r2 := "8900";
    var r1 := "567" + "-" + r2;
    var r0 := "234" + "-" + r1;
    assert NormalizePhone(r0) == "234" + ("567" + r2) by {
      NormalizePhoneFixpoint(r2);
      NormalizeGroup("567", "-", r2);
      NormalizeGroup("234", "-", r1);
    }
    assert r0 == phone;
    assert "234" + ("567" + r2) == "2345678900";
  }

  /** An empty message adds no query to the link. */
  lemma WhatsAppExampleNoMessage(phone: string, message: string)
    requires phone == "+1 (234) 567-8900" && message == ""
    ensures WhatsAppLink(phone, message) == "https://wa.me/+12345678900"
  {
    FormattedPhoneExample(phone);
    assert NormalizePhone(phone) == "+12345678900";
    assert WhatsAppLink(phone, message) == WaMePrefix + "+12345678900" + [];
    assert WaMePrefix + "+12345678900" + [] == "https://wa.me/+12345678900";
  }

  /**
   * A message is appended percent-encoded: the space becomes %20 while '!'
   * stays. The message's words are parameters for the reason given at
   * UriComponent.HiThereExample.
   */
  lemma WhatsAppExampleWithMessage(phone: string, hi: string, there: string)
    requires phone == "234-567-8900" && hi == "Hi" && there == "there!"
    ensures WhatsAppLink(phone, hi + " " + there) == "https://wa.me/2345678900?text=" + hi + "%20" + there
  {
    var p, message := "2345678900", hi + " " + there;
    assert NormalizePhone(phone) == p by { DashedPhoneExample(phone); }
    assert UriComponent.Encode(message) == hi + "%20" + there by { UriComponent.HiThereExample(hi, there); }
    assert message != [];
    assert WaMePrefix + p + TextQuery == "https://wa.me/2345678900?text=";
  }

  // ---------------------------------------------------------------------
  // What the preview hands to the renderer.
  // ---------------------------------------------------------------------

  const ContainerPadding: int := 16
  const ErrorCorrectionLevel: string := "H"

  const UrlHint: string := "Enter a URL to generate QR code"
  const TextHint: string := "Enter text to generate QR code"
  const PhoneHint: string := "Enter a phone number to generate QR code"

  /** The side of the square frame around the symbol: the symbol plus padding on both sides. */
  function ContainerSize(size: int): int
  {
    size + ContainerPadding * 2
  }

  /** The logo overlay, centred by the renderer, with the modules under it left unpainted. */
  datatype ImageSettings = ImageSettings(src: LogoFile, height: int, width: int, excavate: bool)

  /** The props of the QR canvas. */
  datatype CanvasProps = CanvasProps(
    value: string,
    size: int,
    level: string,
    fgColor: string,
    bgColor: string,
    imageSettings: Option<ImageSettings>)

  datatype Inner = Placeholder(hint: string) | Symbol(props: CanvasProps)

  /** The padded frame (the region that export snapshots) and what it shows. */
  datatype Frame = Frame(width: int, height: int, padding: int, inner: Inner)

  function HintFor(t: QrType): string
  {
    match t
    case Url => UrlHint
    case Text => TextHint
    case WhatsApp => PhoneHint
  }

  function Overlay(d: QrCodeData): Option<ImageSettings>
  {
    if d.logo.Some? && d.logoImg.Some?
    then Some(ImageSettings(d.logo.value, d.logoSize, d.logoSize, true))
    else None
  }

  function Render(d: QrCodeData): (f: Frame)
    ensures f.width == f.height == d.size + 32 && f.padding == 16
    ensures f.inner.Symbol? <==> !IsEmpty(d)
    ensures f.inner.Symbol? ==>
      && f.inner.props.value == Value(d)
      && f.inner.props.size == d.size
      && f.inner.props.level == "H"
      && f.inner.props.fgColor == d.foregroundColor
      && f.inner.props.bgColor == d.backgroundColor
    ensures f.inner.Symbol? ==>
      (f.inner.props.imageSettings.Some? <==> d.logo.Some? && d.logoImg.Some?)
    ensures f.inner.Symbol? && f.inner.props.imageSettings.Some? ==>
      var img := f.inner.props.imageSettings.value;
      img.width == img.height == d.logoSize && img.excavate && Some(img.src) == d.logo
    ensures f.inner.Placeholder? ==> f.inner.hint == HintFor(d.qrType)
  {
    var side := ContainerSize(d.size);
    var inner :=
      if !IsEmpty(d)
      then Symbol(CanvasProps(Value(d), d.size, ErrorCorrectionLevel,
                              d.foregroundColor, d.backgroundColor, Overlay(d)))
      else Placeholder(HintFor(d.qrType));
    Frame(side, side, ContainerPadding, inner)
  }

  /** The "Enter a phone number" placeholder can never be shown. */
  lemma PhoneHintUnreachable(d: QrCodeData)
    ensures Render(d).inner != Placeholder(PhoneHint)
  {
    if d.qrType == WhatsApp {
      WhatsAppNeverEmpty(d);
    } else {
      assert HintFor(d.qrType) != PhoneHint;
    }
  }

  /** Which export buttons show and which are disabled. */
  datatype ActionBar = ActionBar(
    downloadDisabled: bool,
    copyDisabled: bool,
    shareShown: bool,
    shareDisabled: bool)

  function Actions(d: QrCodeData, canShare: bool): ActionBar
  {
    var empty := IsEmpty(d);
    ActionBar(empty, empty, canShare, empty)
  }

  /**
   * The buttons and the preview apply the same emptiness test: export is
   * offered exactly when a symbol is on screen.
   */
  lemma ExportOfferedIffSymbol(d: QrCodeData, canShare: bool)
    ensures !Actions(d, canShare).downloadDisabled <==> Render(d).inner.Symbol?
    ensures !Actions(d, canShare).copyDisabled <==> Render(d).inner.Symbol?
    ensures Actions(d, canShare).shareShown && !Actions(d, canShare).shareDisabled
            <==> canShare && Render(d).inner.Symbol?
  {
  }
}

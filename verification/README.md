# QR code generator: content resolver, export handlers and session state

A Dafny model of the logic inside a browser-only QR code generator. The user
picks a content kind (URL, free text or a WhatsApp chat link), types its
fields, styles the symbol (size, colours, an optional logo), and exports the
rendered symbol as a PNG by download, clipboard copy or the native share
sheet. What is modelled:

- **The content resolver** (`QrPreview.Value`): the exact string the symbol
  encodes. URL and text pass through verbatim. WhatsApp builds
  `https://wa.me/<phone>` from the phone reduced to digits and `+`. It adds
  `?text=<encodeURIComponent(message)>` only when the message is non-empty.
- **encodeURIComponent** (`UriComponent`), as defined in section 19.2.6 of
  ECMA-262. Characters outside the unreserved set become the UTF-8 octets
  of the code point, written as `%HH` with upper-case hex (section 2.1 of
  RFC 3986). A decoder is the partner definition, and the round trip is
  proved.
- **The emptiness gate** (`QrPreview.IsEmpty`): `String.prototype.trim`
  (`JsString.Trim`) yields `""`. The gate decides placeholder versus symbol
  and whether the export buttons are enabled.
- **The page's second resolver** (`Home.Content`): the effect that recomputes
  the content string, and where it differs from the preview's.
- **The render parameters**: the frame size, the error-correction level
  `"H"` and the logo overlay.
- **The three export handlers** (`QrExport`), as functions from oracle
  outcomes to the snapshot requested, the sink called and the toasts shown.
- **The session state of the page** (`Home.Session`) with its transitions.
  These include the style panel's callbacks (`CustomizationOptions`), the
  dependency-driven effect, and an invariant over every session the controls
  can reach.

Files: `wrappers.dfy` (Option), `uri_component.dfy`, `js_string.dfy`,
`qr_types.dfy` (the types of `client/src/lib/utils/qr-generator.ts`),
`qr_preview.dfy`, `qr_export.dfy` (both from `qr-preview.tsx`),
`customization_options.dfy`, `home.dfy`.

Behaviour of the code worth knowing:

- `encodeURIComponent` leaves `!` unescaped, so `"Hi there!"` becomes
  `"Hi%20there!"` (`UriComponent.HiThereExample`).
- A phone field with no digits is not blank; one with neither digits nor `+` and no message yields `https://wa.me/`.
  In the preview even an empty phone yields that link. So in WhatsApp mode
  the placeholder never shows and export is always enabled
  (`QrPreview.WhatsAppNeverEmpty`, `QrPreview.PhoneHintUnreachable`).
- The size slider runs from 128 to 512.
- The logo size is in absolute pixels, from 20 to 150, and starts at 15.
  Nothing clamps it against the symbol size.
- Clipboard capability is not detected up front: Copy is always offered,
  and a failing write shows an error toast. Only sharing is detected
  (`'share' in navigator`).
- Nothing prevents two exports from running at once.
- The exported PNG paints the 16px ring around the symbol in the chosen
  background colour, while on screen that ring shows the page theme's
  background. So the export can differ from the preview at its edge.

## Model

| member | source | states |
|---|---|---|
| `UriComponent.EncodeIsEncoded` | client/src/components/qr-generator/qr-preview.tsx:27 | the encoded message is made only of unreserved characters and `%HH` triples with upper-case hex, and is 1 to 12 characters per input character |
| `UriComponent.DecodeOfEncode` | client/src/components/qr-generator/qr-preview.tsx:27 | percent-decoding and then UTF-8-decoding the encoded message gives back the message exactly |
| `UriComponent.EncodeInjective` | client/src/components/qr-generator/qr-preview.tsx:27 | different messages never produce the same encoded text |
| `UriComponent.EncodeCharKeepsExactlyUnreserved` | client/src/components/qr-generator/qr-preview.tsx:27 | a character is copied through unchanged if and only if it is in the unreserved set `A-Z a-z 0-9 - _ . ! ~ * ' ( )` |
| `UriComponent.EncodeAsciiChar` | client/src/components/qr-generator/qr-preview.tsx:27 | every other ASCII character becomes one `%HH` of its code |
| `UriComponent.SpaceEncoding` | client/src/components/qr-generator/qr-preview.tsx:27 | a space becomes `%20` |
| `UriComponent.EncodeConcat` | client/src/components/qr-generator/qr-preview.tsx:27 | the encoding of a concatenation is the concatenation of the encodings |
| `UriComponent.EncodeUnreservedIdentity` | client/src/components/qr-generator/qr-preview.tsx:27 | a text of unreserved characters is its own encoding |
| `UriComponent.EncodeHasNoQueryDelimiters` | client/src/components/qr-generator/qr-preview.tsx:26-27 | the encoded message contains no `?`, `#`, `&` or `=`, so it cannot end or split the query |
| `UriComponent.HiThereExample` | client/src/components/qr-generator/qr-preview.tsx:27 | `"Hi" + " " + "there!"` encodes as `"Hi" + "%20" + "there!"`: the space is escaped and `!` is kept |
| `JsString.TrimStart` | client/src/components/qr-generator/qr-preview.tsx:35 | the result is the suffix of the input after its leading whitespace/line terminators, and starts with a non-trimmable character if non-empty |
| `JsString.TrimEnd` | client/src/components/qr-generator/qr-preview.tsx:35 | the result is the prefix of the input before its trailing whitespace/line terminators, and ends with a non-trimmable character if non-empty |
| `JsString.TrimEmptyIff` | client/src/components/qr-generator/qr-preview.tsx:35 | a string trims to `""` if and only if every character of it is JavaScript whitespace or a line terminator |
| `JsString.TrimIdempotent` | client/src/components/qr-generator/qr-preview.tsx:35 | trimming twice is trimming once |
| `JsString.DecimalString` | client/src/components/qr-generator/qr-preview.tsx:57 | the rendered clock value is a non-empty run of decimal digits without a leading zero |
| `JsString.DecimalRoundTrip` | client/src/components/qr-generator/qr-preview.tsx:57 | reading the rendered digits back gives the clock value |
| `JsString.DecimalInjective` | client/src/components/qr-generator/qr-preview.tsx:57 | different clock values render differently |
| `JsString.Trim` | client/src/components/qr-generator/qr-preview.tsx:35 | `String.prototype.trim`: the result is no longer than the input, and when non-empty it neither starts nor ends with whitespace or a line terminator. `JsString.TrimStart`, `JsString.TrimEnd` and `JsString.TrimEmptyIff` characterise it fully |
| `QrPreview.NormalizePhone` | client/src/components/qr-generator/qr-preview.tsx:25 | `replace(/[^0-9+]/g, "")`: keeps every ASCII digit and `+` in order and drops everything else. The contract is in `QrPreview.NormalizePhoneContents`, `QrPreview.NormalizePhoneIsSubsequence` and `QrPreview.NormalizePhoneUnique` |
| `QrPreview.LinkTail` | client/src/components/qr-generator/qr-preview.tsx:26-28 | what follows the phone: `?text=` and the encoded message, or nothing when the message is empty. `QrPreview.WhatsAppQueryIffMessage` states the iff |
| `QrPreview.WhatsAppLink` | client/src/components/qr-generator/qr-preview.tsx:24-28 | the link always starts with `https://wa.me/`. `QrPreview.WhatsAppLinkRoundTrip` shows the phone and message can be recovered from it |
| `QrPreview.Value` | client/src/components/qr-generator/qr-preview.tsx:18-32 | `getQrValue`: in WhatsApp mode the value starts with `https://wa.me/`. `QrPreview.UrlAndTextVerbatim` covers URL and text |
| `QrPreview.IsEmpty` | client/src/components/qr-generator/qr-preview.tsx:35 | `isEmpty`: the value trims to `""`. By `JsString.TrimEmptyIff` this holds exactly when the value is all whitespace |
| `QrPreview.Actions` | client/src/components/qr-generator/qr-preview.tsx:228-260 | Download and Copy are disabled exactly when the value is blank. Share is shown only where `'share' in navigator`, and is disabled on the same test. `QrPreview.ExportOfferedIffSymbol` relates this to the rendered symbol |
| `QrPreview.NormalizePhoneContents` | client/src/components/qr-generator/qr-preview.tsx:25 | the normalised phone holds only `0-9` and `+`, exactly as many as the input holds |
| `QrPreview.NormalizePhoneIsSubsequence` | client/src/components/qr-generator/qr-preview.tsx:25 | the normalised phone is obtained from the input by deleting characters, order kept |
| `QrPreview.NormalizePhoneUnique` | client/src/components/qr-generator/qr-preview.tsx:25 | any order-preserving subsequence made of digits and `+` that keeps all of them equals the normalised phone |
| `QrPreview.NormalizePhoneIdempotent` | client/src/components/qr-generator/qr-preview.tsx:25 | normalising twice is normalising once |
| `QrPreview.NormalizePhoneConcat` | client/src/components/qr-generator/qr-preview.tsx:25 | normalisation works piecewise over a concatenation |
| `QrPreview.FormattedPhoneExample` | client/src/components/qr-generator/qr-preview.tsx:25 | `"+1 (234) 567-8900"` normalises to `"+12345678900"` |
| `QrPreview.ValueIgnoresContentField` | client/src/components/qr-generator/qr-preview.tsx:18-35 | the preview's value and gate do not depend on the `content` field the page passes in |
| `QrPreview.UrlAndTextVerbatim` | client/src/components/qr-generator/qr-preview.tsx:19-23 | for URL and text the value is the field itself, untrimmed, and the gate closes if and only if the field is all whitespace |
| `QrPreview.WhatsAppNeverEmpty` | client/src/components/qr-generator/qr-preview.tsx:24-28 | in WhatsApp mode the gate never closes, even for an empty phone |
| `QrPreview.WhatsAppLinkRoundTrip` | client/src/components/qr-generator/qr-preview.tsx:24-28 | parsing the WhatsApp link gives back the normalised phone and the message exactly |
| `QrPreview.WhatsAppLinkInjective` | client/src/components/qr-generator/qr-preview.tsx:24-28 | two links are equal only if their normalised phones and their messages are |
| `QrPreview.WhatsAppQueryIffMessage` | client/src/components/qr-generator/qr-preview.tsx:26-28 | the link contains a `?` if and only if the message is non-empty |
| `QrPreview.WhatsAppExampleNoMessage` | client/src/components/qr-generator/qr-preview.tsx:25-28 | phone `"+1 (234) 567-8900"` with no message gives `"https://wa.me/+12345678900"` |
| `QrPreview.WhatsAppExampleWithMessage` | client/src/components/qr-generator/qr-preview.tsx:25-28 | phone `"234-567-8900"` with message `"Hi" + " " + "there!"` gives `"https://wa.me/2345678900?text=" + "Hi" + "%20" + "there!"` |
| `QrPreview.Render` | client/src/components/qr-generator/qr-preview.tsx:178-225 | the frame is `size + 32` square with 16px padding. A symbol is drawn if and only if the gate is open, with the resolved value, level `"H"` and the raw colours. The overlay is present if and only if both logo and decoded image are, and is then square at `logoSize`, excavated, from the logo. Otherwise the hint of the current kind is shown |
| `QrPreview.PhoneHintUnreachable` | client/src/components/qr-generator/qr-preview.tsx:219-223 | the "Enter a phone number" placeholder is never shown |
| `QrPreview.ExportOfferedIffSymbol` | client/src/components/qr-generator/qr-preview.tsx:228-260 | Download and Copy are enabled, and Share is shown and enabled, exactly when a symbol is on screen (Share also needs the capability) |
| `QrExport.SnapshotOptionsFor` | client/src/components/qr-generator/qr-preview.tsx:43-54 | `canvasWidth` and `canvasHeight` are twice the frame side, with `pixelRatio` 2 and quality 1, on the background colour. It keeps the frame's 16px padding and adds no margin. The padding ring is painted in `backgroundColor`, which can differ from the on-screen frame's theme background |
| `QrExport.HandleDownload` | client/src/components/qr-generator/qr-preview.tsx:38-73 | unmounted or empty: nothing happens. Otherwise one snapshot and exactly one toast, a success if and only if both the snapshot and the click succeed. The anchor is clicked only after a snapshot, named `qr-code-<clock>.png` |
| `QrExport.HandleCopy` | client/src/components/qr-generator/qr-preview.tsx:76-118 | unmounted or empty: nothing happens. Otherwise one snapshot and exactly one toast, a success if and only if both the snapshot and the clipboard write succeed. An AbortError is reported like any failure |
| `QrExport.HandleShare` | client/src/components/qr-generator/qr-preview.tsx:121-175 | unmounted or empty: nothing happens. Without share support: one "not supported" error, no snapshot and no sink call. Otherwise no toast if and only if an AbortError ended it, one success if and only if both steps succeed, and one error in every other case |
| `QrExport.ShareAttempt` | client/src/components/qr-generator/qr-preview.tsx:125-167 | once sharing exists: the snapshot is requested. There is no toast if and only if an AbortError ended the attempt, a success if and only if both steps resolved, and an error otherwise. The share sheet gets `"My QR Code"` and `qr-code.png` as `image/png` only after a snapshot |
| `QrExport.DownloadNameStamp` | client/src/components/qr-generator/qr-preview.tsx:57 | the clock value can be read back from the download file name |
| `QrExport.DownloadNamesDistinct` | client/src/components/qr-generator/qr-preview.tsx:57 | downloads at different clock values get different file names |
| `QrExport.GuardMatchesButtons` | client/src/components/qr-generator/qr-preview.tsx:39-260 | on a mounted frame each handler does nothing if and only if its button is disabled |
| `QrExport.ShareButtonNeverUnsupported` | client/src/components/qr-generator/qr-preview.tsx:168-174 | a click on the Share button, which is only rendered with share support, never yields the "not supported" toast |
| `QrExport.WhatsAppAlwaysExports` | client/src/components/qr-generator/qr-preview.tsx:35-39 | in WhatsApp mode download and copy always proceed on a mounted frame |
| `QrExport.SuccessOnlyAfterDelivery` | client/src/components/qr-generator/qr-preview.tsx:38-175 | a success toast appears only after the sink was called and resolved |
| `CustomizationOptions.HandleLogoChange` | client/src/components/qr-generator/customization-options.tsx:37-42 | the upload callback is called, once and with the first file, if and only if the file list is present and non-empty |
| `CustomizationOptions.CallbacksWithinRanges` | client/src/components/qr-generator/customization-options.tsx:57-169 | the size callback only receives 128..512, and the logo-size callback only 20..150 and only while a logo is present. Colour pickers and text boxes forward their string unchanged |
| `CustomizationOptions.Handle` | client/src/components/qr-generator/customization-options.tsx:57-169 | each panel action makes at most one callback. It makes none only for a file pick with no files. The upload callback is used exactly by the file picker and the Remove button |
| `CustomizationOptions.HandleRemoveLogo` | client/src/components/qr-generator/customization-options.tsx:44-49 | Remove reports "no logo" to the page (`onLogoUpload(null)`). `Home.RemoveLogoClearsOverlay` shows the overlay goes away |
| `CustomizationOptions.LogoCaption` | client/src/components/qr-generator/customization-options.tsx:150-153 | the caption `name (k KB)`. `CustomizationOptions.LogoCaptionShape` states its parts |
| `CustomizationOptions.LogoKilobytes` | client/src/components/qr-generator/customization-options.tsx:152 | the shown size is the whole number of kilobytes nearest the file size, with an exact half rounded up |
| `CustomizationOptions.LogoCaptionShape` | client/src/components/qr-generator/customization-options.tsx:150-153 | the caption is the file name, then ` (`, then digits that read back as the rounded kilobytes, then ` KB)` |
| `Home.Content` | client/src/pages/home.tsx:26-45 | the page's own resolver. `Home.ContentAgreesWithPreview` relates it to the preview's value |
| `Home.Bundle` | client/src/pages/home.tsx:67-80 | the data handed to the preview is the session's fields one for one, with the stored content as `content` |
| `Home.Apply` | client/src/pages/home.tsx:91-119 | each control event calls its state setter, and only that setter. Panel actions go through the panel's callbacks. `Home.StyleEventsKeepContent` and `Home.TypeSwitchRetainsFields` state what each leaves unchanged |
| `Home.Step` | client/src/pages/home.tsx:26-45 | an event followed by the re-render: the effect runs when one of its five dependencies changed. `Home.StepSettles` states the outcome |
| `Home.HandleLogoUpload` | client/src/pages/home.tsx:48-64 | the logo becomes the argument. Removing it also clears the decoded image. A new file leaves the image as it was. Nothing else changes |
| `Home.ContentAgreesWithPreview` | client/src/pages/home.tsx:26-45 | the page's content equals the preview's value if and only if the session is not WhatsApp with an empty phone. In that case the page has `""` and the preview the bare link |
| `Home.WhatsAppContent` | client/src/pages/home.tsx:33-41 | whatever the URL and text fields hold, an empty phone gives `""` and any other phone gives the preview's link. A non-empty phone with neither digits nor `+` and no message gives `"https://wa.me/"` |
| `Home.InitialState` | client/src/pages/home.tsx:12-23 | the initial session is settled and blank, so it shows the URL placeholder. Its size lies on the size slider, and its logo size of 15 does not lie on the logo-size slider |
| `Home.RunEffect` | client/src/pages/home.tsx:26-45 | after the effect the stored content matches the inputs |
| `Home.ContentDependsOnlyOnDeps` | client/src/pages/home.tsx:26-45 | sessions that agree on type, url, text, phone and message have the same content |
| `Home.StepSettles` | client/src/pages/home.tsx:26-45 | after any event and re-render, the stored content matches the inputs |
| `Home.StyleEventsKeepContent` | client/src/pages/home.tsx:108-119 | style and logo events change neither the content nor its inputs |
| `Home.TypeSwitchRetainsFields` | client/src/pages/home.tsx:91-94 | switching type sets the type to the new one and recomputes the content. Every other field, colours included, is unchanged. Switching back restores the earlier content |
| `Home.RemoveLogoClearsOverlay` | client/src/pages/home.tsx:61-63 | after Remove there is no logo, no decoded image and no overlay |
| `Home.ChooseLogoFiles` | client/src/pages/home.tsx:48-51 | picking files sets the logo to the first and keeps the decoded image. An empty pick changes nothing |
| `Home.TraceKeepsInvariant` | client/src/pages/home.tsx:12-23 | any sequence of producible events preserves the invariant: settled content, size within 128..512, logo size 15 or within 20..150 |
| `Home.ReachableSessions` | client/src/pages/home.tsx:12-23 | every reachable session holds the invariant, and its preview frame is 160 to 544 pixels wide |
| `Home.LogoSizeKeptUntilSlid` | client/src/pages/home.tsx:22 | the logo size stays as it was until the logo-size slider is moved |

## Left out

- QR encoding and painting by the canvas component: an opaque renderer. Only its input props are modelled.
- Rasterisation, the data-URL to Blob/File conversion, the clipboard write, the native share call and the anchor click. These are foreign browser and library calls, so each is an oracle that resolves or rejects with an error name. The Copy and Share sink oracles also stand for the conversion steps before them.
- `Date.now()`: the clock reading is a parameter. Its decimal rendering is modelled for any non-negative integer. Clock values stay far below 10^21, where Number-to-string would switch to exponent form.
- The CSS text of the snapshot's padding: the model keeps the pixel count (16), not the string `"16px"`.
- Toast rendering and `console.error`: toasts are a returned list, and the log lines are not modelled.
- FileReader/Image loading: it is asynchronous, so its completion is the `LogoDecoded` event. That event may arrive in any state, including after the logo was removed or replaced, which over-approximates the real onload timing.
- The object URL that each render creates for the logo and never revokes: it is resource plumbing, not behaviour.
- The file input's reset to `""` in the remove handler: DOM state only.
- The URIError of `encodeURIComponent` on a lone surrogate: strings here are sequences of Unicode scalar values, so it cannot occur.
- Colour validation: the code performs none. Colours are passed through as raw strings.
- The `default` branch of the preview's switch: unreachable, because the content kind is a closed datatype.
- The render between a setter and its effect: in that render the page's stored content is stale. `Home.Step` runs the effect in the same step. The preview never reads that field (`QrPreview.ValueIgnoresContentField`), so nothing observable is lost.
- The sliders' array argument: each slider has one thumb and is given `[value]`, so a slide is modelled as that one value. An empty array, which would pass `undefined` to the setter, cannot arise from a one-thumb slider.
- Concurrent exports and React batching: event handling is sequential here.
- Sizes are unbounded integers rather than JavaScript doubles. The sliders only produce small integers.
- The type definitions, input fields, type selector, header, footer and not-found page: presentational or declarations only.

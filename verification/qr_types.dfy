/** The shared types of the generator: the content kinds and the bundle handed to the preview. */
module QrTypes {
  import opened Wrappers

  /** "url" | "text" | "whatsapp". */
  datatype QrType = Url | Text | WhatsApp

  /** A logo file the user picked: the name and byte size the caption shows. */
  datatype LogoFile = LogoFile(name: string, sizeBytes: nat)

  /** A decoded logo image element; opaque to the model. */
  datatype LogoImage = LogoImage(id: nat)

  /**
   * Everything the preview receives. Sizes are pixels; colours are the raw
   * strings the colour controls produced.
   */
  datatype QrCodeData = QrCodeData(
    qrType: QrType,
    content: string,
    url: string,
    text: string,
    phone: string,
    message: string,
    size: int,
    foregroundColor: string,
    backgroundColor: string,
    logo: Option<LogoFile>,
    logoImg: Option<LogoImage>,
    logoSize: int)
}

/** Decoding the content of one ID3v2 frame: the encoding check, the three generic
    field parsers (text, link, language) and the dispatcher that picks a parser from
    the frame ID. */
module Content {
  import opened Results
  import opened Cursors
  import opened Encodings
  import opened Versions
  import opened Items

  /** Checks an encoding marker against the tag version, then resolves it.
      ID3v2.2 knows only ISO-8859-1 and UTF-16 (markers 0 and 1); that check comes
      first, so a marker such as 3 in a v2.2 tag gets the version-specific error. */
  function VerifyEncoding(marker: u8, version: Version): (r: Result<TextEncoding>)
    ensures version == V2 && marker > 1 ==> r == Err(V2InvalidTextEncoding)
    ensures version != V2 ==> (r.Ok? <==> FromU8(marker).Some?)
    ensures version != V2 && r.Err? ==> r.error == InvalidEncoding
    ensures r.Ok? <==> marker <= (if version == V2 then 1 else 3)
    ensures r.Ok? ==> ToU8(r.value) == marker
  {
    if version == V2 && (marker != 0 && marker != 1) then
      Err(V2InvalidTextEncoding)
    else
      match FromU8(marker)
      case None => Err(InvalidEncoding)
      case Some(e) => Ok(e)
  }

  /** The encodings a tag of the given version may declare. */
  predicate AllowedIn(e: TextEncoding, version: Version) {
    version == V2 ==> e.Latin1? || e.UTF16?
  }

  /** Writing an encoding's own marker and verifying it gives the encoding back exactly
      when the version allows it, and the version-specific error otherwise. */
  lemma VerifyEncodingRoundTrip(e: TextEncoding, version: Version)
    ensures VerifyEncoding(ToU8(e), version)
            == if AllowedIn(e, version) then Ok(e) else Err(V2InvalidTextEncoding)
  {
    MarkerRoundTrip(e);
  }

  /** A three-letter language code, passed through without validation. */
  type LanguageCode = s: seq<u8> | |s| == 3 witness [0, 0, 0]

  /** The body shared by comment and unsynchronised-lyrics frames. */
  datatype LanguageFrame = LanguageFrame(
    encoding: TextEncoding,
    language: LanguageCode,
    description: string,
    content: string)

  /** A decoded frame. */
  datatype FrameValue =
    | Comment(info: LanguageFrame)
    | UnSyncText(info: LanguageFrame)
    | Text(encoding: TextEncoding, text: string)
    | UserText(userText: ExtendedTextFrame)
    | URL(url: string)
    | UserURL(userUrl: ExtendedUrlFrame)
    | Picture(picture: AttachedPictureFrame)
    | Popularimeter(rating: PopularimeterFrame)
    | UniqueFileIdentifier(ufid: UniqueFileIdentifierFrame)
    | Binary(bytes: seq<u8>)

  /** What a frame parser returns: an error, no value, or a value, with the cursor after it. */
  type Parsed = Result<Step<Option<FrameValue>>>

  /** `parse_text`: an encoding marker, then one terminated text field. Payloads shorter
      than two bytes are skipped without consuming anything. */
  function ParseText(c: Cursor, version: Version, unicode: UnicodeDecoder): (r: Parsed)
    ensures Len(c) < 2 ==> r == Ok(Step(None, c))
    ensures Len(c) >= 2 && VerifyEncoding(c.data[c.pos], version).Err? ==>
              r == Err(VerifyEncoding(c.data[c.pos], version).error)
    ensures Len(c) >= 2 && c.data[c.pos] == 0 ==> r.Ok?
    ensures r.Ok? ==> Follows(c, r.value.rest)
    ensures r.Ok? && Len(c) >= 2 ==>
              && r.value.value.Some? && r.value.value.value.Text?
              && ToU8(r.value.value.value.encoding) == c.data[c.pos]
              && r.value.rest.pos > c.pos
    ensures Len(c) >= 2 && VerifyEncoding(c.data[c.pos], version).Ok? ==>
              var field := DecodeText(Advance(c, 1), VerifyEncoding(c.data[c.pos], version).value, true, unicode);
              && (r.Ok? <==> field.Ok?)
              && (r.Ok? ==> r.value.rest == field.value.rest
                            && r.value.value.value.text == field.value.value.GetOr(""))
              && (r.Err? ==> r.error == field.error)
  {
    if Len(c) < 2 then Ok(Step(None, c))
    else
      match ReadU8(c)
      case Err(e) => Err(e)
      case Ok(marker) =>
      var encoding :- VerifyEncoding(marker.value, version);
      var text :- DecodeText(marker.rest, encoding, true, unicode);
      Ok(Step(Some(Text(encoding, text.value.GetOr(""))), text.rest))
  }

  /** `parse_link`: the whole frame is one Latin-1 field with no encoding marker and no
      version check. Only an empty payload gives no value; nothing else can fail. */
  function ParseLink(c: Cursor): (r: Parsed)
    ensures r.Ok? && Follows(c, r.value.rest)
    ensures Len(c) == 0 ==> r.value == Step(None, c)
    ensures Len(c) > 0 ==> r.value.value.Some? && r.value.value.value.URL?
    ensures Len(c) > 0 ==> r.value.rest.pos > c.pos
    ensures Len(c) > 0 ==>
              var url := r.value.value.value.url;
              && |url| <= Len(c)
              && (forall i :: 0 <= i < |url| ==> url[i] as int == c.data[c.pos + i] && url[i] != 0 as char)
              && (|url| == Len(c) || c.data[c.pos + |url|] == 0)
              && r.value.rest.pos == c.pos + |url| + (if |url| < Len(c) then 1 else 0)
  {
    if Len(c) == 0 then Ok(Step(None, c))
    else
      var link := DecodeLatin1(c, true);
      Ok(Step(Some(URL(link.value.GetOr(""))), link.rest))
  }

  /** The variant a language frame's ID selects. */
  function LanguageValue(id: string, information: LanguageFrame): FrameValue
    requires id == "COMM" || id == "USLT"
  {
    if id == "COMM" then Comment(information) else UnSyncText(information)
  }

  /** `parse_text_language` (comment and unsynchronised-lyrics frames): an encoding
      marker, a three-byte language code, a terminated description, then the content to
      the end of the frame, both fields in the declared encoding. Payloads shorter than
      five bytes are skipped without consuming anything; from five bytes on, the marker
      and the language code are always there to read. Only the two language-frame IDs
      may reach it (any other ID is a panic in the library). */
  function ParseTextLanguage(c: Cursor, id: string, version: Version, unicode: UnicodeDecoder)
    : (r: Parsed)
    requires id == "COMM" || id == "USLT"
    ensures Len(c) < 5 ==> r == Ok(Step(None, c))
    ensures Len(c) >= 5 && VerifyEncoding(c.data[c.pos], version).Err? ==>
              r == Err(VerifyEncoding(c.data[c.pos], version).error)
    ensures Len(c) >= 5 && c.data[c.pos] == 0 ==> r.Ok?
    ensures r.Ok? ==> Follows(c, r.value.rest)
    ensures r.Ok? && Len(c) >= 5 ==>
              && r.value.value.Some?
              && (id == "COMM" ==> r.value.value.value.Comment?)
              && (id == "USLT" ==> r.value.value.value.UnSyncText?)
              && ToU8(r.value.value.value.info.encoding) == c.data[c.pos]
              && r.value.value.value.info.language == c.data[c.pos + 1..c.pos + 4]
              && Len(r.value.rest) == 0
    ensures Len(c) >= 5 && VerifyEncoding(c.data[c.pos], version).Ok? ==>
              var encoding := VerifyEncoding(c.data[c.pos], version).value;
              var description := DecodeText(Advance(c, 4), encoding, true, unicode);
              && (description.Err? ==> r == Err(description.error))
              && (description.Ok? ==>
                    var content := DecodeText(description.value.rest, encoding, false, unicode);
                    && (r.Ok? <==> content.Ok?)
                    && (r.Err? ==> r.error == content.error)
                    && (r.Ok? ==>
                          && r.value.value.value.info.description == description.value.value.GetOr("")
                          && r.value.value.value.info.content == content.value.value.GetOr("")))
  {
    if Len(c) < 5 then Ok(Step(None, c))
    else
      match ReadU8(c)
      case Err(e) => Err(e)
      case Ok(marker) =>
      var encoding :- VerifyEncoding(marker.value, version);
      match ReadExact(marker.rest, 3)
      case Err(e) => Err(e)
      case Ok(language) =>
      var description :- DecodeText(language.rest, encoding, true, unicode);
      var content :- DecodeText(description.rest, encoding, false, unicode);
      var information := LanguageFrame(
        encoding, language.value, description.value.GetOr(""), content.value.GetOr(""));
      Ok(Step(Some(LanguageValue(id, information)), content.rest))
  }

  /** The parser a frame ID selects. */
  datatype FrameKind =
    | PictureKind
    | UserTextKind
    | UserUrlKind
    | LanguageKind
    | UniqueFileIdKind
    | TextKind
    | LinkKind
    | PopularimeterKind
    | BinaryKind

  /** Apple's proprietary frames that hold text although their IDs do not start with 'T':
      WFED (podcast URL), GRP1 (grouping), MVNM (movement name), MVIN (movement number). */
  const AppleTextIds: set<string> := {"WFED", "GRP1", "MVNM", "MVIN"}

  predicate StartsWith(id: string, ch: char) {
    |id| > 0 && id[0] == ch
  }

  /** The ordered rule list of `parse_content`: the first rule that matches wins.
      The postconditions describe each outcome on its own, without the order: an
      exact ID always beats the prefix rule it also satisfies. */
  function Classify(id: string): (k: FrameKind)
    ensures k == PictureKind <==> id == "APIC"
    ensures k == UserTextKind <==> id == "TXXX"
    ensures k == UserUrlKind <==> id == "WXXX"
    ensures k == LanguageKind <==> id == "COMM" || id == "USLT"
    ensures k == UniqueFileIdKind <==> id == "UFID"
    ensures k == TextKind <==> (StartsWith(id, 'T') && id != "TXXX") || id in AppleTextIds
    ensures k == LinkKind <==> StartsWith(id, 'W') && id != "WXXX" && id != "WFED"
    ensures k == PopularimeterKind <==> id == "POPM"
    ensures k == BinaryKind <==>
              && !StartsWith(id, 'T') && !StartsWith(id, 'W')
              && id !in {"APIC", "COMM", "USLT", "UFID", "POPM"} && id !in AppleTextIds
  {
    if id == "APIC" then PictureKind
    else if id == "TXXX" then UserTextKind
    else if id == "WXXX" then UserUrlKind
    else if id == "COMM" || id == "USLT" then LanguageKind
    else if id == "UFID" then UniqueFileIdKind
    else if StartsWith(id, 'T') then TextKind
    else if id in AppleTextIds then TextKind
    else if StartsWith(id, 'W') then LinkKind
    else if id == "POPM" then PopularimeterKind
    else BinaryKind
  }

  /** The parser that produces each kind of value. */
  function KindOf(v: FrameValue): FrameKind {
    match v
    case Comment(_) => LanguageKind
    case UnSyncText(_) => LanguageKind
    case Text(_, _) => TextKind
    case UserText(_) => UserTextKind
    case URL(_) => LinkKind
    case UserURL(_) => UserUrlKind
    case Picture(_) => PictureKind
    case Popularimeter(_) => PopularimeterKind
    case UniqueFileIdentifier(_) => UniqueFileIdKind
    case Binary(_) => BinaryKind
  }

  /** `parse_content`: decodes one frame's payload according to its ID. The kind of the
      value is fixed by the ID alone; the cursor only moves forward; unrecognised IDs
      keep the remaining bytes verbatim without consuming them. */
  function ParseContent(c: Cursor, id: string, version: Version, x: Collaborators): (r: Parsed)
    requires ForwardOnly(x)
    ensures r.Ok? ==> Follows(c, r.value.rest)
    ensures r.Ok? && r.value.value.Some? ==> KindOf(r.value.value.value) == Classify(id)
    ensures r.Ok? && r.value.value.Some? && r.value.value.value.Comment? ==> id == "COMM"
    ensures r.Ok? && r.value.value.Some? && r.value.value.value.UnSyncText? ==> id == "USLT"
    ensures Classify(id) == BinaryKind ==> r == Ok(Step(Some(Binary(Remaining(c))), c))
    ensures Classify(id) == LinkKind ==> r.Ok? && (r.value.value.None? <==> Len(c) == 0)
    ensures Classify(id) in {PictureKind, PopularimeterKind} && r.Ok? ==> r.value.value.Some?
    ensures Classify(id) in {TextKind, LanguageKind} && Len(c) < 2 ==> r == Ok(Step(None, c))
  {
    match Classify(id)
    case LanguageKind => ParseTextLanguage(c, id, version, x.unicode)
    case TextKind => ParseText(c, version, x.unicode)
    case LinkKind => ParseLink(c)
    case BinaryKind => Ok(Step(Some(Binary(Remaining(c))), c))
    case _ => ParseItem(c, Classify(id), version, x)
  }

  /** The frames whose layout belongs to a compound-item parser: the parser's result,
      wrapped in the variant of its kind. */
  function ParseItem(c: Cursor, kind: FrameKind, version: Version, x: Collaborators): (r: Parsed)
    requires ForwardOnly(x)
    requires kind in {PictureKind, UserTextKind, UserUrlKind, UniqueFileIdKind, PopularimeterKind}
    ensures r.Ok? ==> Follows(c, r.value.rest)
    ensures r.Ok? && r.value.value.Some? ==> KindOf(r.value.value.value) == kind
    ensures kind in {PictureKind, PopularimeterKind} && r.Ok? ==> r.value.value.Some?
  {
    match kind
    case PictureKind =>
      var picture :- x.picture(c, version);
      Ok(Step(Some(Picture(picture.value)), picture.rest))
    case UserTextKind =>
      var text :- x.extendedText(c, version);
      Ok(Step(text.value.Map(t => UserText(t)), text.rest))
    case UserUrlKind =>
      var url :- x.extendedUrl(c, version);
      Ok(Step(url.value.Map(u => UserURL(u)), url.rest))
    case UniqueFileIdKind =>
      var ufid :- x.uniqueFileId(c);
      Ok(Step(ufid.value.Map(u => UniqueFileIdentifier(u)), ufid.rest))
    case PopularimeterKind =>
      var rating :- x.popularimeter(c);
      Ok(Step(Some(Popularimeter(rating.value)), rating.rest))
  }
}

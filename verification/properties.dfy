/** Properties that relate the frame parsers to the bytes a writer would produce, and
    the dispatch priorities of `parse_content`. */
module ContentProperties {
  import opened Results
  import opened Cursors
  import opened Encodings
  import opened Versions
  import opened Items
  import opened Content

  /** A text frame written as marker 0, the Latin-1 bytes of `s` and a terminator decodes
      to exactly `s` in every version, and leaves the cursor just past the terminator. */
  lemma {:induction false} TextFrameRoundTrip(
    s: string, tail: seq<u8>, version: Version, unicode: UnicodeDecoder)
    requires Latin1Field(s)
    ensures var data := [0] + EncodeLatin1(s) + [0] + tail;
            ParseText(Start(data), version, unicode)
            == Ok(Step(Some(Text(Latin1, s)), ByteCursor(data, |s| + 2)))
  {
    var data := [0] + EncodeLatin1(s) + [0] + tail;
    var c := Start(data);
    var after: Cursor := ByteCursor(data, 1);
    assert ReadU8(c) == Ok(Step(0, after));
    assert VerifyEncoding(0, version) == Ok(Latin1);
    Latin1TerminatedRoundTrip([0], s, tail);
    var field := Step(if s == [] then None else Some(s), ByteCursor(data, |s| + 2));
    assert DecodeText(after, Latin1, true, unicode) == Ok(field);
    assert field.value.GetOr("") == s;
  }

  /** For every encoding the version allows: a text frame written as the encoding's marker,
      a field's code units and one zero unit decodes to `Text` carrying that encoding and
      what the code units convert to ("" for none), with the cursor just past the zero
      unit; when the conversion fails, the frame fails with the same error. */
  lemma {:induction false} TextFrameAnyEncoding(
    e: TextEncoding, raw: seq<u8>, tail: seq<u8>, version: Version, unicode: UnicodeDecoder)
    requires AllowedIn(e, version) && TerminableField(raw, e)
    ensures var data := [ToU8(e)] + raw + NullUnit(e) + tail;
            var r := ParseText(Start(data), version, unicode);
            && (r.Ok? <==> raw == [] || Convert(e, raw, unicode).Ok?)
            && (r.Ok? ==> r.value == Step(Some(Text(e, FieldText(e, raw, unicode))),
                                        ByteCursor(data, 1 + |raw| + UnitWidth(e))))
            && (r.Err? ==> r.error == Convert(e, raw, unicode).error)
  {
    var data := [ToU8(e)] + raw + NullUnit(e) + tail;
    var c := Start(data);
    VerifyEncodingRoundTrip(e, version);
    assert c.data[c.pos] == ToU8(e);
    assert Advance(c, 1) == ByteCursor(data, 1);
    TerminatedRoundTrip([ToU8(e)], raw, e, tail, unicode);
    var field := DecodeText(ByteCursor(data, 1), e, true, unicode);
    assert field.Ok? ==> field.value.value.GetOr("") == FieldText(e, raw, unicode);
  }

  /** A link frame holding the Latin-1 bytes of `s` and a terminator decodes to the URL
      `s`; without a terminator the whole payload is the URL. */
  lemma {:induction false} LinkFrameRoundTrip(s: string, tail: seq<u8>)
    requires Latin1Field(s)
    ensures var data := EncodeLatin1(s) + [0] + tail;
            ParseLink(Start(data)) == Ok(Step(Some(URL(s)), ByteCursor(data, |s| + 1)))
    ensures s != [] ==>
              ParseLink(Start(EncodeLatin1(s)))
              == Ok(Step(Some(URL(s)), ByteCursor(EncodeLatin1(s), |s|)))
  {
    Latin1TerminatedRoundTrip([], s, tail);
    assert [] + EncodeLatin1(s) + [0] + tail == EncodeLatin1(s) + [0] + tail;
    Latin1UnterminatedRoundTrip([], s);
    assert [] + EncodeLatin1(s) == EncodeLatin1(s);
  }

  /** A comment or lyrics frame written with marker 0, a language code, a terminated
      description and the content decodes back to the same four fields, in every version,
      and consumes the whole payload. */
  lemma {:induction false} LanguageFrameRoundTrip(
    id: string, language: LanguageCode, description: string, content: string,
    version: Version, unicode: UnicodeDecoder)
    requires id == "COMM" || id == "USLT"
    requires Latin1Field(description) && Latin1Text(content)
    requires content == [] || content[|content| - 1] != 0 as char
    ensures var data := [0] + language + EncodeLatin1(description) + [0] + EncodeLatin1(content);
            var info := LanguageFrame(Latin1, language, description, content);
            ParseTextLanguage(Start(data), id, version, unicode)
            == Ok(Step(Some(LanguageValue(id, info)), ByteCursor(data, |data|)))
  {
    var rawDescription := EncodeLatin1(description);
    var rawContent := EncodeLatin1(content);
    forall j: nat | j < |rawDescription| ensures !NullUnitAt(rawDescription, j, Latin1) {
      assert rawDescription[j] == description[j] as int;
    }
    assert NoTrailingNull(rawContent, Latin1) by {
      if rawContent != [] {
        assert rawContent[|rawContent| - 1] == content[|content| - 1] as int;
      }
    }
    Latin1Inverse(description, []);
    Latin1Inverse(content, []);
    assert FieldText(Latin1, rawDescription, unicode) == description;
    assert FieldText(Latin1, rawContent, unicode) == content;
    assert [ToU8(Latin1)] + language + rawDescription + NullUnit(Latin1) + rawContent
        == [0] + language + rawDescription + [0] + rawContent;
    LanguageFrameAnyEncoding(id, Latin1, language, rawDescription, rawContent, version, unicode);
  }

  /** For every encoding the version allows: a comment or lyrics frame written as the
      marker, a language code, a terminated description and the content decodes back to
      the same encoding and language and to what the description's and the content's code
      units convert to ("" for none), both in that one encoding, and consumes the whole
      payload. A conversion failure of either field is the frame's failure. */
  lemma {:induction false} LanguageFrameAnyEncoding(
    id: string, e: TextEncoding, language: LanguageCode, description: seq<u8>, content: seq<u8>,
    version: Version, unicode: UnicodeDecoder)
    requires id == "COMM" || id == "USLT"
    requires AllowedIn(e, version) && TerminableField(description, e) && NoTrailingNull(content, e)
    ensures var data := [ToU8(e)] + language + description + NullUnit(e) + content;
            var r := ParseTextLanguage(Start(data), id, version, unicode);
            var describable := description == [] || Convert(e, description, unicode).Ok?;
            var readable := content == [] || Convert(e, content, unicode).Ok?;
            && (r.Ok? <==> describable && readable)
            && (r.Ok? ==>
                  var info := LanguageFrame(e, language, FieldText(e, description, unicode),
                                            FieldText(e, content, unicode));
                  r.value == Step(Some(LanguageValue(id, info)), ByteCursor(data, |data|)))
            && (r.Err? && !describable ==> r.error == Convert(e, description, unicode).error)
            && (r.Err? && describable ==> r.error == Convert(e, content, unicode).error)
  {
    var data := [ToU8(e)] + language + description + NullUnit(e) + content;
    var c := Start(data);
    LanguageLayout(e, language, description, content, version, unicode);
    LanguageOutcome(c, id, version, unicode);
  }

  /** From five bytes on, with an accepted marker, a language frame is exactly its two
      field reads in the declared encoding: the first failure among them, or the language
      code with both fields ("" when absent), the cursor left where the content ends. */
  lemma LanguageOutcome(c: Cursor, id: string, version: Version, unicode: UnicodeDecoder)
    requires id == "COMM" || id == "USLT"
    requires Len(c) >= 5 && VerifyEncoding(c.data[c.pos], version).Ok?
    ensures var e := VerifyEncoding(c.data[c.pos], version).value;
            var d := DecodeText(Advance(c, 4), e, true, unicode);
            ParseTextLanguage(c, id, version, unicode)
            == if d.Err? then Err(d.error)
               else
                 var t := DecodeText(d.value.rest, e, false, unicode);
                 if t.Err? then Err(t.error)
                 else Ok(Step(Some(LanguageValue(id, LanguageFrame(e, c.data[c.pos + 1..c.pos + 4],
                                                    d.value.value.GetOr(""), t.value.value.GetOr("")))),
                              t.value.rest))
  {
  }

  /** Where the fields of a written language frame lie, and how each one reads back. */
  lemma {:induction false} LanguageLayout(
    e: TextEncoding, language: LanguageCode, description: seq<u8>, content: seq<u8>,
    version: Version, unicode: UnicodeDecoder)
    requires AllowedIn(e, version) && TerminableField(description, e)
    ensures var data := [ToU8(e)] + language + description + NullUnit(e) + content;
            var c := Start(data);
            var afterDescription: Cursor := ByteCursor(data, 4 + |description| + UnitWidth(e));
            var d := DecodeText(Advance(c, 4), e, true, unicode);
            var t := DecodeText(afterDescription, e, false, unicode);
            && Len(c) >= 5
            && VerifyEncoding(c.data[c.pos], version) == Ok(e)
            && c.data[c.pos + 1..c.pos + 4] == language
            && (d.Ok? <==> description == [] || Convert(e, description, unicode).Ok?)
            && (d.Ok? ==> d.value == Step(if description == [] then None
                                          else Some(Convert(e, description, unicode).value),
                                          afterDescription))
            && (d.Err? ==> d.error == Convert(e, description, unicode).error)
            && (t.Ok? <==> content == [] || Convert(e, content, unicode).Ok?)
            && (t.Ok? ==> t.value == Step(if content == [] then None
                                          else Some(Convert(e, content, unicode).value),
                                          ByteCursor(data, |data|)))
            && (t.Err? ==> t.error == Convert(e, content, unicode).error)
  {
    var head := [ToU8(e)] + language;
    var data := [ToU8(e)] + language + description + NullUnit(e) + content;
    var c := Start(data);
    VerifyEncodingRoundTrip(e, version);
    assert data[1..4] == language;
    assert data == head + description + NullUnit(e) + content;
    assert Advance(c, 4) == ByteCursor(data, |head|);
    TerminatedRoundTrip(head, description, e, content, unicode);
    var prefix := head + description + NullUnit(e);
    assert data == prefix + content;
    ToEndRoundTrip(prefix, content, e, unicode);
  }

  /** Exact IDs beat the prefix rules they also satisfy: TXXX and WXXX go to their
      compound parsers, and the Apple IDs (WFED among them, although it starts with 'W')
      to the text parser; every other T-frame is text and every other W-frame is a link. */
  lemma DispatchPriority(c: Cursor, id: string, version: Version, x: Collaborators)
    requires ForwardOnly(x)
    ensures var r := ParseContent(c, "TXXX", version, x);
            r.Ok? && r.value.value.Some? ==> r.value.value.value.UserText?
    ensures var r := ParseContent(c, "WXXX", version, x);
            r.Ok? && r.value.value.Some? ==> r.value.value.value.UserURL?
    ensures forall apple | apple in AppleTextIds ::
              ParseContent(c, apple, version, x) == ParseText(c, version, x.unicode)
    ensures StartsWith(id, 'T') && id != "TXXX" ==>
              ParseContent(c, id, version, x) == ParseText(c, version, x.unicode)
    ensures StartsWith(id, 'W') && id != "WXXX" && id != "WFED" ==>
              ParseContent(c, id, version, x) == ParseLink(c)
    ensures id == "COMM" || id == "USLT" ==>
              ParseContent(c, id, version, x) == ParseTextLanguage(c, id, version, x.unicode)
  {
  }

  /** The compound frames are handed to their own parsers: such a parser's error is the
      frame's error, its item (if any) is wrapped in the matching variant, and the frame
      ends where that parser ends. */
  lemma CompoundFramesDelegate(c: Cursor, version: Version, x: Collaborators)
    requires ForwardOnly(x)
    ensures var p := x.picture(c, version);
            ParseContent(c, "APIC", version, x)
            == if p.Err? then Err(p.error) else Ok(Step(Some(Picture(p.value.value)), p.value.rest))
    ensures var p := x.extendedText(c, version);
            ParseContent(c, "TXXX", version, x)
            == if p.Err? then Err(p.error)
               else Ok(Step(p.value.value.Map(t => UserText(t)), p.value.rest))
    ensures var p := x.extendedUrl(c, version);
            ParseContent(c, "WXXX", version, x)
            == if p.Err? then Err(p.error)
               else Ok(Step(p.value.value.Map(u => UserURL(u)), p.value.rest))
    ensures var p := x.uniqueFileId(c);
            ParseContent(c, "UFID", version, x)
            == if p.Err? then Err(p.error)
               else Ok(Step(p.value.value.Map(u => UniqueFileIdentifier(u)), p.value.rest))
    ensures var p := x.popularimeter(c);
            ParseContent(c, "POPM", version, x)
            == if p.Err? then Err(p.error) else Ok(Step(Some(Popularimeter(p.value.value)), p.value.rest))
  {
  }

  /** In an ID3v2.2 tag the version check runs before the encoding lookup: marker 2 or 3
      is refused with the version-specific error although the lookup knows it, and markers
      above 3 get that error too, whereas later versions call them invalid encodings. */
  lemma VersionCheckComesFirst(c: Cursor, unicode: UnicodeDecoder)
    requires Len(c) >= 2 && c.data[c.pos] > 1
    ensures ParseText(c, V2, unicode) == Err(V2InvalidTextEncoding)
    ensures c.data[c.pos] > 3 ==> ParseText(c, V3, unicode) == Err(InvalidEncoding)
    ensures c.data[c.pos] > 3 ==> ParseText(c, V4, unicode) == Err(InvalidEncoding)
  {
  }

  /** A comment frame with ISO-8859-1 text, language "eng", an empty description and the
      content "hi". */
  lemma CommentExample(version: Version, x: Collaborators)
    requires ForwardOnly(x)
    ensures var data := [0, 0x65, 0x6E, 0x67, 0, 0x68, 0x69];
            ParseContent(Start(data), "COMM", version, x)
            == Ok(Step(Some(Comment(LanguageFrame(Latin1, [0x65, 0x6E, 0x67], "", "hi"))),
                       ByteCursor(data, 7)))
  {
    var data: seq<u8> := [0, 0x65, 0x6E, 0x67, 0, 0x68, 0x69];
    assert data == [0] + [0x65, 0x6E, 0x67] + EncodeLatin1("") + [0] + EncodeLatin1("hi");
    LanguageFrameRoundTrip("COMM", [0x65, 0x6E, 0x67], "", "hi", version, x.unicode);
  }

  /** The same comment with a zero byte after "hi": in this model, which does not trim
      trailing NULs from a to-end field, the content is "hi" followed by a NUL character. */
  lemma CommentExampleTrailingZero(version: Version, x: Collaborators)
    requires ForwardOnly(x)
    ensures var data := [0, 0x65, 0x6E, 0x67, 0, 0x68, 0x69, 0];
            ParseContent(Start(data), "COMM", version, x)
            == Ok(Step(Some(Comment(LanguageFrame(Latin1, [0x65, 0x6E, 0x67], "", "hi\0"))),
                       ByteCursor(data, 8)))
  {
    TrailingZeroComment([0, 0x65, 0x6E, 0x67, 0, 0x68, 0x69, 0], version, x);
  }

  /** The trailing-zero comment, for a payload that is only known to equal those bytes. */
  lemma TrailingZeroComment(data: seq<u8>, version: Version, x: Collaborators)
    requires ForwardOnly(x) && data == [0, 0x65, 0x6E, 0x67, 0, 0x68, 0x69, 0]
    ensures ParseContent(Start(data), "COMM", version, x)
            == Ok(Step(Some(Comment(LanguageFrame(Latin1, [0x65, 0x6E, 0x67], "", "hi\0"))),
                       ByteCursor(data, 8)))
  {
    var c := Start(data);
    var content := data[5..];
    assert content == [0x68, 0x69, 0];
    assert Latin1Chars(content) == "hi\0" by {
      var chars := Latin1Chars(content);
      assert chars[0] == 'h' && chars[1] == 'i' && chars[2] == 0 as char;
    }
    var afterLanguage: Cursor := ByteCursor(data, 4);
    var afterDescription: Cursor := ByteCursor(data, 5);
    assert DecodeText(afterLanguage, Latin1, true, x.unicode) == Ok(Step(None, afterDescription)) by {
      assert NullUnitAt(Remaining(afterLanguage), 0, Latin1);
    }
    assert DecodeText(afterDescription, Latin1, false, x.unicode)
        == Ok(Step(Some("hi\0"), ByteCursor(data, 8))) by {
      assert Remaining(afterDescription) == content;
    }
    assert VerifyEncoding(c.data[c.pos], version) == Ok(Latin1);
    assert Advance(c, 4) == afterLanguage;
    assert c.data[c.pos + 1..c.pos + 4] == [0x65, 0x6E, 0x67];
    LanguageOutcome(c, "COMM", version, x.unicode);
    assert Classify("COMM") == LanguageKind;
  }

  /** An unknown W-frame holding "http" with no terminator is the URL "http", read to the end. */
  lemma LinkExample(version: Version, x: Collaborators)
    requires ForwardOnly(x)
    ensures var data := [0x68, 0x74, 0x74, 0x70];
            ParseContent(Start(data), "WXYZ", version, x)
            == Ok(Step(Some(URL("http")), ByteCursor(data, 4)))
  {
    assert EncodeLatin1("http") == [0x68, 0x74, 0x74, 0x70];
    LinkFrameRoundTrip("http", []);
  }

  /** The text-frame length guard is `len < 2`: one byte is skipped, but a marker with a
      single byte after it is already decoded. */
  lemma TextGuardBoundary(b: u8, version: Version, unicode: UnicodeDecoder)
    ensures ParseText(Start([b]), version, unicode) == Ok(Step(None, Start([b])))
    ensures ParseText(Start([0, b]), version, unicode).Ok?
    ensures ParseText(Start([0, b]), version, unicode).value.value.Some?
  {
  }
}

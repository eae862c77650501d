# ID3v2 frame-content decoding

A Dafny model of the frame-content decoder of an audio-metadata library: given one
ID3v2 frame's payload, its four-character frame ID and the tag version (ID3v2.2, 2.3
or 2.4), `parse_content` chooses a parser from the ID and returns an error, no value,
or one decoded frame value.

- `results.dfy` (`Results`): `Option`, the error kinds, and `Result`, whose `:-` plays
  the part of Rust's `?`. A frame parser returns `Result<Step<Option<FrameValue>>>`.
  That gives three states: an error, `Ok` with no value, or `Ok` with a value.
- `cursors.dfy` (`Cursors`): the byte cursor, an immutable payload plus a position.
  Its subset type keeps the position inside the payload. `read_u8` and `read_exact`
  return the bytes they read and the advanced cursor, or `ShortRead`.
- `encodings.dfy` (`Encodings`): the marker lookup `from_u8` and the text-field reader
  `decode_text`. Marker values follow section 4 of the ID3v2.4.0 structure document:
  0 is ISO-8859-1, 1 is UTF-16 with a byte-order mark, 2 is UTF-16BE and 3 is UTF-8.
  A terminator is a whole zero code unit on a code-unit boundary: one byte for
  ISO-8859-1 and UTF-8, two bytes for UTF-16. ISO-8859-1 (Latin-1) bytes are turned
  into characters concretely. UTF-16 and UTF-8 conversion is a function parameter.
- `versions.dfy` (`Versions`): the tag version.
- `items.dfy` (`Items`): the compound-item parsers
  the dispatcher delegates to (picture, user text, user URL, unique file identifier,
  popularimeter). These are function-typed parameters with abstract result types.
  The only assumption about them (`ForwardOnly`) is that they move the cursor forward
  within the payload, as any reader of a byte slice does.
- `content.dfy` (`Content`): `verify_encoding`, the text, link and language parsers,
  the ordered ID classification and `parse_content`.
- `properties.dfy` (`ContentProperties`): round trips from written bytes to decoded
  frames, dispatch priorities, and worked examples.

## Model

| member | source | states |
|---|---|---|
| `Content.VerifyEncoding` | src/id3/v2/frame/content.rs:99-111 | In ID3v2.2, any marker other than 0 or 1 gives `V2InvalidTextEncoding`. In other versions the result is `Ok` exactly when the lookup knows the marker, and `InvalidEncoding` otherwise. An accepted encoding is the one the marker names. |
| `Content.VerifyEncodingRoundTrip` | src/id3/v2/frame/content.rs:103-110 | Verifying an encoding's own marker returns that encoding exactly when the version allows it. Otherwise it returns the version-specific error. |
| `Encodings.FromU8` | src/id3/v2/frame/content.rs:107-110 | The lookup is defined on markers 0 to 3 and on nothing else. It is inverse to writing the marker. |
| `Cursors.ReadU8` | src/id3/v2/frame/content.rs:51 | Reading the marker succeeds exactly when at least one byte remains. It returns the first remaining byte and consumes only that byte. Otherwise it is a short read. |
| `Cursors.ReadExact` | src/id3/v2/frame/content.rs:53-54 | Reading `n` bytes succeeds exactly when at least `n` bytes remain (three at the language-code read). The bytes read plus the bytes left equal the bytes before the read. |
| `Encodings.FindTerminator` | src/id3/v2/frame/content.rs:56 | Finds the first aligned zero code unit at or after the start offset. No aligned terminator comes before it. When nothing is found, no aligned terminator exists. |
| `Encodings.TextRun` | src/id3/v2/frame/content.rs:56-57 | A field is a prefix of the remaining bytes. In terminated mode it ends right before the first terminator on a code-unit boundary, and consumes it; with no such terminator it is everything. In to-end mode it is everything. |
| `Encodings.DecodeText` | src/id3/v2/frame/content.rs:56-57 | Reading a field only moves the cursor forward. A to-end read leaves nothing. A terminated read that stops early has just consumed an aligned terminator, and no aligned terminator comes before it. The value is the field's bytes converted in the given encoding, and a conversion failure is the read's failure. The field is absent exactly when it has no bytes. Latin-1 decoding never fails. |
| `Encodings.TerminatedRoundTrip` | src/id3/v2/frame/content.rs:56 | For every encoding: a field's code units, none of them zero, followed by one zero unit decode to what those units convert to. The cursor stops right after the zero unit. |
| `Encodings.ToEndRoundTrip` | src/id3/v2/frame/content.rs:57 | For every encoding: a field that fills the rest of the payload decodes to what its bytes convert to. The cursor ends at the end. A field that ends in a zero unit keeps it, which is this model's no-trim choice. |
| `Encodings.DecodeLatin1` | src/id3/v2/frame/content.rs:94 | A Latin-1 field agrees with `DecodeText` for every UTF-16/UTF-8 converter. Its characters are the payload bytes one for one. A terminated field holds no NUL, stops at the first zero byte or the end, and consumes that zero. |
| `Encodings.Latin1TerminatedRoundTrip` | src/id3/v2/frame/content.rs:94 | The Latin-1 bytes of a NUL-free string followed by a zero byte decode to that string. The cursor then stops right after the zero. |
| `Encodings.Latin1UnterminatedRoundTrip` | src/id3/v2/frame/content.rs:94 | A terminated read with no terminator in the payload decodes the whole rest and consumes it. |
| `Encodings.Latin1ToEndRoundTrip` | src/id3/v2/frame/content.rs:57 | A to-end read of the bytes of a Latin-1 string that does not end in NUL returns that string. |
| `Content.ParseText` | src/id3/v2/frame/content.rs:75-87 | Fewer than 2 bytes gives no value and consumes nothing. Otherwise the version check's error propagates unchanged, and marker 0 always succeeds. Success gives `Text` with the encoding that the first byte names. For every encoding, the text is the terminated field read in that encoding, or "" when the field is absent, and that read's failure is the frame's failure. |
| `Content.ParseLink` | src/id3/v2/frame/content.rs:89-97 | It never fails. An empty payload gives no value. Any other payload gives a `URL`: the Latin-1 characters of the bytes up to the first zero or the end. The cursor stops right after that zero, or at the end. |
| `Content.ParseTextLanguage` | src/id3/v2/frame/content.rs:42-73 | Fewer than 5 bytes gives no value and consumes nothing. Otherwise encoding errors propagate and marker 0 always succeeds. `COMM` gives `Comment` and `USLT` gives `UnSyncText`. The language is payload bytes 1 to 3, verbatim. From five bytes on, only the two field reads can fail. For every encoding, the description is a terminated read and the content a to-end read, both in the declared encoding, each "" when absent. The content reads to the end. |
| `Content.Classify` | src/id3/v2/frame/content.rs:21-38 | Describes each outcome of the ordered rules without relying on order. Exact IDs win over prefixes: `TXXX` is not text, and `WXXX` and `WFED` are not links. The Apple IDs are text. Everything else goes to the binary fallback. |
| `Content.ParseContent` | src/id3/v2/frame/content.rs:16-40 | The ID alone decides the value's variant. The cursor only moves forward. The binary fallback copies the remaining bytes without consuming them. Links never fail, and picture and popularimeter frames are never absent. Every call to the language parser meets its `COMM`/`USLT` precondition, so the `unreachable!` arm is never reached. |
| `Content.ParseItem` | src/id3/v2/frame/content.rs:23-36 | The five compound-item arms (picture, user text, user URL, unique file identifier, popularimeter). The cursor only moves forward. Any value is the variant of the arm's kind. Picture and popularimeter never give an absent value. |
| `ContentProperties.TextFrameRoundTrip` | src/id3/v2/frame/content.rs:75-87 | Marker 0, a string's Latin-1 bytes and a terminator decode to `Text(Latin1, s)` in every version, with the cursor right after the terminator. |
| `ContentProperties.TextFrameAnyEncoding` | src/id3/v2/frame/content.rs:75-87 | For every encoding the version allows: a marker, a field's code units and a zero unit decode to `Text` with that encoding. The text is what the code units convert to, or "" when there are none. The cursor ends after the zero unit. A conversion failure is the frame's failure. |
| `ContentProperties.LinkFrameRoundTrip` | src/id3/v2/frame/content.rs:89-97 | A string's Latin-1 bytes decode to `URL(s)`, whether a terminator follows or the string fills the payload. |
| `ContentProperties.LanguageFrameRoundTrip` | src/id3/v2/frame/content.rs:47-72 | Marker 0, a language code, a terminated description and content that does not end in NUL decode back to those four fields. The whole payload is consumed. |
| `ContentProperties.LanguageFrameAnyEncoding` | src/id3/v2/frame/content.rs:47-72 | For every encoding the version allows, with a description free of aligned zero units and content that does not end in a zero unit: the description and the content decode in that one encoding, each to "" when empty. Together with the language code, they come back as `Comment` for `COMM` and `UnSyncText` for `USLT`. The whole payload is consumed. Either field's conversion failure is the frame's failure. |
| `ContentProperties.DispatchPriority` | src/id3/v2/frame/content.rs:27-35 | `TXXX` yields user text and `WXXX` yields a user URL. Every other T-frame goes to the text parser. So do the Apple IDs `WFED`, `GRP1`, `MVNM` and `MVIN`, although `WFED` starts with 'W'. Every other W-frame goes to the link parser. `COMM` and `USLT` go to the language parser. |
| `ContentProperties.CompoundFramesDelegate` | src/id3/v2/frame/content.rs:23-36 | A compound parser's error is the frame's error, unchanged. Its item, if any, is wrapped in the matching variant. The frame ends where that parser ends. |
| `ContentProperties.VersionCheckComesFirst` | src/id3/v2/frame/content.rs:103-108 | In ID3v2.2, a text frame with marker 2 or higher gives the version-specific error. In v2.3 and v2.4, markers above 3 give `InvalidEncoding`. |
| `ContentProperties.CommentExample` | src/id3/v2/frame/content.rs:29 | The `COMM` payload `00 'e' 'n' 'g' 00 'h' 'i'` is a Latin-1 comment: language "eng", empty description, content "hi". |
| `ContentProperties.CommentExampleTrailingZero` | src/id3/v2/frame/content.rs:57 | The same payload with a final `00` gives content "hi" followed by a NUL character in this model, which does not trim trailing NULs from a to-end field. |
| `ContentProperties.LinkExample` | src/id3/v2/frame/content.rs:35 | An unknown W-frame holding "http" with no terminator is the URL "http", read to the end. |
| `ContentProperties.TextGuardBoundary` | src/id3/v2/frame/content.rs:76-78 | A one-byte text payload gives no value. A marker plus one byte already passes the length guard. |

## Notes on the code's behaviour

- The binary fallback takes a copy of the remaining bytes (`to_vec`) and does not
  advance the cursor. The model does the same, even though the fallback could be read
  as consuming the frame.
- The text-frame guard is `len < 2`, so the payload `01 00` passes it and is not skipped
  as too short. What becomes of the single byte left after the marker is up to
  `decode_text`. In this model it is a field with no terminator and goes to the UTF-16
  converter. A reader that takes UTF-16 in pairs might instead drop it and give "".
- The comment payload `00 'e' 'n' 'g' 00 'h' 'i' 00` gives content "hi" followed by a
  NUL in this model, since a to-end field keeps every byte. Whether `decode_text` trims
  trailing terminators is not modelled. `Encodings.Latin1ToEndRoundTrip` and the
  language-frame round trips therefore require content that does not end in a zero unit,
  so they hold either way. `Encodings.ToEndRoundTrip` has no such requirement and rests
  on the no-trim choice.

## Left out

- `decode_text` and `TextEncoding::from_u8` are not part of this model. Their internals
  are replaced by the contract in `Encodings`. The field is absent exactly when it has
  no bytes before its terminator. A UTF-16 field with no aligned terminator takes all
  the remaining bytes, including a trailing odd byte. Any trimming of trailing NULs in
  to-end mode is not modelled.
- UTF-16 and UTF-8 conversion are library-dependent: byte-order-mark handling,
  odd-length checks and replacement characters. They are the `unicode` parameter, so
  every property about them holds for any converter.
- `AttachedPictureFrame::parse`, `ExtendedTextFrame::parse`, `ExtendedUrlFrame::parse`,
  `UniqueFileIdentifierFrame::parse` and `Popularimeter::parse` are not part of this
  model. Their item layouts are defined elsewhere. They are parameters with abstract
  results, and `Content.ParseContent` requires only that they move the cursor forward.
- `ID3v2Error`, the `err!` macro and error messages are reduced to the `Error`
  datatype's kinds. An unknown encoding marker is `TextDecode("Found invalid encoding")`
  in the source (src/id3/v2/frame/content.rs:108), the same kind as a failed text conversion. The model
  gives it a kind of its own, `InvalidEncoding`.
- The `unreachable!()` panic in `parse_text_language` becomes that function's
  precondition (`COMM` or `USLT`). Its one caller meets it.
- Encodings.ToEndRoundTrip: for a field that ends in a zero unit, the kept NUL follows
  only from this model's choice not to trim trailing NULs in to-end mode. A
  `decode_text` that trims them would drop it.
- ContentProperties.CommentExampleTrailingZero: the content "hi\0" follows only from
  this model's choice not to trim trailing NULs in to-end mode. A `decode_text` that
  trims them gives "hi" for the same payload.
- `tests/mp4_read_write.rs` does whole-file reading and writing of MP4 tags. It holds
  no frame-decoding logic.

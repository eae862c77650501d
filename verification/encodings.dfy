/** Text encodings and the text-run decoder that the frame parsers call
    (`TextEncoding::from_u8` and `decode_text` in the library's text utilities).
    The marker values follow section 4 of the ID3v2.4.0 structure document:
    0 ISO-8859-1, 1 UTF-16 with byte-order mark, 2 UTF-16BE, 3 UTF-8.
    Only ISO-8859-1 (Latin-1) is converted to characters here; converting UTF-16
    and UTF-8 runs is delegated to a `UnicodeDecoder` supplied by the caller. */
module Encodings {
  import opened Results
  import opened Cursors

  datatype TextEncoding = Latin1 | UTF16 | UTF16BE | UTF8

  /** The marker byte that names `e`. */
  function ToU8(e: TextEncoding): (b: u8)
    ensures b <= 3
  {
    match e
    case Latin1 => 0
    case UTF16 => 1
    case UTF16BE => 2
    case UTF8 => 3
  }

  /** The encoding named by a marker byte, if any (a fixed partial lookup). */
  function FromU8(b: u8): (r: Option<TextEncoding>)
    ensures r.Some? <==> b <= 3
    ensures r.Some? ==> ToU8(r.value) == b
  {
    if b == 0 then Some(Latin1)
    else if b == 1 then Some(UTF16)
    else if b == 2 then Some(UTF16BE)
    else if b == 3 then Some(UTF8)
    else None
  }

  /** Every encoding is recovered from its own marker. */
  lemma MarkerRoundTrip(e: TextEncoding)
    ensures FromU8(ToU8(e)) == Some(e)
  {
  }

  /** UTF-16 runs are made of two-byte code units; the others of single bytes. */
  predicate WideUnits(e: TextEncoding) {
    e.UTF16? || e.UTF16BE?
  }

  function UnitWidth(e: TextEncoding): (w: nat)
    ensures w == 1 || w == 2
  {
    if WideUnits(e) then 2 else 1
  }

  /** Offset `i` of a run is the start of a code unit. */
  predicate Aligned(i: nat, e: TextEncoding) {
    WideUnits(e) ==> i % 2 == 0
  }

  /** A complete all-zero code unit (the terminator) starts at offset `i` of `s`. */
  predicate NullUnitAt(s: seq<u8>, i: nat, e: TextEncoding) {
    i + UnitWidth(e) <= |s| && s[i] == 0 && (WideUnits(e) ==> s[i + 1] == 0)
  }

  /** The offset of the first code-unit-aligned terminator at or after `from`, if any.
      A zero byte that is not on a code-unit boundary of a UTF-16 run is not a terminator. */
  function FindTerminator(s: seq<u8>, e: TextEncoding, from: nat): (r: Option<nat>)
    requires Aligned(from, e)
    ensures r.Some? ==> from <= r.value && Aligned(r.value, e) && NullUnitAt(s, r.value, e)
    ensures r.Some? ==> forall j :: from <= j < r.value && Aligned(j, e) ==> !NullUnitAt(s, j, e)
    ensures r.None? ==> forall j :: from <= j && Aligned(j, e) ==> !NullUnitAt(s, j, e)
    decreases |s| - from
  {
    if from + UnitWidth(e) > |s| then None
    else if NullUnitAt(s, from, e) then Some(from)
    else FindTerminator(s, e, from + UnitWidth(e))
  }

  /** The bytes of one text field (`text`) and how many bytes it takes up,
      terminator included (`consumed`). */
  datatype Run = Run(text: seq<u8>, consumed: nat)

  /** Splits one text field off the front of `s`. In terminated mode the field ends at
      the first aligned terminator, or at the end of `s` when there is none; in to-end
      mode it is all of `s`. */
  function TextRun(s: seq<u8>, e: TextEncoding, terminated: bool): (run: Run)
    ensures |run.text| <= run.consumed <= |s| && run.text == s[..|run.text|]
    ensures run.consumed == |run.text| ==> run.text == s
    ensures run.consumed != |run.text| ==>
              && terminated && run.consumed == |run.text| + UnitWidth(e)
              && Aligned(|run.text|, e) && NullUnitAt(s, |run.text|, e)
    ensures terminated ==> forall j: nat :: j < |run.text| && Aligned(j, e) ==> !NullUnitAt(s, j, e)
    ensures !terminated ==> run.text == s
  {
    if !terminated then Run(s, |s|)
    else
      match FindTerminator(s, e, 0)
      case Some(j) => Run(s[..j], j + UnitWidth(e))
      case None => Run(s, |s|)
  }

  /** Converts UTF-16 or UTF-8 code units to characters (library-dependent, so supplied).
      A run that is not valid in its encoding is expected to fail with `TextDecode`. */
  type UnicodeDecoder = (TextEncoding, seq<u8>) -> Result<string>

  /** Latin-1 maps each byte to the character with the same code point. */
  function Latin1Chars(raw: seq<u8>): (s: string)
    ensures |s| == |raw|
    ensures forall i :: 0 <= i < |raw| ==> s[i] as int == raw[i]
  {
    seq(|raw|, i requires 0 <= i < |raw| => raw[i] as char)
  }

  /** `s` can be written in Latin-1. */
  predicate Latin1Text(s: string) {
    forall i :: 0 <= i < |s| ==> s[i] as int < 256
  }

  /** A NUL-free string that Latin-1 can hold. */
  predicate Latin1Field(s: string) {
    Latin1Text(s) && forall i :: 0 <= i < |s| ==> s[i] != 0 as char
  }

  /** The Latin-1 bytes of `s` (the writing direction, used to state round trips). */
  function EncodeLatin1(s: string): (raw: seq<u8>)
    requires Latin1Text(s)
    ensures |raw| == |s|
    ensures forall i :: 0 <= i < |s| ==> raw[i] == s[i] as int
  {
    seq(|s|, i requires 0 <= i < |s| => s[i] as int)
  }

  /** Latin-1 decoding and encoding are inverse to each other. */
  lemma Latin1Inverse(s: string, raw: seq<u8>)
    ensures Latin1Text(Latin1Chars(raw)) && EncodeLatin1(Latin1Chars(raw)) == raw
    ensures Latin1Text(s) ==> Latin1Chars(EncodeLatin1(s)) == s
  {
  }

  /** Turns the bytes of one field into characters. */
  function Convert(e: TextEncoding, raw: seq<u8>, unicode: UnicodeDecoder): Result<string>
  {
    if e.Latin1? then Ok(Latin1Chars(raw)) else unicode(e, raw)
  }

  /** `decode_text`: reads one text field from the cursor, terminated or to the end.
      The field is absent (`None`) exactly when it holds no bytes before its terminator. */
  function DecodeText(c: Cursor, e: TextEncoding, terminated: bool, unicode: UnicodeDecoder)
    : (r: Result<Step<Option<string>>>)
    ensures e.Latin1? ==> r.Ok?
    ensures r.Ok? ==> Follows(c, r.value.rest)
    ensures r.Ok? && !terminated ==> Len(r.value.rest) == 0
    ensures r.Ok? && !terminated ==> (r.value.value.None? <==> Len(c) == 0)
    ensures r.Ok? && terminated ==>
              (r.value.value.None? <==> Len(c) == 0 || NullUnitAt(Remaining(c), 0, e))
    ensures r.Ok? && terminated && Len(r.value.rest) > 0 ==>
              var used := Len(c) - Len(r.value.rest);
              && used >= UnitWidth(e)
              && Aligned(used - UnitWidth(e), e)
              && NullUnitAt(Remaining(c), used - UnitWidth(e), e)
    ensures r.Ok? && terminated ==>
              var used := Len(c) - Len(r.value.rest);
              forall j: nat :: j + UnitWidth(e) < used && Aligned(j, e) ==> !NullUnitAt(Remaining(c), j, e)
    ensures var run := TextRun(Remaining(c), e, terminated);
            && (r.Ok? ==> Len(c) - Len(r.value.rest) == run.consumed)
            && (r.Ok? && r.value.value.Some? ==> Convert(e, run.text, unicode) == Ok(r.value.value.value))
            && (r.Err? ==> run.text != [] && Convert(e, run.text, unicode) == Err(r.error))
  {
    var run := TextRun(Remaining(c), e, terminated);
    var rest := Advance(c, run.consumed);
    if run.text == [] then Ok(Step(None, rest))
    else
      var text :- Convert(e, run.text, unicode);
      Ok(Step(Some(text), rest))
  }

  /** `decode_text` for Latin-1, which cannot fail: the field's bytes become characters
      one for one, and a terminated field holds no NUL character, stops at the first zero
      byte (or the end of the payload) and consumes that zero. */
  function DecodeLatin1(c: Cursor, terminated: bool): (s: Step<Option<string>>)
    ensures forall unicode: UnicodeDecoder :: DecodeText(c, Latin1, terminated, unicode) == Ok(s)
    ensures s.value.Some? ==>
              var text := s.value.value;
              && |text| <= Len(c)
              && (forall i :: 0 <= i < |text| ==> text[i] as int == c.data[c.pos + i])
              && (terminated ==> forall i :: 0 <= i < |text| ==> text[i] != 0 as char)
    ensures terminated ==>
              var text := s.value.GetOr("");
              && |text| <= Len(c)
              && (|text| == Len(c) || c.data[c.pos + |text|] == 0)
              && s.rest.pos == c.pos + |text| + (if |text| < Len(c) then 1 else 0)
  {
    var run := TextRun(Remaining(c), Latin1, terminated);
    var rest := Advance(c, run.consumed);
    if run.text == [] then Step(None, rest)
    else
      assert terminated ==> forall i: nat :: i < |run.text| ==> run.text[i] != 0 by {
        if terminated {
          forall i: nat | i < |run.text| ensures run.text[i] != 0 {
            assert !NullUnitAt(Remaining(c), i, Latin1);
          }
        }
      }
      Step(Some(Latin1Chars(run.text)), rest)
  }

  /** Round trip in terminated mode: the Latin-1 bytes of a NUL-free string followed by
      a zero byte decode to that string, and the cursor stops just past the zero. */
  lemma {:induction false} Latin1TerminatedRoundTrip(prefix: seq<u8>, s: string, tail: seq<u8>)
    requires Latin1Field(s)
    ensures var data := prefix + EncodeLatin1(s) + [0] + tail;
            DecodeLatin1(ByteCursor(data, |prefix|), true)
            == Step(if s == [] then None else Some(s), ByteCursor(data, |prefix| + |s| + 1))
  {
    var data := prefix + EncodeLatin1(s) + [0] + tail;
    var c: Cursor := ByteCursor(data, |prefix|);
    var rem := Remaining(c);
    assert rem == EncodeLatin1(s) + [0] + tail;
    assert NullUnitAt(rem, |s|, Latin1);
    forall j: nat | j < |s| ensures !NullUnitAt(rem, j, Latin1) {
      assert rem[j] == s[j] as int;
    }
    var run := TextRun(rem, Latin1, true);
    assert |run.text| == |s|;
    assert run.text == EncodeLatin1(s);
    Latin1Inverse(s, []);
  }

  /** Round trip in to-end mode: the Latin-1 bytes of a string that fills the rest of the
      payload, and does not end in NUL, decode to that string, and the cursor ends at the end. */
  lemma {:induction false} Latin1ToEndRoundTrip(prefix: seq<u8>, s: string)
    requires Latin1Text(s) && (s == [] || s[|s| - 1] != 0 as char)
    ensures var data := prefix + EncodeLatin1(s);
            DecodeLatin1(ByteCursor(data, |prefix|), false)
            == Step(if s == [] then None else Some(s), ByteCursor(data, |data|))
  {
    var data := prefix + EncodeLatin1(s);
    var c: Cursor := ByteCursor(data, |prefix|);
    assert Remaining(c) == EncodeLatin1(s);
    Latin1Inverse(s, []);
  }

  /** A terminated field that runs into the end of the payload without a terminator
      takes all of the remaining bytes. */
  lemma {:induction false} Latin1UnterminatedRoundTrip(prefix: seq<u8>, s: string)
    requires Latin1Field(s)
    ensures var data := prefix + EncodeLatin1(s);
            DecodeLatin1(ByteCursor(data, |prefix|), true)
            == Step(if s == [] then None else Some(s), ByteCursor(data, |data|))
  {
    var data := prefix + EncodeLatin1(s);
    var c: Cursor := ByteCursor(data, |prefix|);
    var rem := Remaining(c);
    assert rem == EncodeLatin1(s);
    forall j: nat | j < |s| ensures !NullUnitAt(rem, j, Latin1) {
      assert rem[j] == s[j] as int;
    }
    Latin1Inverse(s, []);
  }

  /** The terminator a writer puts after a field: one zero code unit. */
  function NullUnit(e: TextEncoding): (z: seq<u8>)
    ensures |z| == UnitWidth(e) && NullUnitAt(z, 0, e)
  {
    if WideUnits(e) then [0, 0] else [0]
  }

  /** `raw` can be written as a terminated field: whole code units, none of them zero. */
  predicate TerminableField(raw: seq<u8>, e: TextEncoding) {
    Aligned(|raw|, e) && forall j: nat :: j < |raw| && Aligned(j, e) ==> !NullUnitAt(raw, j, e)
  }

  /** `raw` does not end in a zero code unit, so no reading of a to-end field that trims
      trailing terminators can shorten it. */
  predicate NoTrailingNull(raw: seq<u8>, e: TextEncoding) {
    !(|raw| >= UnitWidth(e) && NullUnitAt(raw, |raw| - UnitWidth(e), e))
  }

  /** The value a field's bytes decode to when they decode at all: "" for no bytes. */
  function FieldText(e: TextEncoding, raw: seq<u8>, unicode: UnicodeDecoder): string
    requires raw == [] || Convert(e, raw, unicode).Ok?
  {
    if raw == [] then "" else Convert(e, raw, unicode).value
  }

  /** Round trip in terminated mode, for every encoding: a field written as its code units
      and one zero unit decodes to what its code units convert to (absent when there are
      none), and the cursor stops just past the zero unit; a conversion failure is the
      read's failure. */
  lemma {:induction false} TerminatedRoundTrip(
    prefix: seq<u8>, raw: seq<u8>, e: TextEncoding, tail: seq<u8>, unicode: UnicodeDecoder)
    requires TerminableField(raw, e)
    ensures var data := prefix + raw + NullUnit(e) + tail;
            var r := DecodeText(ByteCursor(data, |prefix|), e, true, unicode);
            && (raw == [] || Convert(e, raw, unicode).Ok? <==> r.Ok?)
            && (r.Ok? ==> r.value == Step(if raw == [] then None else Some(Convert(e, raw, unicode).value),
                                        ByteCursor(data, |prefix| + |raw| + UnitWidth(e))))
            && (r.Err? ==> r.error == Convert(e, raw, unicode).error)
  {
    var data := prefix + raw + NullUnit(e) + tail;
    var c: Cursor := ByteCursor(data, |prefix|);
    assert Remaining(c) == raw + NullUnit(e) + tail;
    FieldRun(raw, e, tail);
    var rest := Advance(c, |raw| + UnitWidth(e));
    assert rest == ByteCursor(data, |prefix| + |raw| + UnitWidth(e));
  }

  /** A terminated field written as its code units and one zero unit splits off again. */
  lemma {:induction false} FieldRun(raw: seq<u8>, e: TextEncoding, tail: seq<u8>)
    requires TerminableField(raw, e)
    ensures TextRun(raw + NullUnit(e) + tail, e, true) == Run(raw, |raw| + UnitWidth(e))
  {
    var s := raw + NullUnit(e) + tail;
    assert NullUnitAt(s, |raw|, e);
    forall j: nat | j < |raw| && Aligned(j, e) ensures !NullUnitAt(s, j, e) {
      assert !NullUnitAt(raw, j, e);
    }
    var run := TextRun(s, e, true);
    assert |run.text| == |raw|;
    assert run.text == raw;
  }

  /** Round trip in to-end mode, for every encoding: a field that fills the rest of the
      payload decodes to what its code units convert to, and the cursor ends at the end. */
  lemma {:induction false} ToEndRoundTrip(
    prefix: seq<u8>, raw: seq<u8>, e: TextEncoding, unicode: UnicodeDecoder)
    ensures var data := prefix + raw;
            var r := DecodeText(ByteCursor(data, |prefix|), e, false, unicode);
            && (raw == [] || Convert(e, raw, unicode).Ok? <==> r.Ok?)
            && (r.Ok? ==> r.value == Step(if raw == [] then None else Some(Convert(e, raw, unicode).value),
                                        ByteCursor(data, |data|)))
            && (r.Err? ==> r.error == Convert(e, raw, unicode).error)
  {
    var data := prefix + raw;
    var c: Cursor := ByteCursor(data, |prefix|);
    assert Remaining(c) == raw;
  }
}

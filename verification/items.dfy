/** The compound-item parsers (attached picture, user-defined text and URL, unique file
    identifier, popularimeter) and the UTF-16/UTF-8 converter are not part of this
    model: their layouts live elsewhere in the library. They are parameters here, with
    abstract result types, and the only thing assumed of them is that, like every
    reader of a byte slice, they can only move the cursor forward. */
module Items {
  import opened Results
  import opened Cursors
  import opened Encodings
  import opened Versions

  type AttachedPictureFrame(==)
  type ExtendedTextFrame(==)
  type ExtendedUrlFrame(==)
  type UniqueFileIdentifierFrame(==)
  type PopularimeterFrame(==)

  /** The text converter and the compound-item parsers. A parser that fails is expected
      to report `ItemError`, which the frame decoder passes on unchanged. */
  datatype Collaborators = Collaborators(
    unicode: UnicodeDecoder,
    picture: (Cursor, Version) -> Result<Step<AttachedPictureFrame>>,
    extendedText: (Cursor, Version) -> Result<Step<Option<ExtendedTextFrame>>>,
    extendedUrl: (Cursor, Version) -> Result<Step<Option<ExtendedUrlFrame>>>,
    uniqueFileId: Cursor -> Result<Step<Option<UniqueFileIdentifierFrame>>>,
    popularimeter: Cursor -> Result<Step<PopularimeterFrame>>)

  /** Each compound-item parser, when it succeeds, leaves the cursor on the same
      payload and no further back than it found it. */
  ghost predicate ForwardOnly(x: Collaborators) {
    && (forall c: Cursor, v: Version ::
          x.picture(c, v).Ok? ==> Follows(c, x.picture(c, v).value.rest))
    && (forall c: Cursor, v: Version ::
          x.extendedText(c, v).Ok? ==> Follows(c, x.extendedText(c, v).value.rest))
    && (forall c: Cursor, v: Version ::
          x.extendedUrl(c, v).Ok? ==> Follows(c, x.extendedUrl(c, v).value.rest))
    && (forall c: Cursor ::
          x.uniqueFileId(c).Ok? ==> Follows(c, x.uniqueFileId(c).value.rest))
    && (forall c: Cursor ::
          x.popularimeter(c).Ok? ==> Follows(c, x.popularimeter(c).value.rest))
  }
}

/** The byte cursor that a frame decoder advances: an immutable payload plus the
    position of the first unread byte. Every read returns the value it read together
    with the advanced cursor, which is how a shared `&mut &[u8]` is modelled. */
module Cursors {
  import opened Results

  /** An unsigned 8-bit value, as Rust's `u8`. */
  type u8 = x: int | 0 <= x < 256

  datatype ByteCursor = ByteCursor(data: seq<u8>, pos: nat)

  /** A cursor whose position lies within its payload. */
  type Cursor = c: ByteCursor | c.pos <= |c.data| witness ByteCursor([], 0)

  /** A value read from a cursor, together with the cursor after the read. */
  datatype Step<+T> = Step(value: T, rest: Cursor)

  /** A cursor at the start of `data`. */
  function Start(data: seq<u8>): Cursor
  {
    ByteCursor(data, 0)
  }

  /** The bytes not yet read. */
  function Remaining(c: Cursor): seq<u8> {
    c.data[c.pos..]
  }

  /** The number of bytes not yet read (Rust's `len()` on the remaining slice). */
  function Len(c: Cursor): (n: nat)
    ensures n == |Remaining(c)|
  {
    |c.data| - c.pos
  }

  /** `d` reads the same payload as `c` and has consumed no less of it. */
  predicate Follows(c: Cursor, d: Cursor) {
    d.data == c.data && c.pos <= d.pos
  }

  /** The cursor after skipping `n` of the remaining bytes. */
  function Advance(c: Cursor, n: nat): (d: Cursor)
    requires n <= Len(c)
    ensures Follows(c, d) && Len(d) == Len(c) - n
    ensures Remaining(c) == Remaining(c)[..n] + Remaining(d)
  {
    var d := ByteCursor(c.data, c.pos + n);
    assert Remaining(c) == Remaining(c)[..n] + Remaining(d);
    d
  }

  /** Rust's `read_u8` on a slice: the first remaining byte, or a short read. */
  function ReadU8(c: Cursor): (r: Result<Step<u8>>)
    ensures r.Ok? <==> Len(c) >= 1
    ensures r.Ok? ==> [r.value.value] + Remaining(r.value.rest) == Remaining(c)
    ensures r.Ok? ==> Follows(c, r.value.rest)
    ensures r.Err? ==> r.error == ShortRead
  {
    if Len(c) < 1 then Err(ShortRead)
    else
      var d := Advance(c, 1);
      Ok(Step(c.data[c.pos], d))
  }

  /** Rust's `read_exact` into an `n`-byte buffer: exactly the next `n` bytes, or a short read. */
  function ReadExact(c: Cursor, n: nat): (r: Result<Step<seq<u8>>>)
    ensures r.Ok? <==> n <= Len(c)
    ensures r.Ok? ==> |r.value.value| == n
    ensures r.Ok? ==> r.value.value + Remaining(r.value.rest) == Remaining(c)
    ensures r.Ok? ==> Follows(c, r.value.rest)
    ensures r.Err? ==> r.error == ShortRead
  {
    if Len(c) < n then Err(ShortRead)
    else
      var d := Advance(c, n);
      Ok(Step(c.data[c.pos..c.pos + n], d))
  }
}

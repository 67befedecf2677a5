/** The terminal grid shared by the rasteriser and the serialiser: its fixed
    dimensions, the background, the face glyphs and the mapping from terminal
    coordinates to a cell of the flat character and depth buffers. */
module Screen {

  const Width: int := 180
  const Height: int := 50
  /** Number of cells of each of the two parallel buffers. */
  const Cells: int := Width * Height

  const Background: char := ' '
  /** The glyph of each face tag, indexed by the tag. */
  const Symbols: seq<char> := ['/', '$', '*', '-', ':', '"']
  /** Depth the z-buffer is reset to at the start of every frame. */
  const Sentinel: real := 100000.0

  /** A face tag that can index `Symbols`. */
  type FaceTag = f: int | 0 <= f < 6

  function Glyph(f: FaceTag): (c: char)
    ensures c in Symbols && c != Background && c != '\n'
  {
    Symbols[f]
  }

  /** A character the buffer may legitimately hold. */
  predicate InPalette(c: char) {
    c == Background || c in Symbols
  }

  lemma PaletteHasNoNewline(c: char)
    requires InPalette(c)
    ensures c != '\n'
  {
  }

  /** A point after projection: integer terminal column and row, the depth
      used by the depth test, and the face tag of the model point. */
  datatype ScreenPoint = ScreenPoint(col: int, row: int, depth: real, face: FaceTag)

  predicate InBounds(col: int, row: int) {
    0 <= col < Width && 0 <= row < Height
  }

  /** Linear cell index of terminal coordinates (row-major). */
  function Index(col: int, row: int): int {
    col + row * Width
  }

  /** In-bounds coordinates always address a cell of the buffers, and
      distinct in-bounds coordinates address distinct cells. */
  lemma IndexInRange(col: int, row: int)
    requires InBounds(col, row)
    ensures 0 <= Index(col, row) < Cells
  {
  }

  lemma IndexInjective(c1: int, r1: int, c2: int, r2: int)
    requires InBounds(c1, r1) && InBounds(c2, r2)
    ensures Index(c1, r1) == Index(c2, r2) <==> c1 == c2 && r1 == r2
  {
  }

  /** The point lands, in bounds, on cell `k`. */
  predicate Hits(p: ScreenPoint, k: int) {
    InBounds(p.col, p.row) && Index(p.col, p.row) == k
  }
}

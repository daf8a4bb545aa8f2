/**
 * The embroidery pattern as the viewer receives it from the codec library:
 * an ordered stream of stitch commands, a thread palette, and the extent
 * the library reports for it.
 */
module Pattern {
  import opened Wrappers

  /**
   * The command of one stitch record. `Other` stands for any command value
   * that is not exactly one of the named ones (for instance a command that
   * carries extra flag bits).
   */
  datatype Command = Stitch | Jump | Trim | Stop | End | ColorChange | SequenceBreak | Other(code: int)

  /** One `[x, y, command]` record, coordinates in tenths of a millimetre. */
  datatype StitchCommand = StitchCommand(x: real, y: real, command: Command)

  datatype Thread = Thread(color: int, description: string, catalogNumber: string)

  /** The `(min_x, min_y, max_x, max_y)` tuple returned by the pattern's `bounds()`. */
  datatype Extent = Extent(minX: real, minY: real, maxX: real, maxY: real)

  /**
   * `bounds` is what the pattern's `bounds()` method reports; `None` when
   * the pattern object has no `bounds` method (the `hasattr` test fails and
   * a call would raise).
   */
  datatype Pattern = Pattern(stitches: seq<StitchCommand>, threads: seq<Thread>, bounds: Option<Extent>)
}

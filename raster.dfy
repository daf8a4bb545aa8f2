/**
 * Raster images as the render engine handles them (`QImage` in the
 * application): RGBA pixels in rows, a flag for whether the pixel format
 * carries an alpha channel, and the background-keying pass that turns
 * near-white pixels transparent.
 */
module Raster {

  type Channel = x: int | 0 <= x <= 255

  datatype Pixel = Pixel(r: Channel, g: Channel, b: Channel, a: Channel)

  /** `QColor(0, 0, 0, 0)`, the fill of a fresh keyed image. */
  const Transparent := Pixel(0, 0, 0, 0)

  /** `rows[y][x]` is the pixel in column `x` of row `y`. */
  datatype Bitmap = Bitmap(width: nat, height: nat, hasAlpha: bool, rows: seq<seq<Pixel>>) {

    predicate Valid() {
      |rows| == height && forall y :: 0 <= y < height ==> |rows[y]| == width
    }

    /** `QImage.isNull()`: an image without pixels. */
    predicate IsNull() {
      width == 0 || height == 0
    }
  }

  type Image = b: Bitmap | b.Valid() witness Bitmap(0, 0, false, [])

  /** An image of the given size with every pixel set to `c` (`QImage(w, h, ARGB32_Premultiplied).fill(c)`). */
  function Filled(width: nat, height: nat, c: Pixel): (img: Image)
    ensures img.width == width && img.height == height && img.hasAlpha
    ensures forall y, x :: 0 <= y < height && 0 <= x < width ==> img.rows[y][x] == c
  {
    Bitmap(width, height, true, seq(height, _ => seq(width, _ => c)))
  }

  /** The keying test of render_engine.py: every colour channel above 240. */
  predicate NearWhite(p: Pixel) {
    p.r > 240 && p.g > 240 && p.b > 240
  }

  /** The pixel the keying pass leaves in the output for source pixel `p`. */
  function KeyPixel(p: Pixel): Pixel {
    if NearWhite(p) then Transparent else Pixel(p.r, p.g, p.b, 255)
  }

  /** The image the keying pass produces: same size, alpha channel present, pixels keyed one by one. */
  function Keyed(img: Image): (r: Image)
    ensures r.width == img.width && r.height == img.height && r.hasAlpha
  {
    Bitmap(img.width, img.height, true,
      seq(img.height, y requires 0 <= y < img.height =>
        seq(img.width, x requires 0 <= x < img.width => KeyPixel(img.rows[y][x]))))
  }

  /**
   * What each output pixel of the keying pass is: a near-white pixel is
   * fully transparent, any other keeps its colour and becomes fully opaque.
   */
  lemma {:induction false} KeyedPixels(img: Image, y: nat, x: nat)
    requires y < img.height && x < img.width
    ensures var p, q := img.rows[y][x], Keyed(img).rows[y][x];
      (NearWhite(p) ==> q.a == 0)
      && (!NearWhite(p) ==> q.a == 255 && q.r == p.r && q.g == p.g && q.b == p.b)
  {
  }

  /** The compositing stage: an image with an alpha channel passes through, any other is keyed. */
  function Composite(img: Image): (r: Image)
    ensures r.width == img.width && r.height == img.height && r.hasAlpha
    ensures img.hasAlpha ==> r == img
    ensures !img.hasAlpha ==> r == Keyed(img)
  {
    if img.hasAlpha then img else Keyed(img)
  }

  /** Compositing twice is compositing once: its output always has an alpha channel. */
  lemma {:induction false} CompositeIdempotent(img: Image)
    ensures Composite(Composite(img)) == Composite(img)
  {
  }

  /**
   * The per-pixel keying by itself is not idempotent: the transparent pixel
   * it produces is not near-white, so keying it again makes it opaque black.
   * Only the alpha-channel pass-through makes the stage idempotent.
   */
  lemma {:induction false} KeyPixelNotIdempotent()
    ensures KeyPixel(KeyPixel(Pixel(255, 255, 255, 255))) != KeyPixel(Pixel(255, 255, 255, 255))
  {
  }

  lemma {:induction false} KeyPixelExamples()
    ensures KeyPixel(Pixel(255, 255, 255, 255)) == Transparent
    ensures KeyPixel(Pixel(0, 0, 0, 255)) == Pixel(0, 0, 0, 255)
    ensures KeyPixel(Pixel(241, 241, 240, 255)) == Pixel(241, 241, 240, 255)
  {
  }

  /** The pixels of an image buffer, row by row. */
  function RowsOf(buf: array2<Pixel>): (rows: seq<seq<Pixel>>)
    reads buf
    ensures |rows| == buf.Length0
    ensures forall y :: 0 <= y < buf.Length0 ==> |rows[y]| == buf.Length1
    ensures forall y, x :: 0 <= y < buf.Length0 && 0 <= x < buf.Length1 ==> rows[y][x] == buf[y, x]
  {
    seq(buf.Length0, y requires 0 <= y < buf.Length0 reads buf =>
      seq(buf.Length1, x requires 0 <= x < buf.Length1 reads buf => buf[y, x]))
  }

  /**
   * The keying pass of `RenderEngine.create_base_image`: a buffer of the
   * source's size is filled with transparent pixels, then every pixel that
   * is not near-white is copied into it opaque, row by row.
   */
  method AlphaKey(src: Image) returns (out: Image)
    ensures out == Keyed(src)
  {
    var w, h := src.width, src.height;
    var buf := new Pixel[h, w]((_, _) => Transparent);
    var y := 0;
    while y < h
      invariant 0 <= y <= h
      invariant forall yy, xx :: 0 <= yy < h && 0 <= xx < w ==>
        buf[yy, xx] == if yy < y then KeyPixel(src.rows[yy][xx]) else Transparent
    {
      var x := 0;
      while x < w
        invariant 0 <= x <= w
        invariant forall yy, xx :: 0 <= yy < h && 0 <= xx < w ==>
          buf[yy, xx] == if yy < y || (yy == y && xx < x) then KeyPixel(src.rows[yy][xx]) else Transparent
      {
        var p := src.rows[y][x];
        if !NearWhite(p) {
          buf[y, x] := Pixel(p.r, p.g, p.b, 255);
        }
        x := x + 1;
      }
      y := y + 1;
    }
    var rows := RowsOf(buf);
    ghost var expected := Keyed(src);
    forall yy | 0 <= yy < h ensures rows[yy] == expected.rows[yy] {
      assert |rows[yy]| == |expected.rows[yy]|;
    }
    out := Bitmap(w, h, true, rows);
  }
}

/**
 * The System.Drawing values the program uses: points, rectangles, and GDI+ bitmaps loaded
 * from files. A GDI+ bitmap is opaque here: only its size and identity matter, and drawing
 * it scaled into a buffer is a parameter of the model (a Resampler).
 */
module Drawing {

  datatype Option<T> = None | Some(value: T)

  /** System.Drawing.Point. */
  datatype Point = Point(x: int, y: int)

  /** System.Drawing.Rectangle: Left = X, Top = Y. */
  datatype Rect = Rect(left: int, top: int, width: int, height: int)

  /** A GDI+ Bitmap: `id` tells images loaded from different files apart. */
  datatype Image = Image(id: nat, width: int, height: int)

  /**
   * Graphics.DrawImage of a source image scaled into a w-by-h target (bicubic, half-pixel
   * offset, flipped tiling at the edges, source copy): the ARGB value of target pixel (x, y).
   */
  type Resampler = (Image, int, int, int, int) -> bv32

  /** Point (x, y) lies inside the rectangle. */
  predicate InRect(r: Rect, x: int, y: int) {
    r.left <= x < r.left + r.width && r.top <= y < r.top + r.height
  }

  /** The rectangle lies inside a w-by-h canvas. */
  predicate RectInside(r: Rect, w: int, h: int) {
    0 <= r.left && 0 <= r.width && r.left + r.width <= w &&
    0 <= r.top && 0 <= r.height && r.top + r.height <= h
  }
}

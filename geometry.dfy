/** The part of Qt's `QRectF` that the viewer relies on: a rectangle and its validity tests. */
module Geometry {

  /** `QRectF(x, y, width, height)`. */
  datatype Rect = Rect(x: real, y: real, width: real, height: real) {

    /** `QRectF.isValid()`: both sides strictly positive. */
    predicate IsValid() {
      width > 0.0 && height > 0.0
    }

    /** `QRectF.isEmpty()`: some side zero or negative. */
    predicate IsEmpty() {
      width <= 0.0 || height <= 0.0
    }

    /** `QRectF.isNull()`: both sides zero. */
    predicate IsNull() {
      width == 0.0 && height == 0.0
    }
  }

  /** The default-constructed `QRectF()`. */
  const NullRect := Rect(0.0, 0.0, 0.0, 0.0)

  /** `QRectF(QPointF(minX, minY), QPointF(maxX, maxY))`: top-left and bottom-right corners. */
  function FromCorners(minX: real, minY: real, maxX: real, maxY: real): (r: Rect)
    ensures r.x == minX && r.y == minY
    ensures r.x + r.width == maxX && r.y + r.height == maxY
  {
    Rect(minX, minY, maxX - minX, maxY - minY)
  }

  /** Valid and empty are exact opposites, so `not isValid() or isEmpty()` is just `not isValid()`. */
  lemma {:induction false} ValidIsNotEmpty(r: Rect)
    ensures r.IsValid() <==> !r.IsEmpty()
    ensures r.IsNull() ==> !r.IsValid()
  {
  }

  lemma {:induction false} NullRectIsInvalid()
    ensures NullRect.IsNull() && !NullRect.IsValid()
  {
  }
}

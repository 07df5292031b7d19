/** `point_in_rect` of ggit-ui.h: an integer hit-test against a rectangle
    given by two opposite corners in either order. */
module Ui {

  function Min(a: int, b: int): int { if a <= b then a else b }
  function Max(a: int, b: int): int { if a <= b then b else a }

  /** Orders each pair of corner coordinates, then tests with inclusive edges. */
  function PointInRect(x0: int, y0: int, x1: int, y1: int, mx: int, my: int): (r: bool)
    ensures r <==> Min(x0, x1) <= mx <= Max(x0, x1) && Min(y0, y1) <= my <= Max(y0, y1)
  {
    var (left, right) := if x0 > x1 then (x1, x0) else (x0, x1);
    var (top, bottom) := if y0 > y1 then (y1, y0) else (y0, y1);
    mx >= left && mx <= right && my >= top && my <= bottom
  }

  /** The order of the two x coordinates does not matter. */
  lemma SwapX(x0: int, y0: int, x1: int, y1: int, mx: int, my: int)
    ensures PointInRect(x0, y0, x1, y1, mx, my) == PointInRect(x1, y0, x0, y1, mx, my)
  {
  }

  /** The order of the two y coordinates does not matter. */
  lemma SwapY(x0: int, y0: int, x1: int, y1: int, mx: int, my: int)
    ensures PointInRect(x0, y0, x1, y1, mx, my) == PointInRect(x0, y1, x1, y0, mx, my)
  {
  }

  /** Edges are inclusive: both given corners, and the two other corners,
      are inside. */
  lemma CornersInside(x0: int, y0: int, x1: int, y1: int)
    ensures PointInRect(x0, y0, x1, y1, x0, y0) && PointInRect(x0, y0, x1, y1, x1, y1)
    ensures PointInRect(x0, y0, x1, y1, x0, y1) && PointInRect(x0, y0, x1, y1, x1, y0)
  {
  }

  /** One step beyond either x edge is outside, whatever `my` is. */
  lemma JustOutside(x0: int, y0: int, x1: int, y1: int, my: int)
    ensures !PointInRect(x0, y0, x1, y1, Max(x0, x1) + 1, my)
    ensures !PointInRect(x0, y0, x1, y1, Min(x0, x1) - 1, my)
  {
  }
}

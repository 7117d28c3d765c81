/** The dirty rectangle: the smallest screen box around everything that changed. */
module DirtyRegion {
  import opened Wrappers

  datatype DirtyRect = Clean | Dirty(left: int, top: int, right: int, bottom: int)
  {
    predicate Contains(x: int, y: int) {
      Dirty? && left <= x < right && top <= y < bottom
    }

    predicate WithinScreen(width: int, height: int) {
      Dirty? ==> 0 <= left < right <= width && 0 <= top < bottom <= height
    }
  }

  predicate InScreen(x: int, y: int, width: int, height: int) {
    0 <= x < width && 0 <= y < height
  }

  predicate InBox(x: int, y: int, left: int, top: int, w: int, h: int) {
    left <= x < left + w && top <= y < top + h
  }

  /** Clips a box to the screen and widens the dirty rectangle to include it. */
  function AddDirtyRect(dirty: DirtyRect, x: int, y: int, w: int, h: int,
                        width: int, height: int): (r: DirtyRect)
    requires dirty.WithinScreen(width, height)
    ensures r.WithinScreen(width, height)
  {
    if w <= 0 || h <= 0 then dirty
    else
      var left, top := Max(x, 0), Max(y, 0);
      var right, bottom := Min(x + w, width), Min(y + h, height);
      if left >= right || top >= bottom then dirty
      else if dirty.Clean? then Dirty(left, top, right, bottom)
      else Dirty(Min(left, dirty.left), Min(top, dirty.top),
                 Max(right, dirty.right), Max(bottom, dirty.bottom))
  }

  /** The result contains the old rectangle and every screen pixel of the box. */
  lemma AddCovers(dirty: DirtyRect, x: int, y: int, w: int, h: int, width: int, height: int, px: int, py: int)
    requires dirty.WithinScreen(width, height)
    requires InScreen(px, py, width, height)
    requires dirty.Contains(px, py) || InBox(px, py, x, y, w, h)
    ensures AddDirtyRect(dirty, x, y, w, h, width, height).Contains(px, py)
  {
  }

  /** Nothing is redrawn needlessly: the result is the least rectangle with that
      property, and it stays clean when the box misses the screen. */
  lemma AddIsLeast(dirty: DirtyRect, x: int, y: int, w: int, h: int, width: int, height: int, bound: DirtyRect)
    requires dirty.WithinScreen(width, height)
    requires forall px, py | InScreen(px, py, width, height) &&
                             (dirty.Contains(px, py) || InBox(px, py, x, y, w, h)) ::
               bound.Contains(px, py)
    ensures var r := AddDirtyRect(dirty, x, y, w, h, width, height);
            forall px, py :: r.Contains(px, py) ==> bound.Contains(px, py)
  {
    var r := AddDirtyRect(dirty, x, y, w, h, width, height);
    if r.Dirty? {
      if dirty.Dirty? {
        assert bound.Contains(dirty.left, dirty.top);
        assert bound.Contains(dirty.right - 1, dirty.bottom - 1);
      }
      if r != dirty {
        var left, top := Max(x, 0), Max(y, 0);
        var right, bottom := Min(x + w, width), Min(y + h, height);
        assert InBox(left, top, x, y, w, h) && bound.Contains(left, top);
        assert InBox(right - 1, bottom - 1, x, y, w, h) && bound.Contains(right - 1, bottom - 1);
      }
    }
  }
}

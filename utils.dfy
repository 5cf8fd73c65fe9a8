/** The two helpers of `cheeze/layout_manager/utils.py`. */
module Utils {
  import opened Wrappers

  /** `_float0`: a number is returned unchanged, anything else (in practice
      `None`, an unset preferred size) counts as 0. */
  function Float0(v: Option<real>): (r: real)
    ensures v.Some? ==> r == v.value
    ensures v.None? ==> r == 0.0
  {
    match v
    case Some(x) => x
    case None => 0.0
  }

  /** `_collides_rect`: is `point` inside the rectangle at `pos` of extent
      `size`, edges included, on both axes? */
  predicate CollidesRect(point: (real, real), pos: (real, real), size: (real, real))
  {
    pos.0 <= point.0 <= pos.0 + size.0 && pos.1 <= point.1 <= pos.1 + size.1
  }

  /** Collision only depends on where the point lies relative to `pos`:
      shifting point and rectangle together changes nothing. */
  lemma CollidesRectTranslate(point: (real, real), pos: (real, real), size: (real, real), d: (real, real))
    ensures CollidesRect((point.0 + d.0, point.1 + d.1), (pos.0 + d.0, pos.1 + d.1), size)
        <==> CollidesRect(point, pos, size)
  {
  }

  /** Both corners `pos` and `pos + size` of a rectangle with non-negative
      extent collide (the edges are inclusive). */
  lemma CornersCollide(pos: (real, real), size: (real, real))
    requires size.0 >= 0.0 && size.1 >= 0.0
    ensures CollidesRect(pos, pos, size)
    ensures CollidesRect((pos.0 + size.0, pos.1 + size.1), pos, size)
  {
  }

  /** A negative width or height leaves no point inside. */
  lemma NegativeExtentCollidesNothing(point: (real, real), pos: (real, real), size: (real, real))
    requires size.0 < 0.0 || size.1 < 0.0
    ensures !CollidesRect(point, pos, size)
  {
  }
}

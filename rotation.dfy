/** `rotate_newleft` of `cheeze/animation/rotation.py`: where the bounding box
    of a rotated rectangle must go so that the rotation happens about the
    rectangle's centre. */
module Rotation {

  /** `RotationAxis`: only rotation about the centre exists. */
  datatype RotationAxis = Center

  /** The new top-left corner of the bounding box: the old corner moved by
      half the difference between the old size and the bounding size, on
      each axis. The bounding box's own position and the angle do not take
      part. */
  function RotateNewLeft(pos: (real, real), size: (real, real), posBounding: (real, real),
                         sizeBounding: (real, real), axis: RotationAxis, rot: real): (r: (real, real))
    ensures r.0 + sizeBounding.0 / 2.0 == pos.0 + size.0 / 2.0
    ensures r.1 + sizeBounding.1 / 2.0 == pos.1 + size.1 / 2.0
  {
    match axis
    case Center => (pos.0 + (size.0 - sizeBounding.0) / 2.0, pos.1 + (size.1 - sizeBounding.1) / 2.0)
  }

  /** A bounding box of the rectangle's own size stays where the rectangle
      is. */
  lemma SameSizeStays(pos: (real, real), size: (real, real), posBounding: (real, real), rot: real)
    ensures RotateNewLeft(pos, size, posBounding, size, Center, rot) == pos
  {
  }

  /** The new corner is the only one that keeps the centre: any corner that
      puts the bounding box's centre on the rectangle's centre is it. */
  lemma CentreDeterminesCorner(pos: (real, real), size: (real, real), posBounding: (real, real),
                               sizeBounding: (real, real), rot: real, q: (real, real))
    requires q.0 + sizeBounding.0 / 2.0 == pos.0 + size.0 / 2.0
    requires q.1 + sizeBounding.1 / 2.0 == pos.1 + size.1 / 2.0
    ensures q == RotateNewLeft(pos, size, posBounding, sizeBounding, Center, rot)
  {
  }

  /** Moving the rectangle moves the new corner by as much. */
  lemma Translates(pos: (real, real), size: (real, real), posBounding: (real, real),
                   sizeBounding: (real, real), rot: real, d: (real, real))
    ensures var r := RotateNewLeft(pos, size, posBounding, sizeBounding, Center, rot);
      RotateNewLeft((pos.0 + d.0, pos.1 + d.1), size, posBounding, sizeBounding, Center, rot)
      == (r.0 + d.0, r.1 + d.1)
  {
  }
}

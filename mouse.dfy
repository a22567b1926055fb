/** Mouse: a pointer position in the output picture mapped back to the
    input picture, the exact inverse of where the primitives put samples. */
module MouseMapping {
  import opened Orientation
  import opened Planes

  /** Mouse: the output point d of an output picture dw wide and dh tall,
      mapped back to the input. Every kind but the identity has a mapping;
      the identity never reaches here. */
  function Mouse(k: Kind, d: Point, dw: nat, dh: nat): (s: Point)
    requires k != Identity
    ensures Inside(d, Size(dw, dh)) ==> Inside(s, TransformedSize(k, Size(dw, dh)))
    ensures Target(k, s, TransformedSize(k, Size(dw, dh))) == d
  {
    var sx := match k
      case HFlip | R180 => dw - 1 - d.x
      case VFlip => d.x
      case Transpose | R90 => d.y
      case R270 | AntiTranspose => dh - 1 - d.y;
    var sy := match k
      case HFlip => d.y
      case VFlip | R180 => dh - 1 - d.y
      case Transpose | R270 => d.x
      case R90 | AntiTranspose => dw - 1 - d.x;
    Point(sx, sy)
  }

  /** Mapping back the place a source sample was sent to gives that
      sample's own position: Mouse undoes Target, as Target undoes Mouse. */
  lemma MouseOfTarget(k: Kind, p: Point, s: Size)
    requires k != Identity
    ensures Mouse(k, Target(k, p, s), TransformedSize(k, s).width, TransformedSize(k, s).height) == p
  {
    var t := TransformedSize(k, s);
    assert TransformedSize(k, Size(t.width, t.height)) == s;
    TargetInjective(k, Mouse(k, Target(k, p, s), t.width, t.height), p, s);
  }

  /** The pointer over the output sample at d is over the input sample
      that the primitive of kind k copied there. */
  lemma MouseFindsSample<T>(k: Kind, dst: seq<T>, dw: Walk, src: seq<T>, sw: Walk,
                            width: nat, height: nat, d: Point)
    requires k != Identity
    requires Transformed(k, dst, dw, src, sw, width, height)
    requires Inside(d, TransformedSize(k, Size(width, height)))
    ensures var t := TransformedSize(k, Size(width, height));
      var s := Mouse(k, d, t.width, t.height);
      Inside(s, Size(width, height)) &&
      0 <= dw.Cell(d.y, d.x) < |dst| && 0 <= sw.Cell(s.y, s.x) < |src| &&
      dst[dw.Cell(d.y, d.x)] == src[sw.Cell(s.y, s.x)]
  {
    var t := TransformedSize(k, Size(width, height));
    var s := Mouse(k, d, t.width, t.height);
    assert TransformedSize(k, Size(t.width, t.height)) == Size(width, height);
    TransformedAt(k, dst, dw, src, sw, width, height, s.x, s.y);
  }
}

/** The geometry shared by the plane primitives, the negotiation and the
    pointer mapping: the transform kinds, points and sizes, and where each
    kind sends a source sample. */
module Orientation {

  /** video_transform_t: the eight orientation changes between two frames. */
  datatype Kind = Identity | R90 | R180 | R270 | HFlip | VFlip | Transpose | AntiTranspose

  /** The kinds that exchange width and height (ORIENT_IS_SWAP). */
  predicate IsSwap(k: Kind) {
    k == R90 || k == R270 || k == Transpose || k == AntiTranspose
  }

  /** A sample position: column x, row y. */
  datatype Point = Point(x: int, y: int)

  /** A visible rectangle: width columns by height rows. */
  datatype Size = Size(width: nat, height: nat)

  predicate Inside(p: Point, s: Size) {
    0 <= p.x < s.width && 0 <= p.y < s.height
  }

  /** The size of the destination plane for a source of size s: the same
      two sides, in the same or the swapped order. */
  function TransformedSize(k: Kind, s: Size): (t: Size)
    ensures (t.width == s.width && t.height == s.height) || (t.width == s.height && t.height == s.width)
  {
    if IsSwap(k) then Size(s.height, s.width) else s
  }

  /** Where a source sample at p of a plane of size s lands in the
      destination, as the cell equations of the primitives give it. */
  function Target(k: Kind, p: Point, s: Size): (q: Point)
    ensures Inside(p, s) ==> Inside(q, TransformedSize(k, s))
  {
    match k
    case Identity => p
    case HFlip => Point(s.width - 1 - p.x, p.y)
    case VFlip => Point(p.x, s.height - 1 - p.y)
    case R180 => Point(s.width - 1 - p.x, s.height - 1 - p.y)
    case Transpose => Point(p.y, p.x)
    case R270 => Point(p.y, s.width - 1 - p.x)
    case R90 => Point(s.height - 1 - p.y, p.x)
    case AntiTranspose => Point(s.height - 1 - p.y, s.width - 1 - p.x)
  }

  /** The kind that undoes k: the two rotations by a quarter turn undo
      each other, every other kind undoes itself. */
  function Inverse(k: Kind): (i: Kind)
    ensures IsSwap(i) == IsSwap(k)
  {
    match k
    case R90 => R270
    case R270 => R90
    case _ => k
  }

  /** Applying k and then its inverse returns every point, and the size,
      to where it started. */
  lemma TargetThenInverse(k: Kind, p: Point, s: Size)
    ensures TransformedSize(Inverse(k), TransformedSize(k, s)) == s
    ensures Target(Inverse(k), Target(k, p, s), TransformedSize(k, s)) == p
  {
  }

  /** Target is one-to-one on the visible rectangle. */
  lemma TargetInjective(k: Kind, p: Point, p': Point, s: Size)
    requires Target(k, p, s) == Target(k, p', s)
    ensures p == p'
  {
    TargetThenInverse(k, p, s);
    TargetThenInverse(k, p', s);
  }
}

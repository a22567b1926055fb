/** The table of primitives: for each transform kind, one primitive per
    sample size, and the call through a table entry. */
module Dispatch {
  import opened Orientation
  import opened Planes

  /** The sample widths the primitives are generated for. */
  datatype SampleSize = Bits8 | Bits16 | Bits32 {
    /** Bytes per sample: the divisor that turns a byte stride into a
        sample stride. */
    function Bytes(): (n: nat)
      ensures n == 1 || n == 2 || n == 4
    {
      match this
      case Bits8 => 1
      case Bits16 => 2
      case Bits32 => 4
    }
  }

  /** One of the 21 generated primitives, such as hflip_16. */
  datatype Primitive = Primitive(kind: Kind, size: SampleSize)

  /** transform_description_t: the three sizes of one kind. */
  datatype Description = Description(plane8: Primitive, plane16: Primitive, plane32: Primitive)

  /** descriptions[k]: every entry performs kind k, at the width its slot
      names. The identity has no entry. */
  function Descriptions(k: Kind): (d: Description)
    requires k != Identity
    ensures d.plane8.kind == k && d.plane16.kind == k && d.plane32.kind == k
    ensures d.plane8.size.Bytes() == 1 && d.plane16.size.Bytes() == 2 && d.plane32.size.Bytes() == 4
  {
    Description(Primitive(k, Bits8), Primitive(k, Bits16), Primitive(k, Bits32))
  }

  /** A call through a table entry: strides in bytes are divided by the
      sample size, and the plane is handed over walked forward. */
  method Apply<T>(p: Primitive, dst: array<T>, dstPitch: nat, src: array<T>, srcPitch: nat, width: nat, height: nat)
    requires p.kind != Identity
    requires dst != src
    requires dstPitch % p.size.Bytes() == 0 && srcPitch % p.size.Bytes() == 0
    requires Fits(src.Length, Plane(srcPitch / p.size.Bytes()), width, height)
    requires Fits(dst.Length, Plane(dstPitch / p.size.Bytes()),
                  TransformedSize(p.kind, Size(width, height)).width, TransformedSize(p.kind, Size(width, height)).height)
    modifies dst
    ensures Transformed(p.kind, dst[..], Plane(dstPitch / p.size.Bytes()),
                        src[..], Plane(srcPitch / p.size.Bytes()), width, height)
    ensures forall i ::
      (0 <= i < dst.Length &&
       !Covers(Plane(dstPitch / p.size.Bytes()), TransformedSize(p.kind, Size(width, height)).width,
               TransformedSize(p.kind, Size(width, height)).height, i))
      ==> dst[i] == old(dst[i])
  {
    var dw := Plane(dstPitch / p.size.Bytes());
    var sw := Plane(srcPitch / p.size.Bytes());
    match p.kind
    case HFlip =>
      HFlipPlane(dst, dw, src, sw, width, height);
      forall y, x | 0 <= y < height && 0 <= x < width
        ensures Moved(p.kind, dst[..], dw, src[..], sw, width, height, x, y)
      {
        assert dst[..][dw.Cell(y, width - 1 - x)] == src[..][sw.Cell(y, x)];
      }
    case VFlip =>
      VFlipPlane(dst, dw, src, sw, width, height);
      forall y, x | 0 <= y < height && 0 <= x < width
        ensures Moved(p.kind, dst[..], dw, src[..], sw, width, height, x, y)
      {
        assert dst[..][dw.Cell(height - 1 - y, x)] == src[..][sw.Cell(y, x)];
      }
    case R180 =>
      R180Plane(dst, dw, src, sw, width, height);
      forall y, x | 0 <= y < height && 0 <= x < width
        ensures Moved(p.kind, dst[..], dw, src[..], sw, width, height, x, y)
      {
        assert dst[..][dw.Cell(height - 1 - y, width - 1 - x)] == src[..][sw.Cell(y, x)];
      }
    case Transpose =>
      TransposePlane(dst, dw, src, sw, width, height);
      forall y, x | 0 <= y < height && 0 <= x < width
        ensures Moved(p.kind, dst[..], dw, src[..], sw, width, height, x, y)
      {
        assert dst[..][dw.Cell(x, y)] == src[..][sw.Cell(y, x)];
      }
    case R270 =>
      R270Plane(dst, dw, src, sw, width, height);
      forall y, x | 0 <= y < height && 0 <= x < width
        ensures Moved(p.kind, dst[..], dw, src[..], sw, width, height, x, y)
      {
        assert dst[..][dw.Cell(width - 1 - x, y)] == src[..][sw.Cell(y, x)];
      }
    case R90 =>
      R90Plane(dst, dw, src, sw, width, height);
      forall y, x | 0 <= y < height && 0 <= x < width
        ensures Moved(p.kind, dst[..], dw, src[..], sw, width, height, x, y)
      {
        assert dst[..][dw.Cell(x, height - 1 - y)] == src[..][sw.Cell(y, x)];
      }
    case AntiTranspose =>
      AntiTransposePlane(dst, dw, src, sw, width, height);
      forall y, x | 0 <= y < height && 0 <= x < width
        ensures Moved(p.kind, dst[..], dw, src[..], sw, width, height, x, y)
      {
        assert dst[..][dw.Cell(width - 1 - x, height - 1 - y)] == src[..][sw.Cell(y, x)];
      }
  }
}

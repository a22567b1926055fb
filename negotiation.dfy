/** Negotiation: whether the converter can turn the input format into the
    output format, and which primitive each plane then uses. */
module Negotiation {
  import opened Orientation
  import opened Dispatch

  datatype Option<T> = None | Some(value: T)

  /** A four-character chroma code. */
  type FourCC = string

  const NV12: FourCC := "NV12"
  const NV21: FourCC := "NV21"

  /** The number of plane slots in a picture (PICTURE_PLANE_MAX). */
  const PlaneMax: nat := 5

  /** An unsigned fraction: one subsampling factor of a plane. */
  datatype Ratio = Ratio(num: nat, den: nat)

  /** Horizontal and vertical subsampling of one plane. */
  datatype PlaneSampling = PlaneSampling(w: Ratio, h: Ratio)

  /** The chroma description of a format: the sample size of its first
      plane and the subsampling of each of its planes (one entry per
      plane, so |planes| is the plane count). */
  datatype ChromaDescription = ChromaDescription(pixelSize: nat, planes: seq<PlaneSampling>)

  /** The fields of a video format that the output must take over
      unchanged from the transformed input. */
  datatype VideoFormat = VideoFormat(chroma: FourCC, width: nat, visibleWidth: nat, height: nat,
                                     visibleHeight: nat, xOffset: nat, yOffset: nat)

  datatype Error = ENotSup | ENoMem

  datatype Result<T> = Ok(value: T) | Err(error: Error)

  /** filter_sys_t: the negotiated kind and the primitive of every plane. */
  datatype FilterSys = FilterSys(transform: Kind, plane: seq<Primitive>)

  /** A configuration Filter and Mouse can run with: a proper kind, and a
      primitive of that kind in every plane slot. */
  predicate ValidSys(sys: FilterSys) {
    sys.transform != Identity && |sys.plane| == PlaneMax &&
    forall i :: 0 <= i < |sys.plane| ==> sys.plane[i].kind == sys.transform
  }

  /** Plane p has the same horizontal and vertical subsampling. */
  predicate SquarePlane(p: PlaneSampling) {
    p.w.num * p.h.den == p.h.num * p.w.den
  }

  predicate SquareSampled(c: ChromaDescription) {
    forall i :: 0 <= i < |c.planes| ==> SquarePlane(c.planes[i])
  }

  predicate KnownPixelSize(n: nat) {
    n == 1 || n == 2 || n == 4
  }

  /** Everything the converter needs besides memory for its state: a
      proper kind, an output equal to the transformed input, a known
      chroma with a supported sample size, and square sampling whenever
      width and height trade places. */
  predicate Supported(transform: Kind, dst: VideoFormat, srcTrans: VideoFormat, chroma: Option<ChromaDescription>) {
    transform != Identity && dst == srcTrans && chroma.Some? &&
    KnownPixelSize(chroma.value.pixelSize) &&
    (IsSwap(transform) ==> SquareSampled(chroma.value))
  }

  /** Open. transform is the kind that turns the input orientation into
      the output one, srcTrans the input format with that kind applied,
      chroma the description of srcChroma if there is one, and
      sysAllocated whether memory for the configuration was obtained. */
  method Open(transform: Kind, srcChroma: FourCC, dst: VideoFormat, srcTrans: VideoFormat,
              chroma: Option<ChromaDescription>, sysAllocated: bool)
    returns (r: Result<FilterSys>)
    ensures r.Ok? <==> Supported(transform, dst, srcTrans, chroma) && sysAllocated
    ensures r == Err(ENoMem) <==> transform != Identity && dst == srcTrans && chroma.Some? && !sysAllocated
    ensures r.Err? ==> r.error == ENoMem || r.error == ENotSup
    ensures r.Ok? ==> ValidSys(r.value) && r.value.transform == transform
    ensures r.Ok? && chroma.value.pixelSize == 1 ==> r.value.plane[0] == Descriptions(transform).plane8
    ensures r.Ok? && chroma.value.pixelSize == 2 ==> r.value.plane[0] == Descriptions(transform).plane16
    ensures r.Ok? && chroma.value.pixelSize == 4 ==> r.value.plane[0] == Descriptions(transform).plane32
    ensures r.Ok? ==> forall i :: 2 <= i < PlaneMax ==> r.value.plane[i] == r.value.plane[0]
    ensures r.Ok? && (srcChroma == NV12 || srcChroma == NV21) ==> r.value.plane[1] == Descriptions(transform).plane16
    ensures r.Ok? && srcChroma != NV12 && srcChroma != NV21 ==> r.value.plane[1] == r.value.plane[0]
  {
    if transform == Identity {
      return Err(ENotSup);
    }
    if dst.chroma != srcTrans.chroma || dst.width != srcTrans.width ||
       dst.visibleWidth != srcTrans.visibleWidth || dst.height != srcTrans.height ||
       dst.visibleHeight != srcTrans.visibleHeight || dst.xOffset != srcTrans.xOffset ||
       dst.yOffset != srcTrans.yOffset
    {
      return Err(ENotSup);
    }
    if chroma.None? {
      return Err(ENotSup);
    }
    var c := chroma.value;
    if !sysAllocated {
      return Err(ENoMem);
    }
    var dsc := Descriptions(transform);
    var plane := new Primitive[PlaneMax];
    match c.pixelSize {
      case 1 => plane[0] := dsc.plane8;
      case 2 => plane[0] := dsc.plane16;
      case 4 => plane[0] := dsc.plane32;
      case _ => return Err(ENotSup);
    }
    ghost var first := plane[0];

    var i := 1;
    while i < PlaneMax
      invariant 1 <= i <= PlaneMax
      invariant plane[0] == first
      invariant forall j :: 1 <= j < i ==> plane[j] == first
    {
      plane[i] := plane[0];
      i := i + 1;
    }

    if IsSwap(transform) {
      var k := 0;
      while k < |c.planes|
        invariant 0 <= k <= |c.planes|
        invariant forall j :: 0 <= j < k ==> SquarePlane(c.planes[j])
      {
        if c.planes[k].w.num * c.planes[k].h.den != c.planes[k].h.num * c.planes[k].w.den {
          return Err(ENotSup);
        }
        k := k + 1;
      }
    }

    if srcChroma == NV12 || srcChroma == NV21 {
      plane[1] := dsc.plane16;
    }
    return Ok(FilterSys(transform, plane[..]));
  }
}

/** Filter: one input picture turned into one output picture, every plane
    through the primitive negotiated for it. */
module Frames {
  import opened Orientation
  import opened Planes
  import opened Dispatch
  import opened Negotiation

  /** plane_t: the samples, the bytes from one row to the next, the bytes
      of one visible row, the bytes of one sample and the visible rows. */
  datatype PlaneBuffer<T> = PlaneBuffer(pixels: array<T>, pitch: nat, visiblePitch: nat,
                                        pixelPitch: nat, visibleLines: nat)

  /** picture_t: its planes, with two ghost records of what happened to
      it: how often it was released, and the pictures whose properties
      were copied onto it. */
  class Picture<T> {
    const planes: seq<PlaneBuffer<T>>
    ghost var releases: nat
    ghost var propertiesFrom: seq<Picture<T>>

    constructor (planes: seq<PlaneBuffer<T>>)
      ensures this.planes == planes && releases == 0 && propertiesFrom == []
    {
      this.planes := planes;
      releases := 0;
      propertiesFrom := [];
    }
  }

  /** Samples in one visible row: i_visible_pitch / i_pixel_pitch. */
  function VisibleWidth<T>(s: PlaneBuffer<T>): nat
    requires s.pixelPitch > 0
  {
    s.visiblePitch / s.pixelPitch
  }

  /** Primitive p can run from plane s into plane d: the strides are
      whole samples, both buffers hold their visible rectangle, and the
      two are different buffers. */
  ghost predicate PlaneFits<T>(p: Primitive, d: PlaneBuffer<T>, s: PlaneBuffer<T>) {
    p.kind != Identity && s.pixelPitch > 0 && d.pixels != s.pixels &&
    d.pitch % p.size.Bytes() == 0 && s.pitch % p.size.Bytes() == 0 &&
    Fits(s.pixels.Length, Plane(s.pitch / p.size.Bytes()), VisibleWidth(s), s.visibleLines) &&
    Fits(d.pixels.Length, Plane(d.pitch / p.size.Bytes()),
         TransformedSize(p.kind, Size(VisibleWidth(s), s.visibleLines)).width,
         TransformedSize(p.kind, Size(VisibleWidth(s), s.visibleLines)).height)
  }

  /** Plane d holds plane s transformed by primitive p. */
  ghost predicate PlaneTransformed<T>(p: Primitive, d: PlaneBuffer<T>, s: PlaneBuffer<T>)
    requires s.pixelPitch > 0
    reads d.pixels, s.pixels
  {
    Transformed(p.kind, d.pixels[..], Plane(d.pitch / p.size.Bytes()),
                s.pixels[..], Plane(s.pitch / p.size.Bytes()), VisibleWidth(s), s.visibleLines)
  }

  /** Outside the rectangle primitive p writes, plane d is as it was. */
  ghost predicate PlaneKeepsRest<T>(p: Primitive, d: PlaneBuffer<T>, before: seq<T>, s: PlaneBuffer<T>)
    requires s.pixelPitch > 0
    reads d.pixels
  {
    |before| == d.pixels.Length &&
    forall k :: 0 <= k < d.pixels.Length &&
      !Covers(Plane(d.pitch / p.size.Bytes()), TransformedSize(p.kind, Size(VisibleWidth(s), s.visibleLines)).width,
              TransformedSize(p.kind, Size(VisibleWidth(s), s.visibleLines)).height, k)
      ==> d.pixels[k] == before[k]
  }

  /** The call of one plane's primitive in Filter, with the plane's own
      width in samples and its visible rows. */
  method TransformPlane<T>(p: Primitive, d: PlaneBuffer<T>, s: PlaneBuffer<T>)
    requires PlaneFits(p, d, s)
    modifies d.pixels
    ensures PlaneTransformed(p, d, s)
    ensures PlaneKeepsRest(p, d, old(d.pixels[..]), s)
  {
    Apply(p, d.pixels, d.pitch, s.pixels, s.pitch, VisibleWidth(s), s.visibleLines);
  }

  /** The output picture dst can receive the input src under sys: every
      plane of src has a fitting plane in dst, and the output planes are
      distinct buffers, distinct from every input plane. */
  ghost predicate CanFilter<T>(sys: FilterSys, dst: Picture<T>, src: Picture<T>) {
    ValidSys(sys) && |src.planes| <= PlaneMax && |src.planes| <= |dst.planes| &&
    (forall i :: 0 <= i < |src.planes| ==> PlaneFits(sys.plane[i], dst.planes[i], src.planes[i])) &&
    (forall i, j :: 0 <= i < j < |src.planes| ==> dst.planes[i].pixels != dst.planes[j].pixels) &&
    (forall i, j :: 0 <= i < |src.planes| && 0 <= j < |src.planes| ==> dst.planes[i].pixels != src.planes[j].pixels)
  }

  /** What Filter may change: the output picture and the buffers of its
      first n planes. */
  function Written<T>(p: Picture?<T>, n: nat): set<object> {
    if p == null then {} else {p} + set i | 0 <= i < n && i < |p.planes| :: p.planes[i].pixels
  }

  /** Filter. newPicture is what the picture allocator returned for the
      output, null when it failed. Whatever it returned, src is released
      exactly once and the result is that picture; when there is one,
      every plane of src has been transformed into it by the plane's
      primitive, and the properties of src copied onto it. */
  method Filter<T>(sys: FilterSys, src: Picture<T>, newPicture: Picture?<T>) returns (dst: Picture?<T>)
    requires ValidSys(sys) && |src.planes| <= PlaneMax
    requires newPicture != null ==> newPicture != src && CanFilter(sys, newPicture, src)
    modifies src, Written(newPicture, |src.planes|)
    ensures dst == newPicture
    ensures src.releases == old(src.releases) + 1
    ensures dst != src ==> src.propertiesFrom == old(src.propertiesFrom)
    ensures dst != null ==> dst.propertiesFrom == old(dst.propertiesFrom) + [src] && dst.releases == old(dst.releases)
    ensures dst != null ==> forall i :: 0 <= i < |src.planes| ==>
      src.planes[i].pixelPitch > 0 && PlaneTransformed(sys.plane[i], dst.planes[i], src.planes[i])
    ensures dst != null ==> forall i :: 0 <= i < |src.planes| ==>
      src.planes[i].pixelPitch > 0 &&
      PlaneKeepsRest(sys.plane[i], dst.planes[i], old(dst.planes[i].pixels[..]), src.planes[i])
  {
    dst := newPicture;
    if dst != null {
      var i := 0;
      while i < |src.planes|
        invariant 0 <= i <= |src.planes|
        invariant dst.propertiesFrom == old(dst.propertiesFrom) && dst.releases == old(dst.releases)
        invariant src.releases == old(src.releases) && src.propertiesFrom == old(src.propertiesFrom)
        invariant forall j :: 0 <= j < i ==> PlaneTransformed(sys.plane[j], dst.planes[j], src.planes[j])
        invariant forall j :: 0 <= j < i ==>
          PlaneKeepsRest(sys.plane[j], dst.planes[j], old(dst.planes[j].pixels[..]), src.planes[j])
        invariant forall j :: i <= j < |src.planes| ==> dst.planes[j].pixels[..] == old(dst.planes[j].pixels[..])
      {
        ghost var written := dst.planes[i].pixels;
        assert forall j :: 0 <= j < |src.planes| && j != i ==>
          dst.planes[j].pixels != written && src.planes[j].pixels != written;
        TransformPlane(sys.plane[i], dst.planes[i], src.planes[i]);
        i := i + 1;
      }
      dst.propertiesFrom := dst.propertiesFrom + [src];
    }
    src.releases := src.releases + 1;
  }
}

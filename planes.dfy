/** The plane transform primitives: seven geometric remappings of one 2-D
    plane of opaque samples into a separate destination buffer, with
    independent strides. One generic implementation stands for the 8, 16
    and 32-bit instances the source generates from one macro. */
module Planes {
  import opened Orientation

  /** Whether a walk steps forward or backward from one row to the next. */
  datatype Direction = Forward | Backward

  /** A base pointer and a signed stride, in samples: row r starts at
      start + r * Step(). A negated stride is a Backward walk. */
  datatype Walk = Walk(start: int, pitch: nat, dir: Direction) {

    function Step(): int {
      if dir == Forward then pitch else -(pitch as int)
    }

    function Row(r: int): int {
      start + r * Step()
    }

    function Cell(r: int, c: int): int {
      Row(r) + c
    }

    /** The same rows visited last to first: the base moved to row
        rows - 1 and the stride negated. */
    function Reversed(rows: int): (w: Walk)
      ensures w.pitch == pitch && w.dir != dir
    {
      Walk(Row(rows - 1), pitch, if dir == Forward then Backward else Forward)
    }
  }

  /** A plane walked forward from offset 0 with the given pitch, the way
      the frame hands each plane to a primitive. */
  function Plane(pitch: nat): Walk {
    Walk(0, pitch, Forward)
  }

  /** The buffer of length len holds every cell of rows rows of cols
      samples each under walk w, and rows do not overlap. */
  ghost predicate Fits(len: int, w: Walk, cols: nat, rows: nat) {
    cols <= w.pitch &&
    forall r, c :: 0 <= r < rows && 0 <= c < cols ==> 0 <= w.Cell(r, c) < len
  }

  /** Index i is one of the cells of the rectangle that walk w visits. */
  ghost predicate Covers(w: Walk, cols: nat, rows: nat, i: int) {
    exists r, c :: 0 <= r < rows && 0 <= c < cols && i == w.Cell(r, c)
  }

  // ---------------------------------------------------------------------
  // Index arithmetic

  lemma {:induction false} MulMonotone(a: int, b: int, p: nat)
    requires 0 <= a <= b
    ensures a * p <= b * p
    decreases b - a
  {
    if a < b {
      MulMonotone(a + 1, b, p);
      assert (a + 1) * p == a * p + p;
    }
  }

  /** Rows never reach further than the first and the last. */
  lemma RowBetween(w: Walk, rows: nat, r: int)
    requires 0 <= r < rows
    ensures w.dir == Forward ==> w.Row(0) <= w.Row(r) <= w.Row(rows - 1)
    ensures w.dir == Backward ==> w.Row(rows - 1) <= w.Row(r) <= w.Row(0)
  {
    MulMonotone(0, r, w.pitch);
    MulMonotone(r, rows - 1, w.pitch);
    assert w.Row(0) == w.start;
    if w.dir == Backward {
      assert r * w.Step() == -(r * w.pitch);
      assert (rows - 1) * w.Step() == -((rows - 1) * w.pitch);
    }
  }

  /** A walk fits a buffer as soon as its first and last rows do. */
  lemma FitsFromEnds(w: Walk, len: int, cols: nat, rows: nat)
    requires cols <= w.pitch
    requires rows > 0 ==> 0 <= w.Row(0) && w.Row(0) + cols <= len
    requires rows > 0 ==> 0 <= w.Row(rows - 1) && w.Row(rows - 1) + cols <= len
    ensures Fits(len, w, cols, rows)
  {
    forall r, c | 0 <= r < rows && 0 <= c < cols
      ensures 0 <= w.Cell(r, c) < len
    {
      RowBetween(w, rows, r);
    }
  }

  /** A plane walked forward from offset 0 fits a buffer that reaches
      past the last visible sample of its last row. */
  lemma PlaneFitsBuffer(pitch: nat, len: int, cols: nat, rows: nat)
    requires cols <= pitch
    requires rows > 0 ==> (rows - 1) * pitch + cols <= len
    ensures Fits(len, Plane(pitch), cols, rows)
  {
    if rows > 0 {
      MulMonotone(0, rows - 1, pitch);
      assert Plane(pitch).Row(rows - 1) == (rows - 1) * pitch;
    }
    FitsFromEnds(Plane(pitch), len, cols, rows);
  }

  /** Two cells in different rows are different indices: rows are at
      least a pitch apart and a row is at most a pitch wide. */
  lemma CellsDistinct(w: Walk, cols: nat, r: int, c: int, r': int, c': int)
    requires cols <= w.pitch
    requires 0 <= c < cols && 0 <= c' < cols && r != r'
    ensures w.Cell(r, c) != w.Cell(r', c')
  {
    var a := if r < r' then r' - r else r - r';
    MulMonotone(1, a, w.pitch);
    assert w.Row(r') - w.Row(r) == (r' - r) * w.Step();
    if r < r' {
      assert (r' - r) * w.Step() == if w.dir == Forward then a * w.pitch else -(a * w.pitch);
    } else {
      assert (r' - r) * w.Step() == if w.dir == Forward then -(a * w.pitch) else a * w.pitch;
    }
  }

  /** The only cell of the rectangle at the index of cell (r, c) is (r, c). */
  lemma CellUnique(w: Walk, cols: nat, rows: nat, r: int, c: int)
    requires cols <= w.pitch && 0 <= c < cols
    ensures forall r', c' :: 0 <= r' < rows && 0 <= c' < cols && w.Cell(r', c') == w.Cell(r, c) ==> r' == r && c' == c
  {
    forall r', c' | 0 <= r' < rows && 0 <= c' < cols && w.Cell(r', c') == w.Cell(r, c)
      ensures r' == r && c' == c
    {
      if r' != r {
        CellsDistinct(w, cols, r, c, r', c');
      }
    }
  }

  /** No cell of another row lies inside row r's span of cols samples. */
  lemma RowApart(w: Walk, cols: nat, rows: nat, r: int)
    requires cols <= w.pitch
    ensures forall r', c' :: 0 <= r' < rows && 0 <= c' < cols && r' != r ==>
      !(w.Row(r) <= w.Cell(r', c') < w.Row(r) + cols)
  {
    forall r', c' | 0 <= r' < rows && 0 <= c' < cols && r' != r
      ensures !(w.Row(r) <= w.Cell(r', c') < w.Row(r) + cols)
    {
      if w.Row(r) <= w.Cell(r', c') < w.Row(r) + cols {
        var k := w.Cell(r', c') - w.Row(r);
        assert w.Cell(r, k) == w.Cell(r', c');
        CellsDistinct(w, cols, r, k, r', c');
      }
    }
  }

  /** One stride on from row r is row r + 1. */
  lemma RowNext(w: Walk, r: int)
    ensures w.Row(r + 1) == w.Row(r) + w.Step()
  {
    assert (r + 1) * w.Step() == r * w.Step() + w.Step();
  }

  /** Walking the reversed rows visits row rows - 1 - r at step r. */
  lemma ReversedRow(w: Walk, rows: int, r: int)
    ensures w.Reversed(rows).Row(r) == w.Row(rows - 1 - r)
  {
    var v := w.Reversed(rows);
    assert v.Step() == -w.Step();
    assert v.Row(r) == w.start + (rows - 1) * w.Step() - r * w.Step();
    assert (rows - 1) * w.Step() - r * w.Step() == (rows - 1 - r) * w.Step();
  }

  /** A reversed walk fits wherever the walk fits, over the same cells. */
  lemma ReversedFits(w: Walk, len: int, cols: nat, rows: nat)
    requires Fits(len, w, cols, rows)
    ensures Fits(len, w.Reversed(rows), cols, rows)
    ensures forall i :: Covers(w.Reversed(rows), cols, rows, i) ==> Covers(w, cols, rows, i)
  {
    forall r, c | 0 <= r < rows && 0 <= c < cols
      ensures 0 <= w.Reversed(rows).Cell(r, c) < len
    {
      ReversedRow(w, rows, r);
      assert w.Reversed(rows).Cell(r, c) == w.Cell(rows - 1 - r, c);
    }
    forall i | Covers(w.Reversed(rows), cols, rows, i)
      ensures Covers(w, cols, rows, i)
    {
      var r, c :| 0 <= r < rows && 0 <= c < cols && i == w.Reversed(rows).Cell(r, c);
      ReversedRow(w, rows, r);
      assert i == w.Cell(rows - 1 - r, c);
    }
  }

  // ---------------------------------------------------------------------
  // The primitives

  /** memcpy of one row: count samples from src at s to dst at d. */
  method CopyRow<T>(dst: array<T>, d: int, src: array<T>, s: int, count: nat)
    requires dst != src
    requires count > 0 ==> 0 <= d && d + count <= dst.Length && 0 <= s && s + count <= src.Length
    modifies dst
    ensures forall i :: d <= i < d + count ==> dst[i] == src[s + (i - d)]
    ensures forall i :: 0 <= i < dst.Length && !(d <= i < d + count) ==> dst[i] == old(dst[i])
  {
    var k := 0;
    while k < count
      invariant 0 <= k <= count
      invariant forall i :: d <= i < d + k ==> dst[i] == src[s + (i - d)]
      invariant forall i :: 0 <= i < dst.Length && !(d <= i < d + k) ==> dst[i] == old(dst[i])
    {
      dst[d + k] := src[s + k];
      k := k + 1;
    }
  }

  /** The inner loop of hflip: count samples from src at s written right
      to left into dst, ending at index d. */
  method ReverseRow<T>(dst: array<T>, d: int, src: array<T>, s: int, count: nat)
    requires dst != src
    requires count > 0 ==> 0 <= d - (count - 1) && d < dst.Length && 0 <= s && s + count <= src.Length
    modifies dst
    ensures forall i :: d - count < i <= d ==> dst[i] == src[s + (d - i)]
    ensures forall i :: 0 <= i < dst.Length && !(d - count < i <= d) ==> dst[i] == old(dst[i])
  {
    var x := 0;
    while x < count
      invariant 0 <= x <= count
      invariant forall i :: d - x < i <= d ==> dst[i] == src[s + (d - i)]
      invariant forall i :: 0 <= i < dst.Length && !(d - x < i <= d) ==> dst[i] == old(dst[i])
    {
      dst[d - x] := src[s + x];
      x := x + 1;
    }
  }

  /** Index i inside the span of row r is a cell of the rectangle. */
  lemma InRowCovers(w: Walk, cols: nat, rows: nat, r: int, i: int)
    requires 0 <= r < rows && w.Row(r) <= i < w.Row(r) + cols
    ensures Covers(w, cols, rows, i)
  {
    assert i == w.Cell(r, i - w.Row(r));
  }

  /** hflip: each row reversed in place of the same row. */
  method HFlipPlane<T>(dst: array<T>, dw: Walk, src: array<T>, sw: Walk, width: nat, height: nat)
    requires dst != src
    requires Fits(dst.Length, dw, width, height) && Fits(src.Length, sw, width, height)
    modifies dst
    ensures forall y, x :: 0 <= y < height && 0 <= x < width ==>
      dst[dw.Cell(y, width - 1 - x)] == src[sw.Cell(y, x)]
    ensures forall i :: 0 <= i < dst.Length && !Covers(dw, width, height, i) ==> dst[i] == old(dst[i])
  {
    var s := sw.Row(0);
    var d := dw.Row(0) + width - 1;
    var y := 0;
    while y < height
      invariant 0 <= y <= height
      invariant s == sw.Row(y) && d == dw.Row(y) + width - 1
      invariant forall y', x' :: 0 <= y' < y && 0 <= x' < width ==>
        dst[dw.Cell(y', width - 1 - x')] == src[sw.Cell(y', x')]
      invariant forall i :: 0 <= i < dst.Length && !Covers(dw, width, height, i) ==> dst[i] == old(dst[i])
    {
      if width > 0 {
        assert dw.Cell(y, 0) >= 0 && dw.Cell(y, width - 1) < dst.Length;
        assert sw.Cell(y, 0) >= 0 && sw.Cell(y, width - 1) < src.Length;
      }
      ghost var before := dst[..];
      ReverseRow(dst, d, src, s, width);
      RowApart(dw, width, height, y);
      forall i | 0 <= i < dst.Length && !Covers(dw, width, height, i)
        ensures dst[i] == before[i]
      {
        if d - width < i <= d {
          InRowCovers(dw, width, height, y, i);
        }
      }
      forall x' | 0 <= x' < width
        ensures dst[dw.Cell(y, width - 1 - x')] == src[sw.Cell(y, x')]
      {
        assert dw.Cell(y, width - 1 - x') == d - x';
      }
      RowNext(sw, y);
      RowNext(dw, y);
      s := s + sw.Step();
      d := d + dw.Step();
      y := y + 1;
    }
  }

  /** vflip: rows relocated bottom to top, each copied whole in one
      row copy, so the order of samples within a row is unchanged. */
  method VFlipPlane<T>(dst: array<T>, dw: Walk, src: array<T>, sw: Walk, width: nat, height: nat)
    requires dst != src
    requires Fits(dst.Length, dw, width, height) && Fits(src.Length, sw, width, height)
    modifies dst
    ensures forall y, x :: 0 <= y < height && 0 <= x < width ==>
      dst[dw.Cell(height - 1 - y, x)] == src[sw.Cell(y, x)]
    ensures forall i :: 0 <= i < dst.Length && !Covers(dw, width, height, i) ==> dst[i] == old(dst[i])
  {
    var d := dw.Row(height);
    var s := sw.Row(0);
    var y := 0;
    while y < height
      invariant 0 <= y <= height
      invariant d == dw.Row(height - y) && s == sw.Row(y)
      invariant forall y', x' :: 0 <= y' < y && 0 <= x' < width ==>
        dst[dw.Cell(height - 1 - y', x')] == src[sw.Cell(y', x')]
      invariant forall i :: 0 <= i < dst.Length && !Covers(dw, width, height, i) ==> dst[i] == old(dst[i])
    {
      RowNext(dw, height - 1 - y);
      d := d - dw.Step();
      if width > 0 {
        assert dw.Cell(height - 1 - y, 0) >= 0 && dw.Cell(height - 1 - y, width - 1) < dst.Length;
        assert sw.Cell(y, 0) >= 0 && sw.Cell(y, width - 1) < src.Length;
      }
      ghost var before := dst[..];
      CopyRow(dst, d, src, s, width);
      RowApart(dw, width, height, height - 1 - y);
      forall i | 0 <= i < dst.Length && !Covers(dw, width, height, i)
        ensures dst[i] == before[i]
      {
        if d <= i < d + width {
          InRowCovers(dw, width, height, height - 1 - y, i);
        }
      }
      forall x' | 0 <= x' < width
        ensures dst[dw.Cell(height - 1 - y, x')] == src[sw.Cell(y, x')]
      {
        assert dw.Cell(height - 1 - y, x') == d + x';
      }
      RowNext(sw, y);
      s := s + sw.Step();
      y := y + 1;
    }
  }

  /** transpose: source row y becomes destination column y; the
      destination is src_height samples wide and src_width rows tall. */
  method TransposePlane<T>(dst: array<T>, dw: Walk, src: array<T>, sw: Walk, srcWidth: nat, srcHeight: nat)
    requires dst != src
    requires Fits(dst.Length, dw, srcHeight, srcWidth) && Fits(src.Length, sw, srcWidth, srcHeight)
    modifies dst
    ensures forall y, x :: 0 <= y < srcHeight && 0 <= x < srcWidth ==>
      dst[dw.Cell(x, y)] == src[sw.Cell(y, x)]
    ensures forall i :: 0 <= i < dst.Length && !Covers(dw, srcHeight, srcWidth, i) ==> dst[i] == old(dst[i])
  {
    var s := sw.Row(0);
    var d := dw.start;
    var y := 0;
    while y < srcHeight
      invariant 0 <= y <= srcHeight
      invariant s == sw.Row(y) && d == dw.start + y
      invariant forall y', x' :: 0 <= y' < y && 0 <= x' < srcWidth ==>
        dst[dw.Cell(x', y')] == src[sw.Cell(y', x')]
      invariant forall i :: 0 <= i < dst.Length && !Covers(dw, srcHeight, srcWidth, i) ==> dst[i] == old(dst[i])
    {
      var x := 0;
      while x < srcWidth
        invariant 0 <= x <= srcWidth
        invariant forall y', x' :: 0 <= y' < y && 0 <= x' < srcWidth ==>
          dst[dw.Cell(x', y')] == src[sw.Cell(y', x')]
        invariant forall x' :: 0 <= x' < x ==> dst[dw.Cell(x', y)] == src[sw.Cell(y, x')]
        invariant forall i :: 0 <= i < dst.Length && !Covers(dw, srcHeight, srcWidth, i) ==> dst[i] == old(dst[i])
      {
        assert d + x * dw.Step() == dw.Cell(x, y);
        assert s + x == sw.Cell(y, x);
        CellUnique(dw, srcHeight, srcWidth, x, y);
        dst[d + x * dw.Step()] := src[s + x];
        x := x + 1;
      }
      RowNext(sw, y);
      s := s + sw.Step();
      d := d + 1;
      y := y + 1;
    }
  }

  /** r180: hflip of the source read bottom up (base at the last source
      row, stride negated). */
  method R180Plane<T>(dst: array<T>, dw: Walk, src: array<T>, sw: Walk, width: nat, height: nat)
    requires dst != src
    requires Fits(dst.Length, dw, width, height) && Fits(src.Length, sw, width, height)
    modifies dst
    ensures forall y, x :: 0 <= y < height && 0 <= x < width ==>
      dst[dw.Cell(height - 1 - y, width - 1 - x)] == src[sw.Cell(y, x)]
    ensures forall i :: 0 <= i < dst.Length && !Covers(dw, width, height, i) ==> dst[i] == old(dst[i])
  {
    ReversedFits(sw, src.Length, width, height);
    HFlipPlane(dst, dw, src, sw.Reversed(height), width, height);
    forall y, x | 0 <= y < height && 0 <= x < width
      ensures dst[dw.Cell(height - 1 - y, width - 1 - x)] == src[sw.Cell(y, x)]
    {
      ReversedRow(sw, height, height - 1 - y);
      assert sw.Reversed(height).Cell(height - 1 - y, x) == sw.Cell(y, x);
    }
  }

  /** r270: transpose into the destination walked from its last row up
      (base at destination row src_width - 1, stride negated). */
  method R270Plane<T>(dst: array<T>, dw: Walk, src: array<T>, sw: Walk, srcWidth: nat, srcHeight: nat)
    requires dst != src
    requires Fits(dst.Length, dw, srcHeight, srcWidth) && Fits(src.Length, sw, srcWidth, srcHeight)
    modifies dst
    ensures forall y, x :: 0 <= y < srcHeight && 0 <= x < srcWidth ==>
      dst[dw.Cell(srcWidth - 1 - x, y)] == src[sw.Cell(y, x)]
    ensures forall i :: 0 <= i < dst.Length && !Covers(dw, srcHeight, srcWidth, i) ==> dst[i] == old(dst[i])
  {
    ReversedFits(dw, dst.Length, srcHeight, srcWidth);
    TransposePlane(dst, dw.Reversed(srcWidth), src, sw, srcWidth, srcHeight);
    forall y, x | 0 <= y < srcHeight && 0 <= x < srcWidth
      ensures dst[dw.Cell(srcWidth - 1 - x, y)] == src[sw.Cell(y, x)]
    {
      ReversedRow(dw, srcWidth, x);
      assert dw.Reversed(srcWidth).Cell(x, y) == dw.Cell(srcWidth - 1 - x, y);
    }
  }

  /** r90: transpose of the source read bottom up (base at the last source
      row, stride negated). */
  method R90Plane<T>(dst: array<T>, dw: Walk, src: array<T>, sw: Walk, srcWidth: nat, srcHeight: nat)
    requires dst != src
    requires Fits(dst.Length, dw, srcHeight, srcWidth) && Fits(src.Length, sw, srcWidth, srcHeight)
    modifies dst
    ensures forall y, x :: 0 <= y < srcHeight && 0 <= x < srcWidth ==>
      dst[dw.Cell(x, srcHeight - 1 - y)] == src[sw.Cell(y, x)]
    ensures forall i :: 0 <= i < dst.Length && !Covers(dw, srcHeight, srcWidth, i) ==> dst[i] == old(dst[i])
  {
    ReversedFits(sw, src.Length, srcWidth, srcHeight);
    TransposePlane(dst, dw, src, sw.Reversed(srcHeight), srcWidth, srcHeight);
    forall y, x | 0 <= y < srcHeight && 0 <= x < srcWidth
      ensures dst[dw.Cell(x, srcHeight - 1 - y)] == src[sw.Cell(y, x)]
    {
      ReversedRow(sw, srcHeight, srcHeight - 1 - y);
      assert sw.Reversed(srcHeight).Cell(srcHeight - 1 - y, x) == sw.Cell(y, x);
    }
  }

  /** antitranspose: r270 of the source read bottom up (base at the last
      source row, stride negated). */
  method AntiTransposePlane<T>(dst: array<T>, dw: Walk, src: array<T>, sw: Walk, srcWidth: nat, srcHeight: nat)
    requires dst != src
    requires Fits(dst.Length, dw, srcHeight, srcWidth) && Fits(src.Length, sw, srcWidth, srcHeight)
    modifies dst
    ensures forall y, x :: 0 <= y < srcHeight && 0 <= x < srcWidth ==>
      dst[dw.Cell(srcWidth - 1 - x, srcHeight - 1 - y)] == src[sw.Cell(y, x)]
    ensures forall i :: 0 <= i < dst.Length && !Covers(dw, srcHeight, srcWidth, i) ==> dst[i] == old(dst[i])
  {
    ReversedFits(sw, src.Length, srcWidth, srcHeight);
    R270Plane(dst, dw, src, sw.Reversed(srcHeight), srcWidth, srcHeight);
    forall y, x | 0 <= y < srcHeight && 0 <= x < srcWidth
      ensures dst[dw.Cell(srcWidth - 1 - x, srcHeight - 1 - y)] == src[sw.Cell(y, x)]
    {
      ReversedRow(sw, srcHeight, srcHeight - 1 - y);
      assert sw.Reversed(srcHeight).Cell(srcHeight - 1 - y, x) == sw.Cell(y, x);
    }
  }

  // ---------------------------------------------------------------------
  // The cell equations of all kinds at once

  /** dst under walk dw holds src under walk sw transformed by k: the
      sample at column x, row y of the width by height source lands at
      Target(k, (x, y)) in the destination. */
  ghost predicate Transformed<T>(k: Kind, dst: seq<T>, dw: Walk, src: seq<T>, sw: Walk, width: nat, height: nat) {
    forall y, x :: 0 <= y < height && 0 <= x < width ==> Moved(k, dst, dw, src, sw, width, height, x, y)
  }

  /** The sample at column x, row y of src is where k sends it in dst. */
  ghost predicate Moved<T>(k: Kind, dst: seq<T>, dw: Walk, src: seq<T>, sw: Walk, width: nat, height: nat, x: int, y: int) {
    var q := Target(k, Point(x, y), Size(width, height));
    0 <= dw.Cell(q.y, q.x) < |dst| && 0 <= sw.Cell(y, x) < |src| &&
    dst[dw.Cell(q.y, q.x)] == src[sw.Cell(y, x)]
  }

  /** One instance of the cell equations. */
  lemma TransformedAt<T>(k: Kind, dst: seq<T>, dw: Walk, src: seq<T>, sw: Walk, width: nat, height: nat, x: int, y: int)
    requires Transformed(k, dst, dw, src, sw, width, height)
    requires 0 <= y < height && 0 <= x < width
    ensures var q := Target(k, Point(x, y), Size(width, height));
      0 <= dw.Cell(q.y, q.x) < |dst| && 0 <= sw.Cell(y, x) < |src| &&
      dst[dw.Cell(q.y, q.x)] == src[sw.Cell(y, x)]
  {
    assert Moved(k, dst, dw, src, sw, width, height, x, y);
  }

  /** Transforming by k and then its inverse gives back the sample at
      column x, row y. */
  lemma TransformedTwiceAt<T>(k: Kind, a: seq<T>, aw: Walk, b: seq<T>, bw: Walk, c: seq<T>, cw: Walk,
                              width: nat, height: nat, x: int, y: int)
    requires Transformed(k, b, bw, a, aw, width, height)
    requires Transformed(Inverse(k), c, cw, b, bw,
                         TransformedSize(k, Size(width, height)).width,
                         TransformedSize(k, Size(width, height)).height)
    requires 0 <= y < height && 0 <= x < width
    ensures 0 <= cw.Cell(y, x) < |c| && 0 <= aw.Cell(y, x) < |a| && c[cw.Cell(y, x)] == a[aw.Cell(y, x)]
  {
    var s := Size(width, height);
    var t := TransformedSize(k, s);
    var q := Target(k, Point(x, y), s);
    TransformedAt(k, b, bw, a, aw, width, height, x, y);
    TargetThenInverse(k, Point(x, y), s);
    TransformedAt(Inverse(k), c, cw, b, bw, t.width, t.height, q.x, q.y);
  }

  /** Transforming by k and then its inverse gives back every visible
      sample: hflip, vflip, r180, transpose and antitranspose undo
      themselves, and r90 and r270 undo each other. */
  lemma TransformedTwice<T>(k: Kind, a: seq<T>, aw: Walk, b: seq<T>, bw: Walk, c: seq<T>, cw: Walk,
                            width: nat, height: nat)
    requires Transformed(k, b, bw, a, aw, width, height)
    requires Transformed(Inverse(k), c, cw, b, bw,
                         TransformedSize(k, Size(width, height)).width,
                         TransformedSize(k, Size(width, height)).height)
    ensures forall y, x :: 0 <= y < height && 0 <= x < width ==>
      0 <= cw.Cell(y, x) < |c| && 0 <= aw.Cell(y, x) < |a| && c[cw.Cell(y, x)] == a[aw.Cell(y, x)]
  {
    forall y, x | 0 <= y < height && 0 <= x < width
      ensures 0 <= cw.Cell(y, x) < |c| && 0 <= aw.Cell(y, x) < |a| && c[cw.Cell(y, x)] == a[aw.Cell(y, x)]
    {
      TransformedTwiceAt(k, a, aw, b, bw, c, cw, width, height, x, y);
    }
  }
}

/** The comparison of two captures of a render surface: how many pixels differ, and where. A mapped
    surface is its bytes and a row pitch, at least the bytes of one row, as D3D11 maps it. */
module ImageDifference {
  import opened Arithmetic
  import opened Common

  type byte = bv8

  const SIZE_MAX: nat := UINT64_SIZE - 1

  datatype BindDifference = BindDifference(
    valid: bool, changed: nat, total: nat, minX: nat, minY: nat, maxX: nat, maxY: nat)

  const NO_DIFFERENCE: BindDifference := BindDifference(false, 0, 0, 0, 0, 0, 0)

  datatype Mapped = Mapped(data: seq<byte>, rowPitch: nat)

  // ---------------------------------------------------------------------------------------
  // Sizes
  // ---------------------------------------------------------------------------------------

  /** The two guards of the source, each a division against the largest size. */
  predicate SizeAccepted(width: nat, height: nat, stride: nat) {
    && width != 0 && height != 0 && stride != 0
    && width <= SIZE_MAX / height
    && width * height <= SIZE_MAX / stride
  }

  /** The guards accept exactly the non-empty surfaces whose byte count is a size. */
  lemma SizeGuardsAreExact(width: nat, height: nat, stride: nat)
    ensures SizeAccepted(width, height, stride)
            <==> width > 0 && height > 0 && stride > 0 && width * height * stride < 0x1_0000_0000_0000_0000
  {
    if width > 0 && height > 0 && stride > 0 {
      var pixels := width * height;
      ScaleBound(SIZE_MAX, height, width);
      ScaleBound(SIZE_MAX, stride, pixels);
      Commutes(height, width);
      Commutes(stride, pixels);
      MulMonotone(1, stride, pixels);
    }
  }

  lemma Commutes(x: int, y: int)
    ensures x * y == y * x
  {
  }

  // ---------------------------------------------------------------------------------------
  // Images
  // ---------------------------------------------------------------------------------------

  ghost predicate Holds(m: Mapped, rowBytes: nat, height: nat) {
    m.rowPitch >= rowBytes && (height > 0 ==> (height - 1) * m.rowPitch + rowBytes <= |m.data|)
  }

  /** A surface without padding needs no more than its pixels. */
  lemma TightSurfaceHolds(data: seq<byte>, rowBytes: nat, height: nat)
    requires |data| == rowBytes * height
    ensures Holds(Mapped(data, rowBytes), rowBytes, height)
  {
  }

  lemma RowFits(m: Mapped, rowBytes: nat, height: nat, y: nat)
    requires Holds(m, rowBytes, height) && y < height
    ensures 0 <= y * m.rowPitch <= y * m.rowPitch + rowBytes <= |m.data|
  {
    MulMonotone(0, y, m.rowPitch);
    MulMonotone(y, height - 1, m.rowPitch);
  }

  function RowOf(m: Mapped, rowBytes: nat, height: nat, y: nat): (row: seq<byte>)
    requires Holds(m, rowBytes, height) && y < height
    ensures |row| == rowBytes
  {
    RowFits(m, rowBytes, height, y);
    m.data[y * m.rowPitch..y * m.rowPitch + rowBytes]
  }

  /** The rows of a mapped surface without the padding between them. */
  ghost function Rows(m: Mapped, rowBytes: nat, height: nat): (rows: seq<seq<byte>>)
    requires Holds(m, rowBytes, height)
    ensures |rows| == height && forall y | 0 <= y < height :: |rows[y]| == rowBytes
    ensures forall y | 0 <= y < height :: rows[y] == RowOf(m, rowBytes, height, y)
  {
    seq(height, y requires 0 <= y < height && Holds(m, rowBytes, height) => RowOf(m, rowBytes, height, y))
  }

  /** Rows laid out one after the other, each with so much padding after it. */
  function LaidOut(rows: seq<seq<byte>>, padding: nat): seq<byte> {
    if rows == [] then []
    else LaidOut(rows[..|rows| - 1], padding) + rows[|rows| - 1] + seq(padding, _ => 0)
  }

  lemma {:induction false} LaidOutAt(rows: seq<seq<byte>>, rowBytes: nat, padding: nat, y: nat)
    requires (forall k | 0 <= k < |rows| :: |rows[k]| == rowBytes) && y < |rows|
    ensures |LaidOut(rows, padding)| == |rows| * (rowBytes + padding)
    ensures 0 <= y * (rowBytes + padding) <= y * (rowBytes + padding) + rowBytes <= |LaidOut(rows, padding)|
    ensures LaidOut(rows, padding)[y * (rowBytes + padding)..y * (rowBytes + padding) + rowBytes] == rows[y]
  {
    var front, pitch := rows[..|rows| - 1], rowBytes + padding;
    var before := LaidOut(front, padding);
    LaidOutLength(front, rowBytes, padding);
    LaidOutLength(rows, rowBytes, padding);
    MulMonotone(0, y, pitch);
    MulMonotone(y + 1, |rows|, pitch);
    NextRow(y, pitch);
    if y < |rows| - 1 {
      LaidOutAt(front, rowBytes, padding, y);
      MulMonotone(y + 1, |rows| - 1, pitch);
      PrefixSlice(before, rows[|rows| - 1] + seq(padding, _ => 0), y * pitch, rowBytes);
      assert LaidOut(rows, padding) == before + (rows[|rows| - 1] + seq(padding, _ => 0));
    } else {
      MiddleSlice(before, rows[y], seq(padding, _ => 0));
    }
  }

  lemma NextRow(y: nat, pitch: nat)
    ensures (y + 1) * pitch == y * pitch + pitch
  {
  }

  lemma {:induction false} LaidOutLength(rows: seq<seq<byte>>, rowBytes: nat, padding: nat)
    requires forall k | 0 <= k < |rows| :: |rows[k]| == rowBytes
    ensures |LaidOut(rows, padding)| == |rows| * (rowBytes + padding)
  {
    if rows != [] {
      LaidOutLength(rows[..|rows| - 1], rowBytes, padding);
      NextRow(|rows| - 1, rowBytes + padding);
    }
  }

  lemma PrefixSlice(front: seq<byte>, rest: seq<byte>, start: nat, length: nat)
    requires start + length <= |front|
    ensures (front + rest)[start..start + length] == front[start..start + length]
  {
  }

  lemma MiddleSlice(front: seq<byte>, row: seq<byte>, rest: seq<byte>)
    ensures (front + row + rest)[|front|..|front| + |row|] == row
  {
  }

  /** Reading the rows of a surface gives back what was laid out, whatever the padding. */
  lemma RowsOfLaidOut(rows: seq<seq<byte>>, rowBytes: nat, padding: nat)
    requires forall k | 0 <= k < |rows| :: |rows[k]| == rowBytes
    ensures var m := Mapped(LaidOut(rows, padding), rowBytes + padding);
            Holds(m, rowBytes, |rows|) && Rows(m, rowBytes, |rows|) == rows
  {
    var m := Mapped(LaidOut(rows, padding), rowBytes + padding);
    hide LaidOut;
    if rows != [] {
      LaidOutAt(rows, rowBytes, padding, |rows| - 1);
    }
    forall y | 0 <= y < |rows|
      ensures Rows(m, rowBytes, |rows|)[y] == rows[y]
    {
      LaidOutAt(rows, rowBytes, padding, y);
    }
  }

  lemma PixelFits(width: nat, stride: nat, x: nat)
    requires x < width
    ensures 0 <= x * stride <= x * stride + stride <= width * stride
  {
    MulMonotone(0, x, stride);
    MulMonotone(x, width - 1, stride);
  }

  function Pixel(row: seq<byte>, width: nat, stride: nat, x: nat): (pixel: seq<byte>)
    requires |row| == width * stride && x < width
    ensures |pixel| == stride
  {
    PixelFits(width, stride, x);
    row[x * stride..x * stride + stride]
  }

  ghost predicate IsImage(rows: seq<seq<byte>>, width: nat, height: nat, stride: nat) {
    |rows| == height && forall y | 0 <= y < height :: |rows[y]| == width * stride
  }

  ghost predicate Differs(a: seq<seq<byte>>, b: seq<seq<byte>>, width: nat, height: nat, stride: nat, x: nat, y: nat)
    requires IsImage(a, width, height, stride) && IsImage(b, width, height, stride) && x < width && y < height
  {
    Pixel(a[y], width, stride, x) != Pixel(b[y], width, stride, x)
  }

  /** The differing pixels in the rows before `row`, and in `row` before `column`. */
  ghost function DifferingBefore(a: seq<seq<byte>>, b: seq<seq<byte>>, width: nat, height: nat, stride: nat,
                                 row: nat, column: nat): set<(nat, nat)>
    requires IsImage(a, width, height, stride) && IsImage(b, width, height, stride)
  {
    set x: nat, y: nat | x < width && y < height && (y < row || (y == row && x < column))
                         && Differs(a, b, width, height, stride, x, y) :: (x, y)
  }

  ghost function DifferingPixels(a: seq<seq<byte>>, b: seq<seq<byte>>, width: nat, height: nat, stride: nat)
    : set<(nat, nat)>
    requires IsImage(a, width, height, stride) && IsImage(b, width, height, stride)
  {
    set x: nat, y: nat | x < width && y < height && Differs(a, b, width, height, stride, x, y) :: (x, y)
  }

  /** The pixels of a row are all of it: they agree everywhere exactly when the rows do. */
  lemma EqualPixelsAreEqualRows(a: seq<byte>, b: seq<byte>, width: nat, stride: nat)
    requires |a| == |b| == width * stride && stride > 0
    ensures a == b <==> forall x | 0 <= x < width :: Pixel(a, width, stride, x) == Pixel(b, width, stride, x)
  {
    if forall x | 0 <= x < width :: Pixel(a, width, stride, x) == Pixel(b, width, stride, x) {
      forall k | 0 <= k < |a|
        ensures a[k] == b[k]
      {
        ByteInPixel(width, stride, k);
        var x: nat := k / stride;
        var start: nat := x * stride;
        BytesOfPixel(a, width, stride, x, start, k - start);
        BytesOfPixel(b, width, stride, x, start, k - start);
      }
    }
  }

  lemma ByteInPixel(width: nat, stride: nat, k: nat)
    requires stride > 0 && k < width * stride
    ensures 0 <= k / stride < width && 0 <= k / stride * stride <= k < k / stride * stride + stride
  {
    DivisionIdentity(k, stride);
    if k / stride >= width {
      MulMonotone(width, k / stride, stride);
    }
  }

  lemma PixelIsSlice(row: seq<byte>, width: nat, stride: nat, x: nat, start: nat)
    requires |row| == width * stride && x < width && start == x * stride
    ensures start + stride <= |row| && Pixel(row, width, stride, x) == row[start..start + stride]
  {
    PixelFits(width, stride, x);
  }

  lemma BytesOfPixel(row: seq<byte>, width: nat, stride: nat, x: nat, start: nat, i: nat)
    requires |row| == width * stride && x < width && start == x * stride && i < stride
    ensures start + i < |row| && Pixel(row, width, stride, x)[i] == row[start + i]
  {
    hide *;
    PixelIsSlice(row, width, stride, x, start);
    SliceAt(row, start, stride, i);
  }

  lemma SliceAt(row: seq<byte>, start: nat, length: nat, i: nat)
    requires start + length <= |row| && i < length
    ensures row[start..start + length][i] == row[start + i]
  {
  }

  /** No pixel differs exactly when the images are the same. */
  lemma NothingDiffersExactly(a: seq<seq<byte>>, b: seq<seq<byte>>, width: nat, height: nat, stride: nat)
    requires IsImage(a, width, height, stride) && IsImage(b, width, height, stride) && stride > 0
    ensures DifferingPixels(a, b, width, height, stride) == {} <==> a == b
  {
    hide Pixel;
    if DifferingPixels(a, b, width, height, stride) == {} {
      forall y | 0 <= y < height
        ensures a[y] == b[y]
      {
        EqualPixelsAreEqualRows(a[y], b[y], width, stride);
        forall x | 0 <= x < width
          ensures Pixel(a[y], width, stride, x) == Pixel(b[y], width, stride, x)
        {
          assert (x, y) !in DifferingPixels(a, b, width, height, stride);
        }
      }
    }
  }

  // ---------------------------------------------------------------------------------------
  // The running tally
  // ---------------------------------------------------------------------------------------

  datatype Tally = Tally(changed: nat, minX: nat, minY: nat, maxX: nat, maxY: nat) {
    function Add(x: nat, y: nat): Tally {
      Tally(changed + 1, Min(minX, x), Min(minY, y), Max(maxX, x), Max(maxY, y))
    }
  }

  /** Every side of the box touches a pixel, and no pixel lies outside. */
  ghost predicate TightBox(pixels: set<(nat, nat)>, minX: nat, minY: nat, maxX: nat, maxY: nat) {
    && (forall p | p in pixels :: minX <= p.0 <= maxX && minY <= p.1 <= maxY)
    && (exists p :: p in pixels && p.0 == minX)
    && (exists p :: p in pixels && p.1 == minY)
    && (exists p :: p in pixels && p.0 == maxX)
    && (exists p :: p in pixels && p.1 == maxY)
  }

  ghost predicate Summarizes(t: Tally, pixels: set<(nat, nat)>, width: nat, height: nat) {
    && t.changed == |pixels|
    && (pixels == {} ==> t == Tally(0, width, height, 0, 0))
    && (pixels != {} ==> TightBox(pixels, t.minX, t.minY, t.maxX, t.maxY))
  }

  lemma AddingKeepsSummary(t: Tally, pixels: set<(nat, nat)>, width: nat, height: nat, x: nat, y: nat)
    requires Summarizes(t, pixels, width, height) && x < width && y < height && (x, y) !in pixels
    ensures Summarizes(t.Add(x, y), pixels + {(x, y)}, width, height)
  {
    var t', grown := t.Add(x, y), pixels + {(x, y)};
    assert (x, y) in grown;
    if pixels != {} {
      var left :| left in pixels && left.0 == t.minX;
      var top :| top in pixels && top.1 == t.minY;
      var right :| right in pixels && right.0 == t.maxX;
      var bottom :| bottom in pixels && bottom.1 == t.maxY;
      assert left in grown && top in grown && right in grown && bottom in grown;
    }
  }

  // ---------------------------------------------------------------------------------------
  // The comparison
  // ---------------------------------------------------------------------------------------

  /** `memcpy` of one row. */
  method CopyRow(target: array<byte>, offset: nat, row: seq<byte>)
    requires offset + |row| <= target.Length
    modifies target
    ensures target[offset..offset + |row|] == row
    ensures forall k | 0 <= k < offset :: target[k] == old(target[k])
  {
    for i := 0 to |row|
      invariant forall k | 0 <= k < i :: target[offset + k] == row[k]
      invariant forall k | 0 <= k < offset :: target[k] == old(target[k])
    {
      target[offset + i] := row[i];
    }
  }

  ghost predicate Packed(baseline: seq<byte>, rows: seq<seq<byte>>, rowBytes: nat, n: nat)
    requires n <= |rows|
  {
    forall y | 0 <= y < n :: 0 <= y * rowBytes <= y * rowBytes + rowBytes <= |baseline|
                             && baseline[y * rowBytes..y * rowBytes + rowBytes] == rows[y]
  }

  lemma PackedStays(before: seq<byte>, after: seq<byte>, rows: seq<seq<byte>>, rowBytes: nat, n: nat)
    requires n < |rows| && |before| == |after| && n * rowBytes <= |after|
    requires Packed(before, rows, rowBytes, n)
    requires forall k | 0 <= k < n * rowBytes :: before[k] == after[k]
    ensures Packed(after, rows, rowBytes, n)
  {
    forall y | 0 <= y < n
      ensures 0 <= y * rowBytes <= y * rowBytes + rowBytes <= |after|
      ensures after[y * rowBytes..y * rowBytes + rowBytes] == rows[y]
    {
      MulMonotone(0, y, rowBytes);
      MulMonotone(y + 1, n, rowBytes);
      assert (y + 1) * rowBytes == y * rowBytes + rowBytes;
      assert before[y * rowBytes..y * rowBytes + rowBytes] == rows[y];
    }
  }

  method FillBaseline(m: Mapped, rowBytes: nat, height: nat) returns (baseline: array<byte>)
    requires Holds(m, rowBytes, height) && 0 <= rowBytes * height
    ensures Packed(baseline[..], Rows(m, rowBytes, height), rowBytes, height)
  {
    hide Holds, Rows, Packed, RowOf;
    baseline := new byte[rowBytes * height];
    NothingPacked(baseline[..], Rows(m, rowBytes, height), rowBytes);
    for row := 0 to height
      invariant Packed(baseline[..], Rows(m, rowBytes, height), rowBytes, row)
    {
      RowFits(m, rowBytes, height, row);
      PixelFits(height, rowBytes, row);
      Commutes(rowBytes, height);
      ghost var before := baseline[..];
      CopyRow(baseline, row * rowBytes, m.data[row * m.rowPitch..row * m.rowPitch + rowBytes]);
      PackedStays(before, baseline[..], Rows(m, rowBytes, height), rowBytes, row);
      PackedGrows(m, baseline[..], rowBytes, height, row);
    }
  }

  lemma NothingPacked(baseline: seq<byte>, rows: seq<seq<byte>>, rowBytes: nat)
    ensures Packed(baseline, rows, rowBytes, 0)
  {
  }

  lemma PackedGrows(m: Mapped, baseline: seq<byte>, rowBytes: nat, height: nat, n: nat)
    requires Holds(m, rowBytes, height) && n < height && Packed(baseline, Rows(m, rowBytes, height), rowBytes, n)
    requires 0 <= n * m.rowPitch <= n * m.rowPitch + rowBytes <= |m.data|
    requires 0 <= n * rowBytes <= n * rowBytes + rowBytes <= |baseline|
    requires baseline[n * rowBytes..n * rowBytes + rowBytes] == m.data[n * m.rowPitch..n * m.rowPitch + rowBytes]
    ensures Packed(baseline, Rows(m, rowBytes, height), rowBytes, n + 1)
  {
    assert Rows(m, rowBytes, height)[n] == RowOf(m, rowBytes, height, n);
  }

  /** The inner loop: tallies the differing pixels of one row. */
  method CompareRow(ghost a: seq<seq<byte>>, ghost b: seq<seq<byte>>, width: nat, ghost height: nat, stride: nat,
                    row: nat, previous: seq<byte>, current: seq<byte>, tally: Tally) returns (t: Tally)
    requires IsImage(a, width, height, stride) && IsImage(b, width, height, stride)
    requires row < height && previous == a[row] && current == b[row]
    requires Summarizes(tally, DifferingBefore(a, b, width, height, stride, row, 0), width, height)
    ensures Summarizes(t, DifferingBefore(a, b, width, height, stride, row + 1, 0), width, height)
  {
    hide Summarizes, Pixel, DifferingBefore;
    t := tally;
    for column := 0 to width
      invariant Summarizes(t, DifferingBefore(a, b, width, height, stride, row, column), width, height)
    {
      OneMorePixel(a, b, width, height, stride, row, column);
      if Pixel(current, width, stride, column) != Pixel(previous, width, stride, column) {
        AddingKeepsSummary(t, DifferingBefore(a, b, width, height, stride, row, column), width, height, column, row);
        t := t.Add(column, row);
      }
    }
    RowIsDone(a, b, width, height, stride, row);
  }

  lemma OneMorePixel(a: seq<seq<byte>>, b: seq<seq<byte>>, width: nat, height: nat, stride: nat, row: nat, column: nat)
    requires IsImage(a, width, height, stride) && IsImage(b, width, height, stride) && row < height && column < width
    ensures var seen := DifferingBefore(a, b, width, height, stride, row, column);
            && (column, row) !in seen
            && DifferingBefore(a, b, width, height, stride, row, column + 1)
               == if Differs(a, b, width, height, stride, column, row) then seen + {(column, row)} else seen
  {
    hide Differs;
  }

  lemma RowIsDone(a: seq<seq<byte>>, b: seq<seq<byte>>, width: nat, height: nat, stride: nat, row: nat)
    requires IsImage(a, width, height, stride) && IsImage(b, width, height, stride)
    ensures DifferingBefore(a, b, width, height, stride, row, width)
            == DifferingBefore(a, b, width, height, stride, row + 1, 0)
    ensures DifferingBefore(a, b, width, height, stride, 0, 0) == {}
    ensures DifferingBefore(a, b, width, height, stride, height, 0) == DifferingPixels(a, b, width, height, stride)
  {
    hide Differs;
  }

  /** A mapping that fails, or a baseline that cannot be allocated, is no comparison. Otherwise the count
      is the number of differing pixels and the box is tight around them, all zero when there are none. */
  method CompareSurface(width: nat, height: nat, stride: nat,
                        haveBaseline: bool, before: Option<Mapped>, after: Option<Mapped>) returns (d: BindDifference)
    requires before.Some? ==> Holds(before.value, width * stride, height)
    requires after.Some? ==> Holds(after.value, width * stride, height)
    ensures d.valid <==> SizeAccepted(width, height, stride) && haveBaseline && before.Some? && after.Some?
    ensures !d.valid ==> d == BindDifference(false, 0, 0, 0, 0, 0, 0)
    ensures d.valid ==>
              var pixels := DifferingPixels(Rows(before.value, width * stride, height),
                                            Rows(after.value, width * stride, height), width, height, stride);
              && d.changed == |pixels| && d.total == width * height
              && (if pixels == {} then d.minX == d.minY == d.maxX == d.maxY == 0
                  else TightBox(pixels, d.minX, d.minY, d.maxX, d.maxY))
  {
    if !SizeAccepted(width, height, stride) || !haveBaseline || before == None || after == None {
      return NO_DIFFERENCE;
    }
    var tally := TallySurface(width, height, stride, before.value, after.value);
    ghost var pixels := DifferingPixels(Rows(before.value, width * stride, height),
                                        Rows(after.value, width * stride, height), width, height, stride);
    hide SizeAccepted, DifferingPixels, Rows;
    if pixels != {} {
      BoxIsOrdered(pixels, tally);
    }
    return BindDifference(
      true, tally.changed, width * height,
      if tally.minX > tally.maxX then 0 else tally.minX,
      if tally.minY > tally.maxY then 0 else tally.minY,
      tally.maxX, tally.maxY);
  }

  lemma BoxIsOrdered(pixels: set<(nat, nat)>, t: Tally)
    requires pixels != {} && TightBox(pixels, t.minX, t.minY, t.maxX, t.maxY)
    ensures t.minX <= t.maxX && t.minY <= t.maxY
  {
    var p :| p in pixels;
  }

  method TallySurface(width: nat, height: nat, stride: nat, before: Mapped, after: Mapped) returns (tally: Tally)
    requires width > 0 && height > 0
    requires Holds(before, width * stride, height) && Holds(after, width * stride, height)
    ensures Summarizes(tally, DifferingPixels(Rows(before, width * stride, height),
                                              Rows(after, width * stride, height), width, height, stride),
                       width, height)
  {
    hide *;
    AreImages(width, height, stride, before, after);
    var rowBytes: nat := width * stride;
    ghost var a, b := Rows(before, rowBytes, height), Rows(after, rowBytes, height);
    var baseline := FillBaseline(before, rowBytes, height);
    tally := Tally(0, width, height, 0, 0);
    RowIsDone(a, b, width, height, stride, 0);
    EmptyTally(width, height);
    for row := 0 to height
      invariant Packed(baseline[..], a, rowBytes, height)
      invariant Summarizes(tally, DifferingBefore(a, b, width, height, stride, row, 0), width, height)
    {
      RowFits(after, rowBytes, height, row);
      PackedRow(baseline[..], a, rowBytes, row);
      RowContents(after, rowBytes, height, row);
      var previous := baseline[row * rowBytes..row * rowBytes + rowBytes];
      var current := after.data[row * after.rowPitch..row * after.rowPitch + rowBytes];
      tally := CompareRow(a, b, width, height, stride, row, previous, current, tally);
    }
    RowIsDone(a, b, width, height, stride, 0);
  }

  lemma AreImages(width: nat, height: nat, stride: nat, before: Mapped, after: Mapped)
    requires 0 <= width * stride && Holds(before, width * stride, height) && Holds(after, width * stride, height)
    ensures IsImage(Rows(before, width * stride, height), width, height, stride)
    ensures IsImage(Rows(after, width * stride, height), width, height, stride)
  {
  }

  lemma EmptyTally(width: nat, height: nat)
    ensures Summarizes(Tally(0, width, height, 0, 0), {}, width, height)
  {
  }

  lemma PackedRow(baseline: seq<byte>, rows: seq<seq<byte>>, rowBytes: nat, y: nat)
    requires y < |rows| && Packed(baseline, rows, rowBytes, |rows|)
    ensures 0 <= y * rowBytes <= y * rowBytes + rowBytes <= |baseline|
    ensures baseline[y * rowBytes..y * rowBytes + rowBytes] == rows[y]
  {
  }

  lemma RowContents(m: Mapped, rowBytes: nat, height: nat, y: nat)
    requires Holds(m, rowBytes, height) && y < height
    requires 0 <= y * m.rowPitch <= y * m.rowPitch + rowBytes <= |m.data|
    ensures Rows(m, rowBytes, height)[y] == m.data[y * m.rowPitch..y * m.rowPitch + rowBytes]
  {
  }
}

/** The camera reprojection transforms, as products of 4x4 matrices that act on row vectors.
    `float` is modelled as `real`; an entry counts as finite when a `float` could hold it. */
module CameraReprojection {
  import opened Common

  datatype Row = Row(x: real, y: real, z: real, w: real)
  datatype Matrix = Matrix(r0: Row, r1: Row, r2: Row, r3: Row)
  datatype Float3 = Float3(x: real, y: real, z: real)

  const FLOAT_MAX: real := 340282346638528859811704183484516925440.0

  const IDENTITY: Matrix := Translation(0.0, 0.0, 0.0)
  const ZERO: Matrix := var zero := Row(0.0, 0.0, 0.0, 0.0); Matrix(zero, zero, zero, zero)

  function Translation(x: real, y: real, z: real): Matrix {
    Matrix(Row(1.0, 0.0, 0.0, 0.0), Row(0.0, 1.0, 0.0, 0.0), Row(0.0, 0.0, 1.0, 0.0), Row(x, y, z, 1.0))
  }

  function Times(x: real, y: real): real {
    x * y
  }

  function Dot(u: Row, v: Row): real {
    Times(u.x, v.x) + Times(u.y, v.y) + Times(u.z, v.z) + Times(u.w, v.w)
  }

  /** The row vector `v` times the matrix `m`. */
  function Apply(v: Row, m: Matrix): Row {
    Row(Dot(v, Row(m.r0.x, m.r1.x, m.r2.x, m.r3.x)),
        Dot(v, Row(m.r0.y, m.r1.y, m.r2.y, m.r3.y)),
        Dot(v, Row(m.r0.z, m.r1.z, m.r2.z, m.r3.z)),
        Dot(v, Row(m.r0.w, m.r1.w, m.r2.w, m.r3.w)))
  }

  /** `XMMatrixMultiply`. */
  function Multiply(a: Matrix, b: Matrix): Matrix {
    Matrix(Apply(a.r0, b), Apply(a.r1, b), Apply(a.r2, b), Apply(a.r3, b))
  }

  predicate IsInverse(m: Matrix, n: Matrix) {
    Multiply(m, n) == IDENTITY && Multiply(n, m) == IDENTITY
  }

  predicate FiniteRow(v: Row) {
    Abs(v.x) <= FLOAT_MAX && Abs(v.y) <= FLOAT_MAX && Abs(v.z) <= FLOAT_MAX && Abs(v.w) <= FLOAT_MAX
  }

  predicate IsFinite(m: Matrix) {
    FiniteRow(m.r0) && FiniteRow(m.r1) && FiniteRow(m.r2) && FiniteRow(m.r3)
  }

  function Entries(m: Matrix): seq<real> {
    [m.r0.x, m.r0.y, m.r0.z, m.r0.w, m.r1.x, m.r1.y, m.r1.z, m.r1.w,
     m.r2.x, m.r2.y, m.r2.z, m.r2.w, m.r3.x, m.r3.y, m.r3.z, m.r3.w]
  }

  lemma EveryEntry(m: Matrix)
    ensures forall x :: x in Entries(m) <==> x in RowEntries(m.r0) || x in RowEntries(m.r1)
                                             || x in RowEntries(m.r2) || x in RowEntries(m.r3)
  {
    var e := Entries(m);
    assert e == RowEntries(m.r0) + RowEntries(m.r1) + RowEntries(m.r2) + RowEntries(m.r3);
    hide Entries, RowEntries;
  }

  function RowEntries(v: Row): seq<real> {
    [v.x, v.y, v.z, v.w]
  }

  lemma RowIsFinite(v: Row)
    ensures FiniteRow(v)
            <==> forall x | x in RowEntries(v) :: Abs(x) <= 340282346638528859811704183484516925440.0
  {
    assert v.x in RowEntries(v) && v.y in RowEntries(v) && v.z in RowEntries(v) && v.w in RowEntries(v);
    hide Abs;
  }

  /** A matrix is finite when a `float` could hold each of its sixteen entries. */
  lemma FiniteByEntries(m: Matrix)
    ensures IsFinite(m) <==> forall x | x in Entries(m) :: Abs(x) <= 340282346638528859811704183484516925440.0
  {
    EveryEntry(m);
    RowIsFinite(m.r0);
    RowIsFinite(m.r1);
    RowIsFinite(m.r2);
    RowIsFinite(m.r3);
    hide FiniteRow, Entries, RowEntries, Abs;
  }

  /** The zero matrix is the one whose sixteen entries are zero. */
  lemma ZeroByEntries(m: Matrix)
    ensures m == ZERO <==> forall x | x in Entries(m) :: x == 0.0
  {
    EveryEntry(m);
    RowIsZero(m.r0);
    RowIsZero(m.r1);
    RowIsZero(m.r2);
    RowIsZero(m.r3);
    hide Entries, RowEntries;
  }

  lemma RowIsZero(v: Row)
    ensures v == Row(0.0, 0.0, 0.0, 0.0) <==> forall x | x in RowEntries(v) :: x == 0.0
  {
    assert v.x in RowEntries(v) && v.y in RowEntries(v) && v.z in RowEntries(v) && v.w in RowEntries(v);
  }

  // ---------------------------------------------------------------------------------------
  // Matrix algebra
  // ---------------------------------------------------------------------------------------

  function Scale(k: real, v: Row): Row {
    Row(Times(k, v.x), Times(k, v.y), Times(k, v.z), Times(k, v.w))
  }

  function Add(u: Row, v: Row): Row {
    Row(u.x + v.x, u.y + v.y, u.z + v.z, u.w + v.w)
  }

  lemma DotScales(k: real, v: Row, c: Row)
    ensures Dot(Scale(k, v), c) == k * Dot(v, c)
  {
  }

  lemma DotAdds(u: Row, v: Row, c: Row)
    ensures Dot(Add(u, v), c) == Dot(u, c) + Dot(v, c)
  {
  }

  lemma ApplyCombinesRows(v: Row, m: Matrix)
    ensures Apply(v, m)
            == Add(Add(Add(Scale(v.x, m.r0), Scale(v.y, m.r1)), Scale(v.z, m.r2)), Scale(v.w, m.r3))
  {
    hide Times;
  }

  /** A vector taken through a matrix and one further column is the vector through their product. */
  lemma DotAssociates(v: Row, m: Matrix, c: Row)
    ensures Dot(Apply(v, m), c) == Dot(v, Row(Dot(m.r0, c), Dot(m.r1, c), Dot(m.r2, c), Dot(m.r3, c)))
  {
    var a, b, e, f := Scale(v.x, m.r0), Scale(v.y, m.r1), Scale(v.z, m.r2), Scale(v.w, m.r3);
    var d0, d1, d2, d3 := Dot(m.r0, c), Dot(m.r1, c), Dot(m.r2, c), Dot(m.r3, c);
    assert Dot(v, Row(d0, d1, d2, d3)) == v.x * d0 + v.y * d1 + v.z * d2 + v.w * d3;
    hide *;
    ApplyCombinesRows(v, m);
    DotAdds(Add(Add(a, b), e), f, c);
    DotAdds(Add(a, b), e, c);
    DotAdds(a, b, c);
    DotScales(v.x, m.r0, c);
    DotScales(v.y, m.r1, c);
    DotScales(v.z, m.r2, c);
    DotScales(v.w, m.r3, c);
  }

  lemma ApplyAssociates(v: Row, m: Matrix, n: Matrix)
    ensures Apply(Apply(v, m), n) == Apply(v, Multiply(m, n))
  {
    hide Dot;
    DotAssociates(v, m, Row(n.r0.x, n.r1.x, n.r2.x, n.r3.x));
    DotAssociates(v, m, Row(n.r0.y, n.r1.y, n.r2.y, n.r3.y));
    DotAssociates(v, m, Row(n.r0.z, n.r1.z, n.r2.z, n.r3.z));
    DotAssociates(v, m, Row(n.r0.w, n.r1.w, n.r2.w, n.r3.w));
  }

  lemma MultiplyAssociates(a: Matrix, b: Matrix, c: Matrix)
    ensures Multiply(Multiply(a, b), c) == Multiply(a, Multiply(b, c))
  {
    hide Apply;
    ApplyAssociates(a.r0, b, c);
    ApplyAssociates(a.r1, b, c);
    ApplyAssociates(a.r2, b, c);
    ApplyAssociates(a.r3, b, c);
  }

  lemma IdentityIsNeutral(m: Matrix)
    ensures Multiply(m, IDENTITY) == m == Multiply(IDENTITY, m)
  {
  }

  lemma TranslateRow(v: Row, x: real, y: real, z: real)
    ensures Apply(v, Translation(x, y, z)) == Row(v.x + v.w * x, v.y + v.w * y, v.z + v.w * z, v.w)
  {
  }

  lemma TranslationsAdd(a: Float3, b: Float3, c: Float3)
    ensures Multiply(Shift(a, b), Shift(b, c)) == Shift(a, c)
  {
    var x, y, z := b.x - c.x, b.y - c.y, b.z - c.z;
    hide Dot, Apply;
    var s := Shift(a, b);
    TranslateRow(s.r0, x, y, z);
    TranslateRow(s.r1, x, y, z);
    TranslateRow(s.r2, x, y, z);
    TranslateRow(s.r3, x, y, z);
  }

  lemma NoShift(a: Float3)
    ensures Shift(a, a) == IDENTITY
  {
  }

  lemma InverseIsUnique(m: Matrix, n: Matrix, n': Matrix)
    requires IsInverse(m, n) && IsInverse(m, n')
    ensures n == n'
  {
    hide *;
    IsInverseMeans(m, n);
    IsInverseMeans(m, n');
    MultiplyAssociates(n, m, n');
    IdentityIsNeutral(n);
    IdentityIsNeutral(n');
  }

  lemma IsInverseMeans(m: Matrix, n: Matrix)
    ensures IsInverse(m, n) <==> Multiply(m, n) == IDENTITY && Multiply(n, m) == IDENTITY
  {
  }

  // ---------------------------------------------------------------------------------------
  // Building the transforms
  // ---------------------------------------------------------------------------------------

  const FLOAT_MIN: real := 1.0 / 85070591730234615865843651857942052864.0

  /** The foreign matrix inversion: a determinant, and a matrix that is the inverse unless it is zero. */
  datatype Inversion = Inversion(determinant: real, inverse: Matrix)

  type Inverter = Matrix -> Inversion

  ghost predicate Inverts(invert: Inverter) {
    forall m :: invert(m).determinant != 0.0 ==> IsInverse(m, invert(m).inverse)
  }

  predicate IsUsableDeterminant(determinant: real) {
    FLOAT_MIN < Abs(determinant) <= FLOAT_MAX
  }

  lemma UsableIsNotZero(determinant: real)
    requires IsUsableDeterminant(determinant)
    ensures determinant != 0.0
  {
  }

  /** Past the smallest normal `float`, 2^-126, and not past the largest. */
  lemma UsableByBounds(determinant: real)
    ensures IsUsableDeterminant(determinant)
            <==> && Abs(determinant) * 85070591730234615865843651857942052864.0 > 1.0
                 && Abs(determinant) <= 340282346638528859811704183484516925440.0
  {
    var smallest := 1.0 / 85070591730234615865843651857942052864.0;
    assert smallest * 85070591730234615865843651857942052864.0 == 1.0;
  }

  /** Writes to its output, `inverse` before and `stored` after the call, before it tests what it wrote. */
  method InvertCameraMatrix(m: Matrix, inverse: Matrix, invert: Inverter) returns (ok: bool, stored: Matrix)
    requires Inverts(invert)
    ensures ok <==> IsUsableDeterminant(invert(m).determinant) && IsFinite(invert(m).inverse)
    ensures stored == if IsUsableDeterminant(invert(m).determinant) then invert(m).inverse else inverse
    ensures IsUsableDeterminant(invert(m).determinant) ==> IsInverse(m, stored)
  {
    hide IsUsableDeterminant, IsInverse, IsFinite;
    var inversion := invert(m);
    if !IsUsableDeterminant(inversion.determinant) {
      return false, inverse;
    }
    UsableIsNotZero(inversion.determinant);
    stored := inversion.inverse;
    ok := IsFinite(stored);
  }

  datatype Failure =
    | Success
    | InvalidClipToCameraView
    | InvalidCameraViewToWorld
    | InvalidPreviousViewProjection
    | InvalidClipToCurrentWorld
    | InvalidClipToPreviousClip
    | NoninvertibleClipToPreviousClip

  datatype Camera = Camera(clipToView: Matrix, viewToWorld: Matrix, positionAdjust: Float3)

  /** The translation from positions relative to `from` to positions relative to `to`. */
  function Shift(from: Float3, to: Float3): Matrix {
    Translation(from.x - to.x, from.y - to.y, from.z - to.z)
  }

  function ClipToWorld(camera: Camera): Matrix {
    Multiply(camera.clipToView, camera.viewToWorld)
  }

  /** Current clip space to the clip space of the camera that had this view-projection. */
  function Reproject(camera: Camera, viewProjection: Matrix, positionAdjust: Float3): Matrix {
    Multiply(Multiply(ClipToWorld(camera), Shift(camera.positionAdjust, positionAdjust)), viewProjection)
  }

  lemma IdentityIsUsable()
    ensures IsFinite(IDENTITY) && IsInverse(IDENTITY, IDENTITY)
  {
    hide Multiply;
    IdentityIsNeutral(IDENTITY);
  }

  lemma ReprojectMeans(camera: Camera, viewProjection: Matrix, adjust: Float3)
    ensures ClipToWorld(camera) == Multiply(camera.clipToView, camera.viewToWorld)
    ensures var shift := Translation(camera.positionAdjust.x - adjust.x, camera.positionAdjust.y - adjust.y,
                                     camera.positionAdjust.z - adjust.z);
            Reproject(camera, viewProjection, adjust)
            == Multiply(Multiply(Multiply(camera.clipToView, camera.viewToWorld), shift), viewProjection)
  {
  }

  predicate AreFinite(camera: Camera, viewProjection: Matrix) {
    IsFinite(camera.clipToView) && IsFinite(camera.viewToWorld) && IsFinite(viewProjection)
  }

  /** Finite inputs, with a camera before this one. */
  predicate HasHistory(camera: Camera, previousViewProjection: Matrix) {
    AreFinite(camera, previousViewProjection) && previousViewProjection != ZERO
  }

  predicate HasNoHistory(camera: Camera, previousViewProjection: Matrix) {
    AreFinite(camera, previousViewProjection) && previousViewProjection == ZERO
  }

  class CameraReprojectionMatrices {
    var clipToCameraView: Matrix
    var clipToPreviousClip: Matrix
    var previousClipToClip: Matrix
    var previousCameraUnavailable: bool

    constructor ()
      ensures clipToCameraView == clipToPreviousClip == previousClipToClip == ZERO && !previousCameraUnavailable
    {
      clipToCameraView, clipToPreviousClip, previousClipToClip := ZERO, ZERO, ZERO;
      previousCameraUnavailable := false;
    }

    method SetWithoutHistory(clipToView: Matrix)
      modifies this
      ensures clipToCameraView == clipToView && previousCameraUnavailable
      ensures clipToPreviousClip == previousClipToClip == IDENTITY
    {
      clipToCameraView := clipToView;
      clipToPreviousClip, previousClipToClip := IDENTITY, IDENTITY;
      previousCameraUnavailable := true;
    }

    /** Each failure leaves behind what was written before it; a zero previous view-projection means
        there is no history. The flag is only ever raised here, never lowered. */
    method Build(camera: Camera, previousViewProjection: Matrix, previousPositionAdjust: Float3, invert: Inverter)
      returns (failure: Failure)
      requires Inverts(invert)
      modifies this
      ensures failure == InvalidClipToCameraView <==> !IsFinite(camera.clipToView)
      ensures failure == InvalidCameraViewToWorld <==> IsFinite(camera.clipToView) && !IsFinite(camera.viewToWorld)
      ensures failure == InvalidPreviousViewProjection
              <==> IsFinite(camera.clipToView) && IsFinite(camera.viewToWorld) && !IsFinite(previousViewProjection)
      ensures failure == InvalidClipToCurrentWorld
              <==> HasHistory(camera, previousViewProjection) && !IsFinite(ClipToWorld(camera))
      ensures var reprojection := Reproject(camera, previousViewProjection, previousPositionAdjust);
              failure == InvalidClipToPreviousClip
              <==> && HasHistory(camera, previousViewProjection) && IsFinite(ClipToWorld(camera))
                   && !IsFinite(reprojection)
      ensures var reprojection := Reproject(camera, previousViewProjection, previousPositionAdjust);
              failure == NoninvertibleClipToPreviousClip
              <==> && HasHistory(camera, previousViewProjection) && IsFinite(ClipToWorld(camera))
                   && IsFinite(reprojection)
                   && !(IsUsableDeterminant(invert(reprojection).determinant) && IsFinite(invert(reprojection).inverse))
      ensures HasNoHistory(camera, previousViewProjection) ==>
                && failure == Success
                && clipToPreviousClip == previousClipToClip == IDENTITY && previousCameraUnavailable
      ensures failure in {InvalidClipToCameraView, InvalidCameraViewToWorld, InvalidPreviousViewProjection} ==>
                unchanged(this)
      ensures failure !in {InvalidClipToCameraView, InvalidCameraViewToWorld, InvalidPreviousViewProjection} ==>
                clipToCameraView == camera.clipToView
      ensures HasHistory(camera, previousViewProjection) ==> unchanged(`previousCameraUnavailable)
      ensures failure == InvalidClipToCurrentWorld ==> unchanged(`clipToPreviousClip) && unchanged(`previousClipToClip)
      ensures HasHistory(camera, previousViewProjection) && failure != InvalidClipToCurrentWorld ==>
                clipToPreviousClip == Reproject(camera, previousViewProjection, previousPositionAdjust)
      ensures failure == InvalidClipToPreviousClip ==> unchanged(`previousClipToClip)
      ensures failure == NoninvertibleClipToPreviousClip ==>
                if IsUsableDeterminant(invert(clipToPreviousClip).determinant) then
                  IsInverse(clipToPreviousClip, previousClipToClip) && !IsFinite(previousClipToClip)
                else unchanged(`previousClipToClip)
      ensures failure == Success ==>
                && IsFinite(clipToPreviousClip) && IsFinite(previousClipToClip)
                && IsInverse(clipToPreviousClip, previousClipToClip)
    {
      hide Multiply, IsFinite, IsInverse, ClipToWorld, Reproject, IsUsableDeterminant, Translation;
      IdentityIsUsable();
      ReprojectMeans(camera, previousViewProjection, previousPositionAdjust);
      if !IsFinite(camera.clipToView) {
        return InvalidClipToCameraView;
      }
      if !IsFinite(camera.viewToWorld) {
        return InvalidCameraViewToWorld;
      }
      if !IsFinite(previousViewProjection) {
        return InvalidPreviousViewProjection;
      }
      clipToCameraView := camera.clipToView;
      if previousViewProjection == ZERO {
        SetWithoutHistory(camera.clipToView);
        return Success;
      }
      var clipToCurrentWorld := Multiply(camera.clipToView, camera.viewToWorld);
      if !IsFinite(clipToCurrentWorld) {
        return InvalidClipToCurrentWorld;
      }
      var currentToPreviousOrigin := Translation(
        camera.positionAdjust.x - previousPositionAdjust.x,
        camera.positionAdjust.y - previousPositionAdjust.y,
        camera.positionAdjust.z - previousPositionAdjust.z);
      clipToPreviousClip := Multiply(Multiply(clipToCurrentWorld, currentToPreviousOrigin), previousViewProjection);
      if !IsFinite(clipToPreviousClip) {
        return InvalidClipToPreviousClip;
      }
      var ok, inverse := InvertCameraMatrix(clipToPreviousClip, previousClipToClip, invert);
      previousClipToClip := inverse;
      if !ok {
        return NoninvertibleClipToPreviousClip;
      }
      return Success;
    }
  }

  // ---------------------------------------------------------------------------------------
  // What the transforms mean
  // ---------------------------------------------------------------------------------------

  /** A world position, seen from the current camera, is reprojected to where the previous camera saw it. */
  lemma ReprojectionFollowsWorldPoints(camera: Camera, viewProjection: Matrix, point: Row,
                                       previousViewProjection: Matrix, previousPositionAdjust: Float3)
    requires IsInverse(viewProjection, ClipToWorld(camera))
    ensures Apply(Apply(point, viewProjection), Reproject(camera, previousViewProjection, previousPositionAdjust))
            == Apply(Apply(point, Shift(camera.positionAdjust, previousPositionAdjust)), previousViewProjection)
  {
    var c, s := ClipToWorld(camera), Shift(camera.positionAdjust, previousPositionAdjust);
    assert Reproject(camera, previousViewProjection, previousPositionAdjust)
        == Multiply(Multiply(c, s), previousViewProjection);
    IsInverseMeans(viewProjection, c);
    hide *;
    var clip := Apply(point, viewProjection);
    ApplyAssociates(clip, Multiply(c, s), previousViewProjection);
    ApplyAssociates(clip, c, s);
    ApplyAssociates(point, viewProjection, c);
    ApplyIdentity(point);
  }

  /** A world position as a camera with this position adjustment sees it. */
  function Relative(position: Float3, adjust: Float3): Row {
    Row(position.x - adjust.x, position.y - adjust.y, position.z - adjust.z, 1.0)
  }

  lemma ShiftMoves(position: Float3, from: Float3, to: Float3)
    ensures Apply(Relative(position, from), Shift(from, to)) == Relative(position, to)
  {
    TranslateRow(Relative(position, from), from.x - to.x, from.y - to.y, from.z - to.z);
  }

  /** What the current camera sees of a world position is reprojected to what the previous camera saw of it. */
  lemma ReprojectionFollowsPositions(camera: Camera, viewProjection: Matrix, position: Float3,
                                     previousViewProjection: Matrix, previousPositionAdjust: Float3)
    requires IsInverse(viewProjection, ClipToWorld(camera))
    ensures Apply(Apply(Relative(position, camera.positionAdjust), viewProjection),
                  Reproject(camera, previousViewProjection, previousPositionAdjust))
            == Apply(Relative(position, previousPositionAdjust), previousViewProjection)
  {
    hide *;
    ReprojectionFollowsWorldPoints(camera, viewProjection, Relative(position, camera.positionAdjust),
                                   previousViewProjection, previousPositionAdjust);
    ShiftMoves(position, camera.positionAdjust, previousPositionAdjust);
  }

  lemma ApplyIdentity(v: Row)
    ensures Apply(v, IDENTITY) == v
  {
  }

  /** With true inverses, reprojecting by one frame and then by another is reprojecting by both. */
  lemma ReprojectionComposes(current: Camera, previous: Camera, previousViewProjection: Matrix,
                             earlierViewProjection: Matrix, earlierPositionAdjust: Float3)
    requires IsInverse(previousViewProjection, ClipToWorld(previous))
    ensures Multiply(Reproject(current, previousViewProjection, previous.positionAdjust),
                     Reproject(previous, earlierViewProjection, earlierPositionAdjust))
            == Reproject(current, earlierViewProjection, earlierPositionAdjust)
  {
    var a, b, c := current.positionAdjust, previous.positionAdjust, earlierPositionAdjust;
    var w0, w1 := ClipToWorld(current), ClipToWorld(previous);
    IsInverseMeans(previousViewProjection, w1);
    TranslationsAdd(a, b, c);
    hide Multiply, IsInverse, ClipToWorld, Shift;
    Telescope(Multiply(w0, Shift(a, b)), previousViewProjection, w1, Shift(b, c), earlierViewProjection);
    MultiplyAssociates(w0, Shift(a, b), Shift(b, c));
  }

  lemma Telescope(a: Matrix, p: Matrix, w: Matrix, s: Matrix, e: Matrix)
    requires Multiply(p, w) == IDENTITY
    ensures Multiply(Multiply(a, p), Multiply(Multiply(w, s), e)) == Multiply(Multiply(a, s), e)
  {
    hide *;
    MultiplyAssociates(a, p, Multiply(Multiply(w, s), e));
    MultiplyAssociates(p, Multiply(w, s), e);
    MultiplyAssociates(p, w, s);
    IdentityIsNeutral(s);
    MultiplyAssociates(a, s, e);
  }

  /** A stationary camera reprojects every point onto itself. */
  lemma StationaryCameraIsIdentity(camera: Camera, viewProjection: Matrix)
    requires IsInverse(viewProjection, ClipToWorld(camera))
    ensures Reproject(camera, viewProjection, camera.positionAdjust) == IDENTITY
  {
    IsInverseMeans(viewProjection, ClipToWorld(camera));
    NoShift(camera.positionAdjust);
    hide Multiply, IsInverse, ClipToWorld, Shift;
    IdentityIsNeutral(ClipToWorld(camera));
  }

  /** Walking one frame forward again undoes the reprojection: it is the inverse the builder stores. */
  lemma ForwardReprojectionIsTheInverse(current: Camera, viewProjection: Matrix,
                                        previous: Camera, previousViewProjection: Matrix, stored: Matrix)
    requires IsInverse(viewProjection, ClipToWorld(current))
    requires IsInverse(previousViewProjection, ClipToWorld(previous))
    requires IsInverse(Reproject(current, previousViewProjection, previous.positionAdjust), stored)
    ensures stored == Reproject(previous, viewProjection, current.positionAdjust)
  {
    hide *;
    var back := Reproject(current, previousViewProjection, previous.positionAdjust);
    var forth := Reproject(previous, viewProjection, current.positionAdjust);
    ReprojectionComposes(current, previous, previousViewProjection, viewProjection, current.positionAdjust);
    ReprojectionComposes(previous, current, viewProjection, previousViewProjection, previous.positionAdjust);
    StationaryCameraIsIdentity(current, viewProjection);
    StationaryCameraIsIdentity(previous, previousViewProjection);
    IsInverseMeans(back, forth);
    InverseIsUnique(back, stored, forth);
  }
}

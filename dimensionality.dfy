/**
  The dimensionality of a structure (`StructureDataCore._get_dimensionality`)
  and the check that every periodic direction spans a non-degenerate
  length, surface or volume (`_validate_dimensionality`).

  Lengths, areas and volumes are kept squared, so no square root is needed:
  a measure is zero exactly when its square is. Cell coordinates are
  integers (a fixed grid) so that products of coordinates stay within what
  the verifier can reason about.
*/
module Dimensionality {
  import opened Common

  datatype Vec3 = Vec3(x: int, y: int, z: int)

  const Zero: Vec3 := Vec3(0, 0, 0)

  /** `_DEFAULT_CELL`: three zero vectors. */
  const DefaultCell: seq<Vec3> := [Zero, Zero, Zero]

  /** The default periodic boundary conditions: periodic along all three axes. */
  const DefaultPbc: seq<bool> := [true, true, true]

  function Dot(u: Vec3, v: Vec3): int {
    u.x * v.x + u.y * v.y + u.z * v.z
  }

  function Cross(u: Vec3, v: Vec3): Vec3 {
    Vec3(u.y * v.z - u.z * v.y, u.z * v.x - u.x * v.z, u.x * v.y - u.y * v.x)
  }

  /** The squared Euclidean norm; it vanishes exactly on the zero vector. */
  function NormSq(v: Vec3): (n: int)
    ensures n >= 0
    ensures n == 0 <==> v == Zero
  {
    SquareSign(v.x);
    SquareSign(v.y);
    SquareSign(v.z);
    v.x * v.x + v.y * v.y + v.z * v.z
  }

  lemma SquareSign(r: int)
    ensures r * r >= 0
    ensures r * r == 0 <==> r == 0
  {
  }

  /** `calc_cell_volume`, squared: the square of the triple product of the cell vectors. */
  function VolumeSq(cell: seq<Vec3>): (v: int)
    requires |cell| == 3
    ensures v >= 0
    ensures v == 0 <==> Dot(cell[0], Cross(cell[1], cell[2])) == 0
  {
    var t := Dot(cell[0], Cross(cell[1], cell[2]));
    SquareSign(t);
    t * t
  }

  /** The number of periodic axes, `len(pbc[pbc])`. */
  function CountTrue(pbc: seq<bool>): (n: nat)
    ensures n <= |pbc|
  {
    if |pbc| == 0 then 0 else CountTrue(pbc[..|pbc| - 1]) + (if pbc[|pbc| - 1] then 1 else 0)
  }

  /** `cell[pbc]`: the cell vectors along the periodic axes, in order. */
  function Periodic(pbc: seq<bool>, cell: seq<Vec3>): (vs: seq<Vec3>)
    requires |pbc| == |cell|
    ensures |vs| == CountTrue(pbc)
    ensures forall v :: v in vs ==> exists i :: 0 <= i < |cell| && pbc[i] && cell[i] == v
  {
    if |pbc| == 0 then []
    else
      var i := |pbc| - 1;
      Periodic(pbc[..i], cell[..i]) + (if pbc[i] then [cell[i]] else [])
  }

  /** `_dimensionality_label`. */
  function Label(dim: nat): string
    requires dim <= 3
  {
    if dim == 0 then "" else if dim == 1 then "length" else if dim == 2 then "surface" else "volume"
  }

  /** The dictionary `_get_dimensionality` returns, with the squared measure. */
  datatype DimensionalityInfo = DimensionalityInfo(dim: nat, name: string, measureSq: nat)

  /**
    `_get_dimensionality`: no measure for dimension 0, the length of the
    periodic vector for 1, the area it spans with the second for 2 and the
    cell volume for 3.
  */
  function GetDimensionality(pbc: seq<bool>, cell: seq<Vec3>): (d: DimensionalityInfo)
    requires |pbc| == 3 && |cell| == 3
    ensures d.dim == CountTrue(pbc) && d.dim <= 3 && d.name == Label(d.dim)
    ensures d.dim == 0 ==> d.measureSq == 0
  {
    var dim := CountTrue(pbc);
    var vs := Periodic(pbc, cell);
    if dim == 0 then DimensionalityInfo(0, Label(0), 0)
    else if dim == 1 then DimensionalityInfo(1, Label(1), NormSq(vs[0]))
    else if dim == 2 then DimensionalityInfo(2, Label(2), NormSq(Cross(vs[0], vs[1])))
    else DimensionalityInfo(3, Label(3), VolumeSq(cell))
  }

  datatype DimensionError = ZeroMeasure(dim: nat)

  /** `_validate_dimensionality`: a periodic structure needs a nonzero length, surface or volume. */
  function ValidateDimensionality(pbc: seq<bool>, cell: seq<Vec3>): (r: Result<(), DimensionError>)
    requires |pbc| == 3 && |cell| == 3
    ensures r.Err? ==> r.error == ZeroMeasure(CountTrue(pbc)) && CountTrue(pbc) > 0
  {
    var d := GetDimensionality(pbc, cell);
    if d.dim == 0 then Ok(())
    else if d.measureSq == 0 then Err(ZeroMeasure(d.dim))
    else Ok(())
  }

  // ----- Properties -----

  /**
    Validation fails exactly when the periodic vectors are degenerate: the one
    periodic vector is zero, the two are parallel (their cross product is
    zero), or the three are coplanar (their triple product is zero).
  */
  lemma ValidationFailsIffDegenerate(pbc: seq<bool>, cell: seq<Vec3>)
    requires |pbc| == 3 && |cell| == 3
    ensures var vs, dim := Periodic(pbc, cell), CountTrue(pbc);
      ValidateDimensionality(pbc, cell).Err? <==>
        || (dim == 1 && vs[0] == Zero)
        || (dim == 2 && Cross(vs[0], vs[1]) == Zero)
        || (dim == 3 && Dot(cell[0], Cross(cell[1], cell[2])) == 0)
  {
    var vs, dim := Periodic(pbc, cell), CountTrue(pbc);
    var d := GetDimensionality(pbc, cell);
    assert ValidateDimensionality(pbc, cell).Err? <==> dim > 0 && d.measureSq == 0;
    if dim == 1 {
      assert d.measureSq == NormSq(vs[0]);
    } else if dim == 2 {
      assert d.measureSq == NormSq(Cross(vs[0], vs[1]));
    } else if dim == 3 {
      assert d.measureSq == VolumeSq(cell);
    }
  }

  /** The `dim not in (0, 1, 2, 3)` error cannot happen: three axes give at most three periodic ones. */
  lemma DimensionAtMostThree(pbc: seq<bool>, cell: seq<Vec3>)
    requires |pbc| == 3 && |cell| == 3
    ensures GetDimensionality(pbc, cell).dim in {0, 1, 2, 3}
  {
  }

  /** A structure periodic along no axis always passes. */
  lemma NonPeriodicAlwaysValid(cell: seq<Vec3>)
    requires |cell| == 3
    ensures ValidateDimensionality([false, false, false], cell).Ok?
  {
    assert CountTrue([false, false, false]) == 0 by {
      assert [false, false, false][..2] == [false, false];
      assert [false, false][..1] == [false];
    }
  }

  /** The vectors along non-periodic axes do not affect the result. */
  lemma NonPeriodicVectorsIrrelevant(pbc: seq<bool>, cell: seq<Vec3>, other: seq<Vec3>)
    requires |pbc| == 3 && |cell| == 3 && |other| == 3
    requires forall i :: 0 <= i < 3 && pbc[i] ==> cell[i] == other[i]
    ensures GetDimensionality(pbc, cell) == GetDimensionality(pbc, other)
  {
    PeriodicOnlyReadsPeriodic(pbc, cell, other);
    if CountTrue(pbc) == 3 {
      AllPeriodic(pbc);
      assert cell == other;
    }
  }

  lemma {:induction false} PeriodicOnlyReadsPeriodic(pbc: seq<bool>, cell: seq<Vec3>, other: seq<Vec3>)
    requires |pbc| == |cell| == |other|
    requires forall i :: 0 <= i < |pbc| && pbc[i] ==> cell[i] == other[i]
    ensures Periodic(pbc, cell) == Periodic(pbc, other)
  {
    if |pbc| > 0 {
      var i := |pbc| - 1;
      PeriodicOnlyReadsPeriodic(pbc[..i], cell[..i], other[..i]);
    }
  }

  lemma {:induction false} AllPeriodic(pbc: seq<bool>)
    requires CountTrue(pbc) == |pbc|
    ensures forall i :: 0 <= i < |pbc| ==> pbc[i]
  {
    if |pbc| > 0 {
      AllPeriodic(pbc[..|pbc| - 1]);
      assert forall i :: 0 <= i < |pbc| - 1 ==> pbc[..|pbc| - 1][i] == pbc[i];
    }
  }

  /** A zero vector along a periodic axis always fails validation. */
  lemma ZeroPeriodicVectorFails(pbc: seq<bool>, cell: seq<Vec3>, i: nat)
    requires |pbc| == 3 && |cell| == 3 && i < 3 && pbc[i] && cell[i] == Zero
    ensures ValidateDimensionality(pbc, cell).Err?
  {
    var vs, dim := Periodic(pbc, cell), CountTrue(pbc);
    var d := GetDimensionality(pbc, cell);
    PeriodicContains(pbc, cell, i);
    if dim == 1 {
      assert vs[0] == Zero;
      assert d.measureSq == NormSq(Zero);
    } else if dim == 2 {
      assert vs[0] == Zero || vs[1] == Zero;
      CrossWithZero(vs[0], vs[1]);
      assert d.measureSq == NormSq(Zero);
    } else {
      TripleWithZero(cell[0], cell[1], cell[2]);
      assert d.measureSq == VolumeSq(cell);
    }
  }

  /** A surface spanned by two parallel periodic vectors (one an integer multiple of the other) fails validation. */
  lemma ParallelPeriodicVectorsFail(pbc: seq<bool>, cell: seq<Vec3>, k: int)
    requires |pbc| == 3 && |cell| == 3 && CountTrue(pbc) == 2
    requires var vs := Periodic(pbc, cell); vs[1] == Scale(k, vs[0])
    ensures ValidateDimensionality(pbc, cell).Err?
  {
    var vs := Periodic(pbc, cell);
    ValidationFailsIffDegenerate(pbc, cell);
    CrossWithMultiple(vs[0], k);
  }

  function Scale(k: int, v: Vec3): Vec3 {
    Vec3(k * v.x, k * v.y, k * v.z)
  }

  lemma CrossWithMultiple(v: Vec3, k: int)
    ensures Cross(v, Scale(k, v)) == Zero
  {
    assert v.y * (k * v.z) == v.z * (k * v.y);
    assert v.z * (k * v.x) == v.x * (k * v.z);
    assert v.x * (k * v.y) == v.y * (k * v.x);
  }

  lemma CrossWithZero(u: Vec3, v: Vec3)
    requires u == Zero || v == Zero
    ensures Cross(u, v) == Zero
  {
  }

  lemma TripleWithZero(u: Vec3, v: Vec3, w: Vec3)
    requires u == Zero || v == Zero || w == Zero
    ensures Dot(u, Cross(v, w)) == 0
  {
    if v == Zero || w == Zero {
      CrossWithZero(v, w);
      assert Cross(v, w) == Zero;
    }
  }

  lemma {:induction false} PeriodicContains(pbc: seq<bool>, cell: seq<Vec3>, i: nat)
    requires |pbc| == |cell| && i < |pbc| && pbc[i]
    ensures cell[i] in Periodic(pbc, cell)
  {
    var k := |pbc| - 1;
    if i < k {
      PeriodicContains(pbc[..k], cell[..k], i);
    }
  }

  /** With the default cell, every periodic structure fails validation. */
  lemma DefaultCellFailsWhenPeriodic(pbc: seq<bool>)
    requires |pbc| == 3 && CountTrue(pbc) > 0
    ensures ValidateDimensionality(pbc, DefaultCell).Err?
  {
    var i := SomePeriodic(pbc);
    assert DefaultCell[i] == Zero;
    ZeroPeriodicVectorFails(pbc, DefaultCell, i);
  }

  /** The defaults together fail as a three-dimensional structure of volume zero. */
  lemma DefaultsFailAsVolume()
    ensures ValidateDimensionality(DefaultPbc, DefaultCell) == Err(ZeroMeasure(3))
  {
    assert CountTrue(DefaultPbc) == 3 by {
      assert DefaultPbc[..2][..1] == [true];
    }
    DefaultCellFailsWhenPeriodic(DefaultPbc);
    var r := ValidateDimensionality(DefaultPbc, DefaultCell);
    assert r.Err? && r.error == ZeroMeasure(CountTrue(DefaultPbc));
  }

  lemma {:induction false} SomePeriodic(pbc: seq<bool>) returns (i: nat)
    requires CountTrue(pbc) > 0
    ensures i < |pbc| && pbc[i]
  {
    var k := |pbc| - 1;
    if pbc[k] {
      i := k;
    } else {
      i := SomePeriodic(pbc[..k]);
    }
  }
}

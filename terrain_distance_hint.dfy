/** The terrain distance hint mesh: a grid of `sizeX` by `sizeY` vertices,
    numbered row by row, and an index buffer holding two triangles per grid
    quad. Only the sizes and the index buffer are modelled; where the vertices
    are placed is not. */
module TerrainDistanceHint {
  import opened Numerics

  /** The two triangles of the quad whose first corner is vertex `v`:
      (v, v + sizeX, v + 1) and (v + 1, v + sizeX, v + sizeX + 1). */
  function Quad(v: int, sizeX: int): (q: seq<int>)
    ensures |q| == 6
  {
    [v, v + sizeX, v + 1, v + 1, v + sizeX, v + sizeX + 1]
  }

  /** The indices of the first `x` quads of the row that starts at vertex
      `firstIndex`. */
  function RowIndices(firstIndex: int, sizeX: int, x: nat): (r: seq<int>)
    ensures |r| == 6 * x
  {
    if x == 0 then [] else RowIndices(firstIndex, sizeX, x - 1) + Quad(firstIndex + x - 1, sizeX)
  }

  /** The first vertex of row `y`, `y * sizeX`, as the loop accumulates it. */
  function RowFirst(sizeX: nat, y: nat): nat {
    if y == 0 then 0 else RowFirst(sizeX, y - 1) + sizeX
  }

  lemma {:induction false} RowFirstIsProduct(sizeX: nat, y: nat)
    ensures RowFirst(sizeX, y) == y * sizeX
  {
    if y > 0 {
      RowFirstIsProduct(sizeX, y - 1);
    }
  }

  /** The indices of the first `rows` rows of quads. */
  function GridIndices(sizeX: nat, rows: nat): seq<int>
    requires sizeX >= 1
  {
    if rows == 0 then [] else GridIndices(sizeX, rows - 1) + RowIndices(RowFirst(sizeX, rows - 1), sizeX, sizeX - 1)
  }

  /** Six indices for each of the `sizeX - 1` quads of each row. */
  lemma {:induction false} GridLength(sizeX: nat, rows: nat)
    requires sizeX >= 1
    ensures |GridIndices(sizeX, rows)| == 6 * (rows * (sizeX - 1))
  {
    if rows > 0 {
      GridLength(sizeX, rows - 1);
      assert rows * (sizeX - 1) == (rows - 1) * (sizeX - 1) + (sizeX - 1);
    }
  }

  lemma Concatenation(a: seq<int>, b: seq<int>, c: seq<int>)
    requires |a| == |b| + |c|
    requires forall k :: 0 <= k < |b| ==> a[k] == b[k]
    requires forall k :: 0 <= k < |c| ==> a[|b| + k] == c[k]
    ensures a == b + c
  {
  }

  lemma RowStep(prefix: seq<int>, firstIndex: int, sizeX: int, x: nat)
    ensures prefix + RowIndices(firstIndex, sizeX, x + 1) ==
      (prefix + RowIndices(firstIndex, sizeX, x)) + Quad(firstIndex + x, sizeX)
  {
  }

  /** Quad `x` of a row holds the two triangles of vertex `firstIndex + x`. */
  lemma {:induction false} RowQuadAt(firstIndex: int, sizeX: int, n: nat, x: nat, c: nat)
    requires x < n && c < 6
    ensures RowIndices(firstIndex, sizeX, n)[6 * x + c] == Quad(firstIndex + x, sizeX)[c]
  {
    if x < n - 1 {
      RowQuadAt(firstIndex, sizeX, n - 1, x, c);
    }
  }

  /** Index-buffer entry `6 * (y * (sizeX - 1) + x) + c` is corner `c` of the
      quad whose first corner is vertex `v = y * sizeX + x`. */
  lemma {:induction false} GridQuadAt(sizeX: nat, rows: nat, y: nat, x: nat, c: nat)
    requires sizeX >= 1 && y < rows && x < sizeX - 1 && c < 6
    ensures 6 * (y * (sizeX - 1) + x) + c < |GridIndices(sizeX, rows)|
    ensures GridIndices(sizeX, rows)[6 * (y * (sizeX - 1) + x) + c] == Quad(y * sizeX + x, sizeX)[c]
  {
    GridLength(sizeX, rows);
    GridLength(sizeX, rows - 1);
    if y < rows - 1 {
      GridQuadAt(sizeX, rows - 1, y, x, c);
      assert y * (sizeX - 1) + x < (rows - 1) * (sizeX - 1) by {
        assert (y + 1) * (sizeX - 1) == y * (sizeX - 1) + (sizeX - 1);
        MulMonotone(y + 1, rows - 1, sizeX - 1);
      }
    } else {
      RowFirstIsProduct(sizeX, rows - 1);
      RowQuadAt(RowFirst(sizeX, rows - 1), sizeX, sizeX - 1, x, c);
    }
  }

  lemma MulMonotone(a: nat, b: nat, c: nat)
    requires a <= b
    ensures a * c <= b * c
  {
  }

  /** Every index of a row's quads lies between the row's first vertex and the
      last vertex of the row after it. */
  lemma {:induction false} RowIndicesInRange(firstIndex: int, sizeX: int, n: nat)
    requires n < sizeX
    ensures forall e :: e in RowIndices(firstIndex, sizeX, n) ==> firstIndex <= e < firstIndex + 2 * sizeX
  {
    if n > 0 {
      RowIndicesInRange(firstIndex, sizeX, n - 1);
    }
  }

  /** Every index of the first `rows` rows of quads names one of the vertices
      of the first `rows + 1` rows of the grid. */
  lemma {:induction false} GridIndicesInRange(sizeX: nat, rows: nat)
    requires sizeX >= 1
    ensures forall e :: e in GridIndices(sizeX, rows) ==> 0 <= e < (rows + 1) * sizeX
  {
    if rows > 0 {
      GridIndicesInRange(sizeX, rows - 1);
      RowFirstIsProduct(sizeX, rows - 1);
      RowIndicesInRange(RowFirst(sizeX, rows - 1), sizeX, sizeX - 1);
      assert (rows + 1) * sizeX == (rows - 1) * sizeX + 2 * sizeX;
      assert rows * sizeX <= (rows + 1) * sizeX;
    }
  }

  /** The mesh of a grid of `sizeY >= 2` rows (the row count starts at 2 and
      only grows): every triangle index names a vertex. */
  lemma MeshIndicesInRange(sizeX: nat, sizeY: nat)
    requires sizeX >= 1 && sizeY >= 2
    ensures var indices := GridIndices(sizeX, sizeY - 1);
      forall k :: 0 <= k < |indices| ==> 0 <= indices[k] < sizeX * sizeY
  {
    var rows := sizeY - 1;
    GridIndicesInRange(sizeX, rows);
    assert (rows + 1) * sizeX == sizeX * sizeY;
    forall k | 0 <= k < |GridIndices(sizeX, rows)|
      ensures 0 <= GridIndices(sizeX, rows)[k] < (rows + 1) * sizeX
    {
      assert GridIndices(sizeX, rows)[k] in GridIndices(sizeX, rows);
    }
  }

  lemma MeshLength(sizeX: nat, sizeY: nat)
    requires sizeX >= 1 && sizeY >= 2
    ensures |GridIndices(sizeX, sizeY - 1)| == (sizeX - 1) * (sizeY - 1) * 6
  {
    GridLength(sizeX, sizeY - 1);
  }

  /** The arithmetic of moving the loops on to row `y + 1`. */
  lemma NextRow(sizeX: nat, sizeY: nat, y: nat)
    requires sizeX >= 1 && y < sizeY - 1
    ensures |GridIndices(sizeX, y)| + 6 * (sizeX - 1) <= |GridIndices(sizeX, sizeY - 1)|
  {
    GridLength(sizeX, y);
    GridLength(sizeX, sizeY - 1);
    assert (y + 1) * (sizeX - 1) == y * (sizeX - 1) + (sizeX - 1);
    MulMonotone(y + 1, sizeY - 1, sizeX - 1);
  }

  /** The allocation: the vertex array has `sizeX * sizeY` entries and the
      index array `(sizeX - 1) * (sizeY - 1) * 6`, which the triangle index
      loop fills. */
  method BuildMesh(sizeX: int, sizeY: int) returns (verticesCount: int, vertices: array<Vector3>, indices: array<int>)
    requires sizeX >= 1 && sizeY >= 2
    ensures verticesCount == sizeX * sizeY && vertices.Length == verticesCount
    ensures indices.Length == (sizeX - 1) * (sizeY - 1) * 6
    ensures indices[..] == GridIndices(sizeX, sizeY - 1)
    ensures fresh(vertices) && fresh(indices)
  {
    verticesCount := sizeX * sizeY;
    vertices := new Vector3[sizeX * sizeY];
    indices := new int[(sizeX - 1) * (sizeY - 1) * 6];
    MeshLength(sizeX, sizeY);
    WriteTriangleIndices(sizeX, sizeY, indices);
  }

  /** The two triangles of the quad whose first vertex is `first`, written
      from position `i` on; returns the position after them. */
  method WriteQuad(indices: array<int>, i: nat, first: int, sizeX: int) returns (next: nat)
    requires i + 6 <= indices.Length
    modifies indices
    ensures next == i + 6
    ensures indices[..next] == old(indices[..i]) + Quad(first, sizeX)
  {
    next := i;
    indices[next] := first;
    next := next + 1;
    indices[next] := first + sizeX;
    next := next + 1;
    indices[next] := first + 1;
    next := next + 1;

    indices[next] := first + 1;
    next := next + 1;
    indices[next] := first + sizeX;
    next := next + 1;
    indices[next] := first + sizeX + 1;
    next := next + 1;
    Concatenation(indices[..next], old(indices[..i]), Quad(first, sizeX));
  }

  /** The triangle index loop: the nested loops write the index array row by
      row and quad by quad, with the running counter `i` ending at its length;
      `firstIndex` is the first vertex of the current row. */
  method WriteTriangleIndices(sizeX: int, sizeY: int, indices: array<int>)
    requires sizeX >= 1 && sizeY >= 2
    requires indices.Length == |GridIndices(sizeX, sizeY - 1)|
    modifies indices
    ensures indices[..] == GridIndices(sizeX, sizeY - 1)
  {
    var i := 0;
    var firstIndex := 0;
    for y := 0 to sizeY - 1
      invariant firstIndex == RowFirst(sizeX, y)
      invariant i <= indices.Length
      invariant indices[..i] == GridIndices(sizeX, y)
    {
      NextRow(sizeX, sizeY, y);
      ghost var rowStart := i;
      ghost var rowEnd := i + 6 * (sizeX - 1);
      ghost var rowPrefix := indices[..i];
      assert rowEnd <= indices.Length;
      for x := 0 to sizeX - 1
        invariant i == rowStart + 6 * x && rowEnd == rowStart + 6 * (sizeX - 1) <= indices.Length
        invariant indices[..i] == rowPrefix + RowIndices(firstIndex, sizeX, x)
      {
        i := WriteQuad(indices, i, firstIndex + x, sizeX);
        RowStep(rowPrefix, firstIndex, sizeX, x);
      }
      firstIndex := firstIndex + sizeX;
    }
    assert indices[..i] == indices[..];
  }
}

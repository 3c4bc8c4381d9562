/** The square, symmetric integer matrix that stores an adjacency graph's weights. */
module Matrix {
  import opened Graphs

  class AdjacencyMatrix {
    /** The underlying `int[][]`, written in place by AddEdge. */
    const matrix: array2<int32>

    /** Square and symmetric. */
    ghost predicate Valid()
      reads matrix
    {
      && matrix.Length0 == matrix.Length1
      && forall i, j :: 0 <= i < matrix.Length0 && 0 <= j < matrix.Length0 ==> matrix[i, j] == matrix[j, i]
    }

    /** A `size` x `size` matrix with every cell 0. */
    constructor (size: nat)
      ensures Valid() && fresh(matrix)
      ensures matrix.Length0 == size && matrix.Length1 == size
      ensures forall i, j :: 0 <= i < size && 0 <= j < size ==> matrix[i, j] == 0
    {
      matrix := new int32[size, size]((i, j) => 0);
    }

    /** Writes `weight` into both cells of the pair (a, b); no other cell changes. */
    method AddEdge(a: nat, b: nat, weight: int32)
      requires Valid() && a < matrix.Length0 && b < matrix.Length0
      modifies matrix
      ensures Valid()
      ensures matrix[a, b] == weight && matrix[b, a] == weight
      ensures forall i, j :: 0 <= i < matrix.Length0 && 0 <= j < matrix.Length1 && !(i == a && j == b) && !(i == b && j == a)
                ==> matrix[i, j] == old(matrix[i, j])
    {
      matrix[b, a] := weight;
      matrix[a, b] := weight;
    }

    /** The stored weight of the pair (a, b), which by symmetry is also the cell (b, a). */
    function GetWeight(a: nat, b: nat): (w: int32)
      reads matrix
      requires Valid() && a < matrix.Length0 && b < matrix.Length0
      ensures w == matrix[b, a]
    {
      matrix[a, b]
    }

    /** A fresh copy of row `index`; writing to it never reaches the matrix. */
    method GetAdjacent(index: nat) returns (row: array<int32>)
      requires Valid() && index < matrix.Length0
      ensures fresh(row) && row.Length == matrix.Length0
      ensures forall j :: 0 <= j < row.Length ==> row[j] == matrix[index, j]
    {
      var m := matrix;
      row := new int32[m.Length1](j reads m requires 0 <= j < m.Length1 && index < m.Length0 => m[index, j]);
    }
  }
}

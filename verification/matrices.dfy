/** R integer matrices as `Rcpp::IntegerMatrix` holds them: `nrow` by `ncol`
    entries stored column after column. */
module Matrices {

  datatype IntMatrix = IntMatrix(nrow: nat, ncol: nat, data: seq<int>) {

    predicate Valid() {
      |data| == nrow * ncol
    }

    /** The entry in row `row`, column `col` (column-major storage). */
    function At(row: nat, col: nat): int
      requires Valid() && row < nrow && col < ncol
    {
      ColumnFits(nrow, ncol, col);
      data[col * nrow + row]
    }

    /** Column `col`, as `seeds(Rcpp::_, i)` extracts it: one entry per row,
        row `k` of the column being the matrix entry in row `k`. */
    function Column(col: nat): (c: seq<int>)
      requires Valid() && col < ncol
      ensures |c| == nrow
      ensures forall row :: 0 <= row < nrow ==> c[row] == At(row, col)
    {
      ColumnFits(nrow, ncol, col);
      data[col * nrow..col * nrow + nrow]
    }
  }

  /** Column `col` lies inside the storage of an `nrow` by `ncol` matrix. */
  lemma ColumnFits(nrow: nat, ncol: nat, col: nat)
    requires col < ncol
    ensures col * nrow + nrow <= nrow * ncol
  {
    assert nrow * ncol == (col + 1) * nrow + (ncol - col - 1) * nrow;
  }
}

/** The table both programs print after the last step (lines 146-155 of
    count_attachment_kernel_fast.cpp, lines 114-123 of
    count_attachment_kernel.cpp): one row per class k >= 1 whose
    normalisation factor is positive, with the kernel corrected by that
    factor and the raw kernel, both relative to class 1. */
module Report {

  /** One printed line: the class, the corrected kernel and the raw kernel. */
  datatype Row = Row(k: nat, corrected: real, raw: real)

  /** The inputs the table divides by: class 1 exists, has a positive
      normalisation factor and a non-zero kernel. */
  predicate Reportable(A: seq<real>, w: seq<int>) {
    |A| == |w| >= 2 && w[1] > 0 && A[1] != 0.0
  }

  /** Kernel per unit of normalisation factor. */
  function PerUnit(a: real, wk: int): (r: real)
    requires wk > 0
  {
    a / wk as real
  }

  /** `r` is the row of its class: the corrected kernel is the class's
      kernel per unit of normalisation factor relative to class 1's, and the
      raw kernel is relative to class 1's. */
  predicate Describes(A: seq<real>, w: seq<int>, r: Row)
    requires Reportable(A, w)
  {
    1 <= r.k < |A| && w[r.k] > 0
    && r.corrected == PerUnit(A[r.k], w[r.k]) / PerUnit(A[1], w[1])
    && r.raw == A[r.k] / A[1]
  }

  /** Lines 146-155: the rows, in increasing class order, of every class
      k >= 1 with w[k] > 0; class 1 comes first and reads 1 in both columns. */
  method Table(A: seq<real>, w: seq<int>) returns (rows: seq<Row>)
    requires Reportable(A, w)
    ensures forall i :: 0 <= i < |rows| ==> Describes(A, w, rows[i])
    ensures forall i, j :: 0 <= i < j < |rows| ==> rows[i].k < rows[j].k
    ensures forall c :: 1 <= c < |A| && w[c] > 0 ==> exists i :: 0 <= i < |rows| && rows[i].k == c
    ensures |rows| > 0 && rows[0] == Row(1, 1.0, 1.0)
  {
    var A1 := A[1] / w[1] as real;
    rows := [];
    var c := 1;
    while c < |A|
      invariant 1 <= c <= |A|
      invariant forall i :: 0 <= i < |rows| ==> rows[i].k < c && Describes(A, w, rows[i])
      invariant forall i, j :: 0 <= i < j < |rows| ==> rows[i].k < rows[j].k
      invariant forall c' :: 1 <= c' < c && w[c'] > 0 ==> exists i :: 0 <= i < |rows| && rows[i].k == c'
      invariant c > 1 ==> |rows| > 0 && rows[0] == Row(1, 1.0, 1.0)
    {
      if w[c] > 0 {
        var row := Line(A, w, c, A1);
        ghost var before := rows;
        if c == 1 {
          assert before == [];
        }
        rows := rows + [row];
        assert rows[|before|].k == c;
        assert forall i :: 0 <= i < |before| ==> rows[i] == before[i];
      }
      c := c + 1;
    }
  }

  /** Lines 150-153: the line printed for class c, with A1 = A[1] / w[1]. */
  method Line(A: seq<real>, w: seq<int>, c: nat, A1: real) returns (row: Row)
    requires Reportable(A, w) && 1 <= c < |A| && w[c] > 0 && A1 == A[1] / w[1] as real
    ensures Describes(A, w, row) && row.k == c
    ensures c == 1 ==> row == Row(1, 1.0, 1.0)
  {
    var d := A1 * w[c] as real;
    Corrected(A[c], w[c], A[1], w[1], A1, d);
    row := Row(c, A[c] / d, A[c] / A[1]);
    if c == 1 {
      UnitRow(A[c], w[c], A1, d);
    }
  }

  /** The printed corrected value A[k] / (A1 * w[k]), with A1 = A[1] / w[1],
      is the per-unit kernel of class k over that of class 1. */
  lemma Corrected(ak: real, wk: int, a1: real, w1: int, A1: real, d: real)
    requires wk > 0 && w1 > 0 && a1 != 0.0
    requires A1 == a1 / w1 as real && d == A1 * wk as real
    ensures d != 0.0 && ak / d == PerUnit(ak, wk) / PerUnit(a1, w1)
  {
    var x, y := wk as real, w1 as real;
    assert A1 != 0.0;
    assert ak / (A1 * x) == (ak / x) / A1;
  }

  /** Class 1 reads 1 in both columns. */
  lemma UnitRow(a1: real, w1: int, A1: real, d: real)
    requires w1 > 0 && a1 != 0.0
    requires A1 == a1 / w1 as real && d == A1 * w1 as real
    ensures a1 / d == 1.0 && a1 / a1 == 1.0
  {
    assert d == a1;
  }
}

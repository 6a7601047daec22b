/** Evaluation of a whole sample grid: every cell (i, j) of the two meshgrid
    arrays, real parts in ma and imaginary parts in mb, is sent through one
    of the two per-point modes and the result is stored at (i, j) of a fresh
    output grid, one row buffer at a time. */
module Grid {
  import opened Escape

  /** The per-point routine a grid is filled with. */
  datatype Mode = CountMode | BinaryMode

  /** The value a cell receives for the point c under the bound J. */
  function CellValue(mode: Mode, c: Complex, J: nat): (r: nat)
    ensures mode == CountMode ==> r <= J
    ensures mode == BinaryMode ==> r <= 1
  {
    match mode
    case CountMode => Threshold(c, J)
    case BinaryMode => Membership(c, J)
  }

  /** The shared grid walk. The output is allocated with the transposed shape
      (columns of ma by rows of ma), which only fits a square grid; row i is
      assembled in a zeroed buffer of width n and then copied into the output. */
  method FillGrid(ma: array2<real>, mb: array2<real>, J: nat, mode: Mode) returns (output: array2<int>)
    requires ma.Length0 == ma.Length1
    requires ma.Length0 <= mb.Length0 && ma.Length1 <= mb.Length1
    ensures fresh(output)
    ensures output.Length0 == ma.Length1 && output.Length1 == ma.Length0
    ensures forall i, j :: 0 <= i < ma.Length0 && 0 <= j < ma.Length1 ==>
              output[i, j] == CellValue(mode, Complex(ma[i, j], mb[i, j]), J)
  {
    var n := ma.Length0;
    output := new int[ma.Length1, ma.Length0]((_, _) => 0);
    var i := 0;
    while i < n
      invariant 0 <= i <= n
      invariant forall r, k :: 0 <= r < i && 0 <= k < n ==>
                  output[r, k] == CellValue(mode, Complex(ma[r, k], mb[r, k]), J)
    {
      var temp := new int[n](_ => 0);
      var j := 0;
      while j < ma.Length1
        modifies temp
        invariant 0 <= j <= n
        invariant forall k :: 0 <= k < j ==> temp[k] == CellValue(mode, Complex(ma[i, k], mb[i, k]), J)
      {
        var proxy := CellValue(mode, Complex(ma[i, j], mb[i, j]), J);
        temp[j] := proxy;
        j := j + 1;
      }
      forall k | 0 <= k < n {
        output[i, k] := temp[k];
      }
      i := i + 1;
    }
  }

  /** The count grid: every cell holds the escape count of its point. */
  method MandelbrotThreshold(ma: array2<real>, mb: array2<real>, J: nat) returns (output: array2<int>)
    requires ma.Length0 == ma.Length1
    requires ma.Length0 <= mb.Length0 && ma.Length1 <= mb.Length1
    ensures fresh(output)
    ensures output.Length0 == ma.Length0 && output.Length1 == ma.Length0
    ensures forall i, j :: 0 <= i < ma.Length0 && 0 <= j < ma.Length1 ==>
              0 <= output[i, j] <= J && output[i, j] == Threshold(Complex(ma[i, j], mb[i, j]), J)
  {
    output := FillGrid(ma, mb, J, CountMode);
  }

  /** The binary grid: every cell holds 1 when its point stays bounded
      through all J + 1 updates and 0 otherwise. */
  method MandelbrotBinary(ma: array2<real>, mb: array2<real>, J: nat) returns (output: array2<int>)
    requires ma.Length0 == ma.Length1
    requires ma.Length0 <= mb.Length0 && ma.Length1 <= mb.Length1
    ensures fresh(output)
    ensures output.Length0 == ma.Length0 && output.Length1 == ma.Length0
    ensures forall i, j :: 0 <= i < ma.Length0 && 0 <= j < ma.Length1 ==>
              (output[i, j] == 0 || output[i, j] == 1) &&
              output[i, j] == Membership(Complex(ma[i, j], mb[i, j]), J)
  {
    output := FillGrid(ma, mb, J, BinaryMode);
  }
}

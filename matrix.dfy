/**
 * TMatrix: a rows x cols matrix stored in a growable device buffer.
 *
 * The buffer `data` (data_, null when there is none) is allocated with
 * `arrSize` elements (arrSize_, the capacity); Resize replaces it only when
 * the new shape needs more room, keeping the old contents at the front.
 * Element values are modelled as `int`; the device vector is a Dafny array.
 */
module Matrix {

  class TMatrix {
    /** rows_ */
    var rows: nat
    /** cols_ */
    var cols: nat
    /** arrSize_: the number of elements the buffer was allocated with. */
    var arrSize: nat
    /** data_: the device buffer, or null. */
    var data: array?<int>

    /** No buffer means no capacity; a buffer holds at least the recorded capacity. */
    ghost predicate Valid()
      reads this
    {
      (data == null ==> arrSize == 0) && (data != null ==> arrSize <= data.Length)
    }

    /** The state the default constructor and Clear leave: no buffer, nothing recorded. */
    ghost predicate IsEmpty()
      reads this
    {
      data == null && rows == 0 && cols == 0 && arrSize == 0
    }

    /** Rows(): rows_. */
    function Rows(): (r: nat)
      reads this
      ensures r == rows
    {
      rows
    }

    /** Cols(): cols_. */
    function Cols(): (c: nat)
      reads this
      ensures c == cols
    {
      cols
    }

    /**
     * size(): the number of elements the current shape addresses, not the
     * capacity. It is empty exactly when a dimension is 0, and it stays
     * inside the buffer whenever it fits the capacity of a valid matrix.
     */
    function Size(): (s: nat)
      reads this
      ensures s == Rows() * Cols()
      ensures s == 0 <==> Rows() == 0 || Cols() == 0
      ensures Valid() && data != null && s <= arrSize ==> s <= data.Length
    {
      cols * rows
    }

    /** The default constructor: an empty matrix without a buffer. */
    constructor Empty()
      ensures Valid() && IsEmpty()
    {
      rows, cols, arrSize := 0, 0, 0;
      data := null;
    }

    /** A rows x cols matrix with a fresh buffer of exactly rows * cols elements, all 0 when zero is set. */
    constructor Sized(r: nat, c: nat, zero: bool)
      ensures Valid() && rows == r && cols == c && arrSize == r * c && Size() == arrSize
      ensures data != null && fresh(data) && data.Length == r * c
      ensures zero ==> forall i :: 0 <= i < data.Length ==> data[i] == 0
    {
      rows, cols := r, c;
      arrSize := c * r;
      if zero {
        data := new int[c * r](_ => 0);
      } else {
        data := new int[c * r];
      }
    }

    /** The move constructor: takes over m's fields by swapping with an empty matrix, leaving m empty. */
    constructor Move(m: TMatrix)
      modifies m
      ensures Valid() == old(m.Valid()) && m.Valid() && m.IsEmpty()
      ensures rows == old(m.rows) && cols == old(m.cols) && arrSize == old(m.arrSize) && data == old(m.data)
    {
      rows, cols, arrSize := 0, 0, 0;
      data := null;
      new;
      Swap(m);
    }

    /**
     * The copy constructor: the same shape and a fresh copy of m's whole
     * buffer; the capacity recorded is m's size(), not m's capacity, so the
     * copy keeps the capacity invariant exactly when m's shape fits m's buffer.
     */
    constructor Copy(m: TMatrix)
      requires m.data != null
      ensures rows == m.rows && cols == m.cols && arrSize == m.Size()
      ensures data != null && fresh(data) && data[..] == m.data[..]
      ensures Valid() <==> m.Size() <= m.data.Length
    {
      rows, cols := m.rows, m.cols;
      arrSize := m.cols * m.rows;
      var copied := new int[m.data.Length];
      for i := 0 to m.data.Length
        invariant copied[..i] == m.data[..i]
      {
        copied[i] := m.data[i];
      }
      data := copied;
    }

    /**
     * Resize: set the shape to r x c. Without a buffer, allocate exactly
     * r * c elements; with one too small, allocate r * c elements and copy the
     * old size() elements over; otherwise keep the buffer. The capacity never
     * shrinks and afterwards always covers the shape.
     */
    method Resize(r: nat, c: nat)
      requires Valid()
      requires data != null && r * c > arrSize ==> Size() <= data.Length && Size() <= r * c
      modifies this
      ensures Valid() && rows == r && cols == c && Size() <= arrSize
      ensures arrSize >= old(arrSize)
      ensures old(data) == null ==> data != null && fresh(data) && data.Length == r * c && arrSize == r * c
      ensures old(data) != null && r * c <= old(arrSize) ==>
        data == old(data) && arrSize == old(arrSize) && data[..] == old(data[..])
      ensures old(data) != null && r * c > old(arrSize) ==>
        data != null && fresh(data) && data.Length == r * c && arrSize == r * c
        && data[..old(Size())] == old(data[..Size()])
    {
      if data != null {
        if r * c > arrSize {
          var newData := new int[r * c];
          var buf := data;
          var n := Size();
          for i := 0 to n
            invariant newData[..i] == buf[..i]
          {
            newData[i] := buf[i];
          }
          data := newData;
          arrSize := r * c;
        }
      } else {
        data := new int[r * c];
        arrSize := r * c;
      }
      rows := r;
      cols := c;
    }

    /** Reshape: set the shape only; neither the buffer nor the capacity is looked at. */
    method Reshape(r: nat, c: nat)
      modifies this
      ensures rows == r && cols == c
      ensures data == old(data) && arrSize == old(arrSize)
    {
      rows := r;
      cols := c;
    }

    /** Clear: release the buffer and return to the empty state. */
    method Clear()
      modifies this
      ensures Valid() && IsEmpty()
    {
      data := null;
      rows := 0;
      cols := 0;
      arrSize := 0;
    }

    /** swap: exchange all four fields with other. */
    method Swap(other: TMatrix)
      modifies this, other
      ensures rows == old(other.rows) && other.rows == old(rows)
      ensures cols == old(other.cols) && other.cols == old(cols)
      ensures arrSize == old(other.arrSize) && other.arrSize == old(arrSize)
      ensures data == old(other.data) && other.data == old(data)
    {
      rows, other.rows := other.rows, rows;
      cols, other.cols := other.cols, cols;
      arrSize, other.arrSize := other.arrSize, arrSize;
      data, other.data := other.data, data;
    }
  }

  /** Swapping two matrices twice leaves both as they were. */
  method SwapTwice(a: TMatrix, b: TMatrix)
    modifies a, b
    ensures a.rows == old(a.rows) && a.cols == old(a.cols) && a.arrSize == old(a.arrSize) && a.data == old(a.data)
    ensures b.rows == old(b.rows) && b.cols == old(b.cols) && b.arrSize == old(b.arrSize) && b.data == old(b.data)
  {
    a.Swap(b);
    a.Swap(b);
  }
}

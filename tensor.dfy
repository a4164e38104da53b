/** The tensor: a shape vector of 1 to 3 entries together with a storage cube of
    rows x cols x channels elements, held as one flat buffer in the physical
    order of Layout (column-major within a plane, planes contiguous).

    The source's `assert`s abort the program; they are the `requires` clauses
    here. The element type is generic because no operation computes with
    elements. */
module Tensors {
  import Layout
  import Shape

  class Tensor<T(0)> {
    /** The shape vector that shapes() reports. */
    var rawShape: seq<nat>
    /** The cube's buffer and its three extents. */
    var data: array<T>
    var nRows: nat
    var nCols: nat
    var nSlices: nat

    /** The buffer holds exactly rows x cols x channels elements. */
    ghost predicate CubeValid()
      reads this
    {
      data.Length == nRows * nCols * nSlices
    }

    /** The cube is allocated and non-empty: what rows(), cols(), channels()
        and size() assert before answering. */
    ghost predicate HasElements()
      reads this
    {
      CubeValid() && data.Length > 0
    }

    /** The invariant every constructor establishes and every mutator keeps:
        1 to 3 shape entries whose product is the element count, and a cube
        whose degenerate axes are those the shape leaves out (no channels for
        fewer than three entries, a single row for one entry). */
    ghost predicate Valid()
      reads this
    {
      CubeValid()
      && 1 <= |rawShape| <= 3
      && Shape.Product(rawShape) == data.Length
      && (|rawShape| <= 2 ==> nSlices == 1)
      && (|rawShape| == 1 ==> nRows == 1)
    }

    // -------------------------------------------------------------------------
    // Constructors

    /** Tensor(size): a 1 x size x 1 cube with shape [size]. */
    constructor OfSize(size: nat)
      ensures Valid() && fresh(data)
      ensures nRows == 1 && nCols == size && nSlices == 1
      ensures rawShape == [size]
    {
      data := new T[size];
      rawShape := [size];
      nRows, nCols, nSlices := 1, size, 1;
      new;
      Shape.ProductSmall(rawShape);
    }

    /** Tensor(rows, cols): a rows x cols x 1 cube with shape [rows, cols]. */
    constructor OfMatrix(rows: nat, cols: nat)
      ensures Valid() && fresh(data)
      ensures nRows == rows && nCols == cols && nSlices == 1
      ensures rawShape == [rows, cols]
    {
      data := new T[rows * cols];
      rawShape := [rows, cols];
      nRows, nCols, nSlices := rows, cols, 1;
      new;
      Shape.ProductSmall(rawShape);
    }

    /** Tensor(channels, rows, cols): a rows x cols x channels cube whose shape
        is recorded as [rows, cols, channels]. */
    constructor OfCube(channels: nat, rows: nat, cols: nat)
      ensures Valid() && fresh(data)
      ensures nRows == rows && nCols == cols && nSlices == channels
      ensures rawShape == [rows, cols, channels]
    {
      data := new T[rows * cols * channels];
      rawShape := [rows, cols, channels];
      nRows, nCols, nSlices := rows, cols, channels;
      new;
      Shape.ProductSmall(rawShape);
    }

    /** Tensor(shapes): forwards to the dimension constructor of the vector's
        length, handing shapes[0] of a 3-vector over as the channel count. The
        dispatch on the length is that of Shape.ConstructedDims (the cube) and
        Shape.ConstructedShape (the recorded vector). */
    constructor FromShape(shapes: seq<nat>)
      requires 1 <= |shapes| <= 3
      ensures Valid() && fresh(data)
      ensures Shape.Dims(nRows, nCols, nSlices) == Shape.ConstructedDims(shapes)
      ensures rawShape == Shape.ConstructedShape(shapes)
    {
      var d := Shape.ConstructedDims(shapes);
      Shape.ConstructedShapeProduct(shapes);
      data := new T[d.rows * d.cols * d.channels];
      rawShape := Shape.ConstructedShape(shapes);
      nRows, nCols, nSlices := d.rows, d.cols, d.channels;
    }

    /** The copy constructor: an independent buffer with the same elements, the
        same cube and the same shape. */
    constructor Copy(t: Tensor<T>)
      ensures Valid() == t.Valid() && fresh(data)
      ensures rawShape == t.rawShape && data[..] == t.data[..]
      ensures nRows == t.nRows && nCols == t.nCols && nSlices == t.nSlices
    {
      var source := t.data;
      data := new T[source.Length](k requires 0 <= k < source.Length reads source => source[k]);
      rawShape := t.rawShape;
      nRows, nCols, nSlices := t.nRows, t.nCols, t.nSlices;
    }

    /** The move constructor: takes over t's buffer and shape. The shape vector
        t keeps is empty, as after any move of a std::vector; what t's cube
        holds afterwards is left open. */
    constructor Move(t: Tensor<T>)
      modifies t
      ensures Valid() == old(t.Valid())
      ensures data == old(t.data) && rawShape == old(t.rawShape)
      ensures nRows == old(t.nRows) && nCols == old(t.nCols) && nSlices == old(t.nSlices)
      ensures t.rawShape == []
    {
      data := t.data;
      rawShape := t.rawShape;
      nRows, nCols, nSlices := t.nRows, t.nCols, t.nSlices;
      new;
      t.rawShape := [];
    }

    /** Copy assignment: this becomes an independent copy of t (t may be this). */
    method Assign(t: Tensor<T>)
      modifies this
      ensures Valid() == old(t.Valid()) && fresh(data)
      ensures rawShape == old(t.rawShape) && data[..] == old(t.data[..])
      ensures nRows == old(t.nRows) && nCols == old(t.nCols) && nSlices == old(t.nSlices)
    {
      var source := t.data;
      var copy := new T[source.Length](k requires 0 <= k < source.Length reads source => source[k]);
      rawShape := t.rawShape;
      nRows, nCols, nSlices := t.nRows, t.nCols, t.nSlices;
      data := copy;
    }

    /** Move assignment from another tensor: this takes over t's buffer and
        shape, t keeps an empty shape vector and a cube left open. */
    method MoveAssign(t: Tensor<T>)
      requires t != this
      modifies this, t
      ensures Valid() == old(t.Valid())
      ensures data == old(t.data) && rawShape == old(t.rawShape)
      ensures nRows == old(t.nRows) && nCols == old(t.nCols) && nSlices == old(t.nSlices)
      ensures t.rawShape == []
    {
      data := t.data;
      rawShape := t.rawShape;
      nRows, nCols, nSlices := t.nRows, t.nCols, t.nSlices;
      t.rawShape := [];
    }

    // -------------------------------------------------------------------------
    // Accessors

    /** rows(): the number of rows of a non-empty cube. */
    function Rows(): (n: nat)
      reads this
      requires HasElements()
      ensures n > 0 && n == nRows
    {
      nRows
    }

    /** cols(): the number of columns of a non-empty cube. */
    function Cols(): (n: nat)
      reads this
      requires HasElements()
      ensures n > 0 && n == nCols
    {
      nCols
    }

    /** channels(): the number of channel planes of a non-empty cube. */
    function Channels(): (n: nat)
      reads this
      requires HasElements()
      ensures n > 0 && n == nSlices
    {
      nSlices
    }

    /** size(): the element count of a non-empty cube, which is also the
        product of the shape vector. */
    function Size(): (n: nat)
      reads this
      requires HasElements()
      ensures n == Rows() * Cols() * Channels()
      ensures Valid() ==> n == Shape.Product(rawShape)
    {
      data.Length
    }

    /** plane_size(): the element count of one channel plane. */
    function PlaneSize(): (n: nat)
      reads this
      requires HasElements()
      ensures n * Channels() == Size()
    {
      Cols() * Rows()
    }

    /** empty(): size() asserts a non-empty cube before the comparison, so an
        answer can only ever be false. */
    function IsEmpty(): (e: bool)
      reads this
      requires HasElements()
      ensures !e
    {
      Size() == 0
    }

    /** shapes(): the recorded shape vector; in a valid tensor its 1 to 3
        entries multiply to the element count. */
    function Shapes(): (s: seq<nat>)
      reads this
      ensures Valid() ==> 1 <= |s| <= 3 && Shape.Product(s) == data.Length
    {
      rawShape
    }

    /** The buffer offset at which plane ch starts: ch planes precede it. */
    function PlaneStart(ch: nat): (s: nat)
      reads this
      requires HasElements() && ch < Channels()
      ensures s == ch * PlaneSize() && s + PlaneSize() <= Size()
    {
      Layout.PlaneBounds(ch, PlaneSize(), nSlices);
      ch * PlaneSize()
    }

    /** slice(ch): the plane of channel ch, read as its column-major elements. */
    function Slice(ch: nat): (plane: seq<T>)
      reads this, data
      requires HasElements() && ch < Channels()
      ensures |plane| == PlaneSize()
      ensures forall r: nat, c: nat | r < nRows && c < nCols ::
                plane[Layout.Offset(0, r, c, nRows, nCols, 1)]
                == data[Layout.Offset(ch, r, c, nRows, nCols, nSlices)]
    {
      Layout.PlaneOffsets(ch, nRows, nCols, nSlices);
      assert PlaneStart(ch) == ch * (nRows * nCols);
      data[PlaneStart(ch) .. PlaneStart(ch) + PlaneSize()]
    }

    /** at(ch, r, c): element (r, c) of plane ch, which lies at physical
        offset r + c*rows + ch*rows*cols. */
    function At(ch: nat, r: nat, c: nat): (x: T)
      reads this, data
      requires HasElements() && ch < Channels() && r < Rows() && c < Cols()
      ensures x == Slice(ch)[Layout.Offset(0, r, c, nRows, nCols, 1)]
    {
      data[Layout.Offset(ch, r, c, nRows, nCols, nSlices)]
    }

    /** index(k): the element at physical offset k, i.e. at() of the position
        whose offset is k. */
    function Index(k: nat): (x: T)
      reads this, data
      requires HasElements() && k < Size()
      ensures x == At(Layout.Decode(k, nRows, nCols, nSlices).ch,
                      Layout.Decode(k, nRows, nCols, nSlices).row,
                      Layout.Decode(k, nRows, nCols, nSlices).col)
    {
      data[k]
    }

    /** Writing through the reference index(k) returns: element k changes and
        nothing else. */
    method SetIndex(k: nat, x: T)
      requires HasElements() && k < Size()
      modifies data
      ensures data[..] == old(data[..])[k := x]
    {
      data[k] := x;
    }

    /** Assigning a matrix to the reference slice(ch) returns: plane ch becomes
        `plane`, every other plane is unchanged. */
    method AssignSlice(ch: nat, plane: seq<T>)
      requires HasElements() && ch < Channels() && |plane| == PlaneSize()
      modifies data
      ensures data[..] == Layout.WithPlane(old(data[..]), PlaneStart(ch), plane)
      ensures Slice(ch) == plane
    {
      var start := PlaneStart(ch);
      forall k | start <= k < start + |plane| {
        data[k] := plane[k - start];
      }
      assert data[..] == Layout.WithPlane(old(data[..]), start, plane);
    }

    // -------------------------------------------------------------------------
    // Filling and extraction

    /** Fill(value): every element becomes value. */
    method Fill(value: T)
      requires HasElements()
      modifies data
      ensures forall k | 0 <= k < data.Length :: data[k] == value
    {
      forall k | 0 <= k < data.Length {
        data[k] := value;
      }
    }

    /** Fill(values, rowMajor): with rowMajor set and a shape of at least two
        entries, plane i becomes the transpose of values[i*ps .. (i+1)*ps] read
        as a cols x rows column-major matrix (a row-major rows x cols one);
        otherwise the buffer becomes values verbatim. */
    method FillValues(values: seq<T>, rowMajor: bool := true)
      requires Valid() && HasElements() && |values| == Size()
      modifies data
      ensures data[..] == Layout.Filled(values, rowMajor && |rawShape| >= 2, nRows, nCols, nSlices)
      ensures rowMajor ==> Layout.ToRowMajor(data[..], nRows, nCols, nSlices) == values
    {
      if rowMajor && |rawShape| >= 2 {
        var channelNum := if |rawShape| == 3 then Channels() else 1;
        var planeSize := Rows() * Cols();
        ghost var physical := Layout.ToPhysical(values, nRows, nCols, nSlices);
        assert planeSize == nRows * nCols == PlaneSize() && data.Length == planeSize * channelNum;
        var i := 0;
        while i < channelNum
          invariant i <= channelNum == nSlices
          invariant i * planeSize <= data.Length
          invariant data[.. i * planeSize] == physical[.. i * planeSize]
        {
          Layout.PlaneBounds(i, planeSize, channelNum);
          var inputData := values[i * planeSize .. (i + 1) * planeSize];
          ghost var before := data[..];
          var inputPlane := Layout.Transposed(inputData, nRows, nCols, 1);
          AssignSlice(i, inputPlane);
          assert PlaneStart(i) == i * planeSize;
          Layout.PhysicalPrefixStep(values, before, data[..], inputPlane, nRows, nCols, nSlices, planeSize, i);
          i := i + 1;
        }
        assert i * planeSize == data.Length;
        assert data[..] == data[.. i * planeSize];
        Layout.RowMajorRoundTrip(values, nRows, nCols, nSlices);
      } else {
        forall k | 0 <= k < data.Length {
          data[k] := values[k];
        }
        assert data[..] == values;
        if rowMajor {
          Layout.FillThenRowMajor(values, false, nRows, nCols, nSlices);
        }
      }
    }

    /** values(rowMajor): the elements plane by plane, each plane row-major when
        rowMajor is set and column-major otherwise. The column-major copy reads
        plane i from i*ps elements past the plane's own start, which stays
        inside the buffer only for a single channel; there the copy as written
        and the corrected one both give the buffer. */
    method Values(rowMajor: bool := true) returns (result: seq<T>)
      requires HasElements()
      requires rowMajor || Channels() == 1
      ensures rowMajor ==> result == Layout.ToRowMajor(data[..], nRows, nCols, nSlices)
      ensures !rowMajor ==> Layout.ColumnMajorReadAsWritten(data[..], nRows * nCols, nSlices) == Layout.Some(result)
      ensures !rowMajor ==> result == Layout.ColumnMajorValues(data[..], nRows * nCols, nSlices) == data[..]
    {
      var planeSize := Cols() * Rows();
      ghost var rowMajorValues := Layout.ToRowMajor(data[..], nRows, nCols, nSlices);
      result := [];
      var i := 0;
      assert planeSize == nRows * nCols;
      while i < Channels()
        invariant i <= nSlices
        invariant i * planeSize <= data.Length
        invariant rowMajor ==> result == rowMajorValues[.. i * planeSize]
        invariant !rowMajor ==> result == data[.. i * planeSize]
      {
        Layout.PlaneBounds(i, planeSize, nSlices);
        var plane := Slice(i);
        if rowMajor {
          assert plane == data[..][i * planeSize .. (i + 1) * planeSize];
          Layout.RowMajorPrefixStep(data[..], nRows, nCols, nSlices, i);
          result := result + Layout.Transposed(plane, nCols, nRows, 1);
        } else {
          var from := i * planeSize + i * planeSize;
          assert from == 0;
          Layout.PrefixSplit(data[..], i * planeSize, (i + 1) * planeSize);
          result := result + data[from .. from + planeSize];
        }
        i := i + 1;
      }
      assert i * planeSize == data.Length;
      assert rowMajorValues[.. i * planeSize] == rowMajorValues;
      if !rowMajor {
        assert result == data[..];
        Layout.ColumnMajorReadSingleChannel(data[..], planeSize);
        Layout.ColumnMajorValuesIsBuffer(data[..], planeSize, nSlices);
      }
    }

    /** Transform(f): every element e becomes f(e). */
    method Transform(f: T -> T)
      requires HasElements()
      modifies data
      ensures forall k | 0 <= k < data.Length :: data[k] == f(old(data[k]))
    {
      forall k | 0 <= k < data.Length {
        data[k] := f(data[k]);
      }
    }

    // -------------------------------------------------------------------------
    // Shape reinterpretation and padding

    /** Reshape(shapes, rowMajor): the shape becomes `shapes` and the cube is
        relabelled by Shape.CubeDims over the same buffer; with rowMajor set the
        values(true) taken under the old cube are then filled back row-major
        under the new one, so that values(true) is unchanged. */
    method Reshape(shapes: seq<nat>, rowMajor: bool := false)
      requires HasElements()
      requires 1 <= |shapes| <= 3 && Shape.Product(shapes) == Size()
      modifies this, data
      ensures Valid() && data == old(data)
      ensures rawShape == shapes
      ensures Shape.Dims(nRows, nCols, nSlices) == Shape.CubeDims(shapes)
      ensures !rowMajor ==> data[..] == old(data[..])
      ensures rowMajor ==> data[..] == Layout.Filled(old(Layout.ToRowMajor(data[..], nRows, nCols, nSlices)),
                                                     |shapes| >= 2, nRows, nCols, nSlices)
      ensures rowMajor ==> Layout.ToRowMajor(data[..], nRows, nCols, nSlices)
                           == old(Layout.ToRowMajor(data[..], nRows, nCols, nSlices))
    {
      var newSize := 1;
      var i := 0;
      while i < |shapes|
        modifies {}
        invariant i <= |shapes|
        invariant newSize == Shape.Product(shapes[.. i])
      {
        assert shapes[.. i + 1][.. i] == shapes[.. i];
        newSize := newSize * shapes[i];
        i := i + 1;
      }
      assert shapes[.. i] == shapes;
      assert newSize == Size();

      rawShape := shapes;
      var vals := Values();
      var dims := Shape.CubeDims(shapes);
      nRows, nCols, nSlices := dims.rows, dims.cols, dims.channels;
      assert data.Length == nRows * nCols * nSlices == Shape.Product(rawShape) > 0;
      assert Valid() && HasElements();
      if rowMajor {
        FillValues(vals, true);
      }
    }

    /** Flatten(rowMajor): Reshape to [size()]. */
    method Flatten(rowMajor: bool := false)
      requires HasElements()
      modifies this, data
      ensures Valid() && data == old(data)
      ensures rawShape == [old(data.Length)]
      ensures nRows == 1 && nCols == old(data.Length) && nSlices == 1
      ensures !rowMajor ==> data[..] == old(data[..])
      ensures rowMajor ==> data[..] == old(Layout.ToRowMajor(data[..], nRows, nCols, nSlices))
      ensures rowMajor ==> Layout.ToRowMajor(data[..], nRows, nCols, nSlices)
                           == old(Layout.ToRowMajor(data[..], nRows, nCols, nSlices))
    {
      var flattenShape := [Size()];
      Shape.ProductSmall(flattenShape);
      Reshape(flattenShape, rowMajor);
    }

    /** Padding([top, bottom, left, right], p): a cube with top+bottom more rows
        and left+right more columns, filled with p, into whose sub-rectangle at
        (top, left) the old cube is copied; the shape is recorded as
        [channels, rows, cols] of the new cube. */
    method Padding(pads: seq<nat>, paddingValue: T)
      requires HasElements()
      requires |pads| == 4
      modifies this
      ensures Valid() && fresh(data)
      ensures nRows == old(nRows) + pads[0] + pads[1]
      ensures nCols == old(nCols) + pads[2] + pads[3]
      ensures nSlices == old(nSlices)
      ensures rawShape == Shape.PaddedShape(Shape.Dims(nRows, nCols, nSlices))
      ensures data[..] == Layout.Padded(old(data[..]), old(nRows), old(nCols), nSlices,
                                        pads[0], pads[1], pads[2], pads[3], paddingValue)
    {
      var padRow1 := pads[0];
      var padRow2 := pads[1];
      var padCol1 := pads[2];
      var padCol2 := pads[3];

      var newRows := nRows + padRow1 + padRow2;
      var newCols := nCols + padCol1 + padCol2;
      var newData := PaddedCube(data, nRows, nCols, nSlices, padRow1, padRow2, padCol1, padCol2, paddingValue);
      Layout.GrownNonEmpty(nRows, nCols, nSlices, padRow1 + padRow2, padCol1 + padCol2);
      ghost var shape := Shape.PaddedShape(Shape.Dims(newRows, newCols, nSlices));
      data := newData;
      nRows, nCols := newRows, newCols;
      rawShape := [nSlices, nRows, nCols];
      assert rawShape == shape;
    }
  }

  /** The new cube of Padding: (rows+top+bottom) x (cols+left+right) x chans,
      filled with p, with the cube in `source` copied in at (top, left). */
  method PaddedCube<T>(source: array<T>, rows: nat, cols: nat, chans: nat,
                       top: nat, bottom: nat, left: nat, right: nat, p: T) returns (target: array<T>)
    requires source.Length == rows * cols * chans
    ensures fresh(target)
    ensures target[..] == Layout.Padded(source[..], rows, cols, chans, top, bottom, left, right, p)
  {
    var newRows := rows + top + bottom;
    var newCols := cols + left + right;
    target := new T[newRows * newCols * chans](_ => p);
    assert target[..] == seq(newRows * newCols * chans, _ => p);
    CopyIntoSubcube(source, target, rows, cols, chans, top, left, newRows, newCols);
  }

  /** subcube(top, left, ..) = source: the rows x cols x chans cube in `source`
      is copied element by element into the sub-rectangle at (top, left) of the
      newRows x newCols x chans cube in `target`; the rest of target is kept. */
  method CopyIntoSubcube<T>(source: array<T>, target: array<T>, rows: nat, cols: nat, chans: nat,
                            top: nat, left: nat, newRows: nat, newCols: nat)
    requires source != target
    requires source.Length == rows * cols * chans
    requires target.Length == newRows * newCols * chans
    requires rows + top <= newRows && cols + left <= newCols
    modifies target
    ensures target[..] == Layout.SubcubeCopied(old(target[..]), source[..], rows, cols, chans, top, left,
                                               newRows, newCols, source.Length)
  {
    ghost var base := target[..];
    Layout.SubcubeCopiedNothing(base, source[..], rows, cols, chans, top, left, newRows, newCols);
    var k := 0;
    while k < source.Length
      invariant k <= source.Length
      invariant target[..] == Layout.SubcubeCopied(base, source[..], rows, cols, chans, top, left,
                                                   newRows, newCols, k)
    {
      var q := Layout.Decode(k, rows, cols, chans);
      Layout.SubcubeCopiedStep(base, source[..], rows, cols, chans, top, left, newRows, newCols, k);
      target[Layout.Offset(q.ch, q.row + top, q.col + left, newRows, newCols, chans)] := source[k];
      k := k + 1;
    }
  }
}

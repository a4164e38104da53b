/** The shape vector of a tensor (1 to 3 entries) and the cube dimensions that
    the different operations derive from it. */
module Shape {

  /** The product of the entries of a shape vector: the element count it describes. */
  function Product(s: seq<nat>): (p: nat)
    ensures p == 0 <==> 0 in s
  {
    if |s| == 0 then 1
    else
      assert s == s[.. |s| - 1] + [s[|s| - 1]];
      Product(s[.. |s| - 1]) * s[|s| - 1]
  }

  lemma ProductSmall(s: seq<nat>)
    requires |s| <= 3
    ensures |s| == 1 ==> Product(s) == s[0]
    ensures |s| == 2 ==> Product(s) == s[0] * s[1]
    ensures |s| == 3 ==> Product(s) == s[0] * s[1] * s[2]
  {
    if |s| >= 1 {
      assert s[.. 1][.. 0] == [];
    }
    if |s| >= 2 {
      assert s[.. 2][.. 1] == s[.. 1];
    }
    if |s| == 3 {
      assert s[.. 2] == s[.. 3][.. 2];
    }
  }

  /** Rows, columns and channels of a storage cube. */
  datatype Dims = Dims(rows: nat, cols: nat, channels: nat)

  /** The cube that Reshape gives a shape vector: [n] is 1 x n x 1, [r, c] is
      r x c x 1 and [a, b, c] is a x b x c (rows, columns, channels). */
  function CubeDims(s: seq<nat>): (d: Dims)
    requires 1 <= |s| <= 3
    ensures d.rows * d.cols * d.channels == Product(s)
    ensures |s| <= 2 ==> d.channels == 1
    ensures |s| == 1 ==> d.rows == 1 && d.cols == s[0]
  {
    ProductSmall(s);
    if |s| == 1 then Dims(1, s[0], 1)
    else if |s| == 2 then Dims(s[0], s[1], 1)
    else Dims(s[0], s[1], s[2])
  }

  /** The cube that the shape-vector constructor allocates: it forwards [n] to
      Tensor(n), [a, b] to Tensor(a, b) and [a, b, c] to Tensor(a, b, c), whose
      first argument is the channel count. */
  function ConstructedDims(s: seq<nat>): (d: Dims)
    requires 1 <= |s| <= 3
    ensures d.rows * d.cols * d.channels == Product(s)
    ensures |s| <= 2 ==> d.channels == 1
    ensures |s| == 1 ==> d.rows == 1
  {
    ProductSmall(s);
    if |s| == 1 then Dims(1, s[0], 1)
    else if |s| == 2 then Dims(s[0], s[1], 1)
    else Dims(s[1], s[2], s[0])
  }

  /** The shape vector that the shape-vector constructor records: that of the
      dimension constructor it forwards to, [rows, cols, channels] for three. */
  function ConstructedShape(s: seq<nat>): (t: seq<nat>)
    requires 1 <= |s| <= 3
    ensures |t| == |s|
  {
    if |s| <= 2 then s else [s[1], s[2], s[0]]
  }

  lemma Rotate3(a: nat, b: nat, c: nat)
    ensures b * c * a == a * b * c
  {
  }

  /** The recorded shape has the same element count as the requested one. */
  lemma ConstructedShapeProduct(s: seq<nat>)
    requires 1 <= |s| <= 3
    ensures Product(ConstructedShape(s)) == Product(s)
  {
    if |s| == 3 {
      var t := ConstructedShape(s);
      assert t == [s[1], s[2], s[0]];
      ProductSmall(s);
      ProductSmall(t);
      Rotate3(s[0], s[1], s[2]);
    }
  }

  /** The recorded shape is the requested one exactly when it has fewer than
      three entries or all three entries are equal. */
  lemma ConstructedShapeIsRequested(s: seq<nat>)
    requires 1 <= |s| <= 3
    ensures ConstructedShape(s) == s <==> |s| < 3 || (s[0] == s[1] && s[1] == s[2])
  {
    if |s| == 3 && ConstructedShape(s) == s {
      assert ConstructedShape(s)[0] == s[0] && ConstructedShape(s)[1] == s[1];
    }
    if |s| == 3 && s[0] == s[1] && s[1] == s[2] {
      assert ConstructedShape(s) == [s[1], s[2], s[0]];
    }
  }

  /** Read back by Reshape's convention, the shape a constructor records
      describes the cube it allocated. */
  lemma ConstructedShapeDescribesCube(s: seq<nat>)
    requires 1 <= |s| <= 3
    ensures CubeDims(ConstructedShape(s)) == ConstructedDims(s)
  {
  }

  /** The shape vector Padding records for its new cube: [channels, rows, cols]. */
  function PaddedShape(d: Dims): (t: seq<nat>)
    ensures |t| == 3 && Product(t) == d.rows * d.cols * d.channels
  {
    ProductSmall([d.channels, d.rows, d.cols]);
    [d.channels, d.rows, d.cols]
  }

  /** Read back by Reshape's convention, the shape Padding records describes its
      cube only when rows, columns and channels are all equal. */
  lemma PaddedShapeMisreads(d: Dims)
    ensures CubeDims(PaddedShape(d)) == d <==> d.rows == d.cols == d.channels
  {
  }
}

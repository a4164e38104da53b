/** Physical layout of a tensor's storage cube and the order conversions built on it.

    A cube of `rows` x `cols` x `chans` elements is one flat buffer: within a channel
    plane the row index varies fastest (column-major), and planes are contiguous.
    Callers see a row-major view instead: within a plane the column index varies
    fastest. Everything here is a pure function on sequences; the Tensor class uses
    these as the specifications of its methods. */
module Layout {

  datatype Option<T> = None | Some(value: T)

  /** A position in a cube: channel plane, row, column. */
  datatype Coord = Coord(ch: nat, row: nat, col: nat)

  // ---------------------------------------------------------------------------
  // Arithmetic helpers

  lemma MulLe(a: nat, b: nat, m: nat)
    requires a <= b
    ensures a * m <= b * m
  {
  }

  lemma DivModUnique(n: nat, d: nat, q: nat, m: nat)
    requires m < d && n == q * d + m
    ensures n / d == q && n % d == m
  {
    var q', m' := n / d, n % d;
    assert n == q' * d + m';
    if q' < q {
      MulLe(q' + 1, q, d);
      assert false;
    } else if q < q' {
      MulLe(q + 1, q', d);
      assert false;
    }
  }

  /** The plane, the column and the row of an in-bounds position stay in bounds. */
  lemma OffsetBound(ch: nat, r: nat, c: nat, rows: nat, cols: nat, chans: nat)
    requires ch < chans && r < rows && c < cols
    ensures r + c * rows < rows * cols
    ensures r + c * rows + ch * (rows * cols) < rows * cols * chans
  {
    MulLe(c + 1, cols, rows);
    MulLe(ch + 1, chans, rows * cols);
  }

  // ---------------------------------------------------------------------------
  // Offsets and their inverse

  /** Physical offset of element (ch, r, c): r + c*rows + ch*rows*cols. */
  function Offset(ch: nat, r: nat, c: nat, rows: nat, cols: nat, chans: nat): (k: nat)
    requires ch < chans && r < rows && c < cols
    ensures k < rows * cols * chans
  {
    OffsetBound(ch, r, c, rows, cols, chans);
    r + c * rows + ch * (rows * cols)
  }

  /** Offset of element (ch, r, c) in the row-major view of the same cube:
      the column-major offset of (ch, c, r) in the transposed planes. */
  function RowMajorOffset(ch: nat, r: nat, c: nat, rows: nat, cols: nat, chans: nat): (k: nat)
    requires ch < chans && r < rows && c < cols
    ensures k < rows * cols * chans
    ensures k == c + r * cols + ch * (rows * cols)
  {
    Offset(ch, c, r, cols, rows, chans)
  }

  lemma DecodeFacts(k: nat, rows: nat, cols: nat, chans: nat)
    requires k < rows * cols * chans
    ensures rows > 0 && cols > 0
    ensures k / (rows * cols) < chans
    ensures (k % (rows * cols)) / rows < cols
    ensures k == (k % (rows * cols)) % rows + ((k % (rows * cols)) / rows) * rows + (k / (rows * cols)) * (rows * cols)
  {
    var ps := rows * cols;
    assert ps > 0;
    var j := k % ps;
    if chans <= k / ps {
      MulLe(chans, k / ps, ps);
      assert false;
    }
    if cols <= j / rows {
      MulLe(cols, j / rows, rows);
      assert false;
    }
  }

  /** The position whose physical offset is k. */
  function Decode(k: nat, rows: nat, cols: nat, chans: nat): (p: Coord)
    requires k < rows * cols * chans
    ensures p.ch < chans && p.row < rows && p.col < cols
    ensures Offset(p.ch, p.row, p.col, rows, cols, chans) == k
  {
    DecodeFacts(k, rows, cols, chans);
    var j := k % (rows * cols);
    Coord(k / (rows * cols), j % rows, j / rows)
  }

  /** Decoding the offset of an in-bounds position gives that position back:
      together with Decode's own contract, Offset is a bijection between the
      positions of the cube and 0 .. rows*cols*chans. */
  lemma DecodeOffset(ch: nat, r: nat, c: nat, rows: nat, cols: nat, chans: nat)
    requires ch < chans && r < rows && c < cols
    ensures Decode(Offset(ch, r, c, rows, cols, chans), rows, cols, chans) == Coord(ch, r, c)
  {
    var k := Offset(ch, r, c, rows, cols, chans);
    OffsetBound(ch, r, c, rows, cols, chans);
    DivModUnique(k, rows * cols, ch, r + c * rows);
    DivModUnique(r + c * rows, rows, c, r);
  }

  /** Two in-bounds positions with the same offset are the same position. */
  lemma OffsetInjective(p: Coord, q: Coord, rows: nat, cols: nat, chans: nat)
    requires p.ch < chans && p.row < rows && p.col < cols
    requires q.ch < chans && q.row < rows && q.col < cols
    requires Offset(p.ch, p.row, p.col, rows, cols, chans) == Offset(q.ch, q.row, q.col, rows, cols, chans)
    ensures p == q
  {
    DecodeOffset(p.ch, p.row, p.col, rows, cols, chans);
    DecodeOffset(q.ch, q.row, q.col, rows, cols, chans);
  }

  lemma PlaneBounds(i: nat, ps: nat, n: nat)
    requires i < n
    ensures (i + 1) * ps == i * ps + ps
    ensures (i + 1) * ps <= n * ps
  {
    MulLe(i + 1, n, ps);
  }

  /** The offset of (ch, r, c) is where plane ch starts plus the offset of
      (r, c) within a single plane. */
  lemma PlaneOffsets(ch: nat, rows: nat, cols: nat, chans: nat)
    requires ch < chans
    ensures forall r: nat, c: nat | r < rows && c < cols ::
              Offset(ch, r, c, rows, cols, chans) == ch * (rows * cols) + Offset(0, r, c, rows, cols, 1)
  {
  }

  lemma PrefixSplit<T>(s: seq<T>, a: nat, b: nat)
    requires a <= b <= |s|
    ensures s[.. b] == s[.. a] + s[a .. b]
  {
  }

  /** s with the segment start .. start+|plane| replaced by plane: the
      elements of plane inside the segment, those of s outside it. */
  function WithPlane<T>(s: seq<T>, start: nat, plane: seq<T>): (t: seq<T>)
    requires start + |plane| <= |s|
    ensures |t| == |s|
    ensures forall k | 0 <= k < |t| ::
              t[k] == if start <= k < start + |plane| then plane[k - start] else s[k]
  {
    s[.. start] + plane + s[start + |plane| ..]
  }

  // ---------------------------------------------------------------------------
  // Plane-wise transposition

  /** Reads s as `chans` column-major planes of cols x rows and returns the
      column-major planes of their transposes, each rows x cols. */
  function Transposed<T>(s: seq<T>, rows: nat, cols: nat, chans: nat): (t: seq<T>)
    requires |s| == rows * cols * chans
    ensures |t| == |s|
  {
    seq(|s|, k requires 0 <= k < |s| =>
      var p := Decode(k, rows, cols, chans);
      s[Offset(p.ch, p.col, p.row, cols, rows, chans)])
  }

  /** Element (ch, r, c) of the transposed planes is element (ch, c, r) of the input. */
  lemma TransposedAt<T>(s: seq<T>, rows: nat, cols: nat, chans: nat, ch: nat, r: nat, c: nat)
    requires |s| == rows * cols * chans
    requires ch < chans && r < rows && c < cols
    ensures Transposed(s, rows, cols, chans)[Offset(ch, r, c, rows, cols, chans)]
         == s[Offset(ch, c, r, cols, rows, chans)]
  {
    DecodeOffset(ch, r, c, rows, cols, chans);
  }

  /** Transposing every plane twice gives the input back. */
  lemma {:induction false} TransposedTwice<T>(s: seq<T>, rows: nat, cols: nat, chans: nat)
    requires |s| == rows * cols * chans
    ensures Transposed(Transposed(s, rows, cols, chans), cols, rows, chans) == s
  {
    var t := Transposed(s, rows, cols, chans);
    var u := Transposed(t, cols, rows, chans);
    forall k | 0 <= k < |s|
      ensures u[k] == s[k]
    {
      var p := Decode(k, cols, rows, chans);
      TransposedAt(t, cols, rows, chans, p.ch, p.row, p.col);
      TransposedAt(s, rows, cols, chans, p.ch, p.col, p.row);
    }
  }

  /** Planes with a single row or a single column are unchanged by transposition. */
  lemma TransposedThin<T>(s: seq<T>, rows: nat, cols: nat, chans: nat)
    requires |s| == rows * cols * chans
    requires rows == 1 || cols == 1
    ensures Transposed(s, rows, cols, chans) == s
  {
    var t := Transposed(s, rows, cols, chans);
    forall k | 0 <= k < |s|
      ensures t[k] == s[k]
    {
      var p := Decode(k, rows, cols, chans);
      TransposedAt(s, rows, cols, chans, p.ch, p.row, p.col);
      if rows == 1 {
        assert p.row == 0 && rows * cols == cols * rows == cols;
      } else {
        assert p.col == 0 && rows * cols == cols * rows == rows;
      }
      assert Offset(p.ch, p.col, p.row, cols, rows, chans) == Offset(p.ch, p.row, p.col, rows, cols, chans);
    }
  }

  /** Plane i of the transposed planes is the transpose of plane i alone. */
  lemma TransposedPlane<T>(s: seq<T>, rows: nat, cols: nat, chans: nat, i: nat)
    requires |s| == rows * cols * chans && i < chans
    ensures (i + 1) * (rows * cols) <= |s|
    ensures Transposed(s, rows, cols, chans)[i * (rows * cols) .. (i + 1) * (rows * cols)]
         == Transposed(s[i * (rows * cols) .. (i + 1) * (rows * cols)], rows, cols, 1)
  {
    var ps := rows * cols;
    PlaneBounds(i, ps, chans);
    var plane := s[i * ps .. (i + 1) * ps];
    var whole := Transposed(s, rows, cols, chans)[i * ps .. (i + 1) * ps];
    var part := Transposed(plane, rows, cols, 1);
    forall j | 0 <= j < ps
      ensures whole[j] == part[j]
    {
      var p := Decode(j, rows, cols, 1);
      assert Offset(i, p.row, p.col, rows, cols, chans) == i * ps + j;
      TransposedAt(s, rows, cols, chans, i, p.row, p.col);
      TransposedAt(plane, rows, cols, 1, 0, p.row, p.col);
    }
  }

  // ---------------------------------------------------------------------------
  // Row-major <-> physical order

  /** The physical buffer holding the row-major sequence `values`. */
  function ToPhysical<T>(values: seq<T>, rows: nat, cols: nat, chans: nat): (b: seq<T>)
    requires |values| == rows * cols * chans
    ensures |b| == |values|
  {
    Transposed(values, rows, cols, chans)
  }

  /** The row-major sequence of the elements held in the physical buffer `buf`. */
  function ToRowMajor<T>(buf: seq<T>, rows: nat, cols: nat, chans: nat): (v: seq<T>)
    requires |buf| == rows * cols * chans
    ensures |v| == |buf|
  {
    Transposed(buf, cols, rows, chans)
  }

  /** Row-major element (ch, r, c) lands at physical position (ch, r, c). */
  lemma ToPhysicalAt<T>(values: seq<T>, rows: nat, cols: nat, chans: nat, ch: nat, r: nat, c: nat)
    requires |values| == rows * cols * chans
    requires ch < chans && r < rows && c < cols
    ensures ToPhysical(values, rows, cols, chans)[Offset(ch, r, c, rows, cols, chans)]
         == values[RowMajorOffset(ch, r, c, rows, cols, chans)]
  {
    TransposedAt(values, rows, cols, chans, ch, r, c);
  }

  /** Physical element (ch, r, c) appears at row-major position (ch, r, c). */
  lemma ToRowMajorAt<T>(buf: seq<T>, rows: nat, cols: nat, chans: nat, ch: nat, r: nat, c: nat)
    requires |buf| == rows * cols * chans
    requires ch < chans && r < rows && c < cols
    ensures ToRowMajor(buf, rows, cols, chans)[RowMajorOffset(ch, r, c, rows, cols, chans)]
         == buf[Offset(ch, r, c, rows, cols, chans)]
  {
    TransposedAt(buf, cols, rows, chans, ch, c, r);
  }

  /** Converting row-major values to the physical layout and back is the identity. */
  lemma RowMajorRoundTrip<T>(values: seq<T>, rows: nat, cols: nat, chans: nat)
    requires |values| == rows * cols * chans
    ensures ToRowMajor(ToPhysical(values, rows, cols, chans), rows, cols, chans) == values
  {
    TransposedTwice(values, rows, cols, chans);
  }

  /** Reading a buffer row-major and storing it back gives the same buffer. */
  lemma PhysicalRoundTrip<T>(buf: seq<T>, rows: nat, cols: nat, chans: nat)
    requires |buf| == rows * cols * chans
    ensures ToPhysical(ToRowMajor(buf, rows, cols, chans), rows, cols, chans) == buf
  {
    TransposedTwice(buf, cols, rows, chans);
  }

  /** With a single row per plane the row-major view is the buffer itself. */
  lemma ToRowMajorSingleRow<T>(buf: seq<T>, cols: nat, chans: nat)
    requires |buf| == 1 * cols * chans
    ensures ToRowMajor(buf, 1, cols, chans) == buf
  {
    TransposedThin(buf, cols, 1, chans);
  }

  /** One more plane of the row-major extraction: the prefix for i+1 planes is
      the prefix for i planes followed by plane i transposed on its own. */
  lemma RowMajorPrefixStep<T>(buf: seq<T>, rows: nat, cols: nat, chans: nat, i: nat)
    requires |buf| == rows * cols * chans && i < chans
    ensures (i + 1) * (rows * cols) <= |buf|
    ensures ToRowMajor(buf, rows, cols, chans)[.. (i + 1) * (rows * cols)]
         == ToRowMajor(buf, rows, cols, chans)[.. i * (rows * cols)]
            + Transposed(buf[i * (rows * cols) .. (i + 1) * (rows * cols)], cols, rows, 1)
  {
    var ps := rows * cols;
    PlaneBounds(i, ps, chans);
    TransposedPlane(buf, cols, rows, chans, i);
    assert cols * rows == ps;
    PrefixSplit(ToRowMajor(buf, rows, cols, chans), i * ps, (i + 1) * ps);
  }

  /** One more plane of Fill's row-major branch: once plane i of the buffer
      holds the transpose of input plane i, the buffer agrees with ToPhysical
      on i+1 planes of ps = rows*cols elements. */
  lemma PhysicalPrefixStep<T>(values: seq<T>, before: seq<T>, after: seq<T>, plane: seq<T>,
                              rows: nat, cols: nat, chans: nat, ps: nat, i: nat)
    requires ps == rows * cols && |values| == ps * chans && i < chans
    requires |before| == |values|
    requires (i + 1) * ps == i * ps + ps <= |values|
    requires before[.. i * ps] == ToPhysical(values, rows, cols, chans)[.. i * ps]
    requires plane == Transposed(values[i * ps .. i * ps + ps], rows, cols, 1)
    requires after == WithPlane(before, i * ps, plane)
    ensures after[.. (i + 1) * ps] == ToPhysical(values, rows, cols, chans)[.. (i + 1) * ps]
  {
    TransposedPlane(values, rows, cols, chans, i);
    assert after[.. (i + 1) * ps] == before[.. i * ps] + plane;
    PrefixSplit(ToPhysical(values, rows, cols, chans), i * ps, (i + 1) * ps);
  }

  // ---------------------------------------------------------------------------
  // Filling from a flat sequence

  /** The buffer that Fill(values, flag) writes: the planes transposed from
      row-major input when `transpose` (row-major flag set and a shape of at
      least two dimensions), the input copied verbatim otherwise. */
  function Filled<T>(values: seq<T>, transpose: bool, rows: nat, cols: nat, chans: nat): (b: seq<T>)
    requires |values| == rows * cols * chans
    ensures |b| == |values|
    ensures !transpose ==> b == values
  {
    if transpose then ToPhysical(values, rows, cols, chans) else values
  }

  /** Fill followed by the row-major extraction returns the filled values, both
      when Fill transposed and when it copied a shape whose planes have one row. */
  lemma FillThenRowMajor<T>(values: seq<T>, transpose: bool, rows: nat, cols: nat, chans: nat)
    requires |values| == rows * cols * chans
    requires transpose || rows == 1
    ensures ToRowMajor(Filled(values, transpose, rows, cols, chans), rows, cols, chans) == values
  {
    if transpose {
      RowMajorRoundTrip(values, rows, cols, chans);
    } else {
      ToRowMajorSingleRow(values, cols, chans);
    }
  }

  // ---------------------------------------------------------------------------
  // Column-major extraction

  /** Column-major extraction as evidently intended: plane i is read from its own
      start, offset i*ps of the buffer. */
  function ColumnMajorValues<T>(buf: seq<T>, ps: nat, chans: nat): (v: seq<T>)
    requires chans * ps <= |buf|
    ensures |v| == chans * ps
    decreases chans
  {
    if chans == 0 then []
    else
      PlaneBounds(chans - 1, ps, chans);
      ColumnMajorValues(buf, ps, chans - 1) + buf[(chans - 1) * ps .. chans * ps]
  }

  /** The intended column-major extraction is the buffer itself. */
  lemma {:induction false} ColumnMajorValuesIsBuffer<T>(buf: seq<T>, ps: nat, chans: nat)
    requires chans * ps <= |buf|
    ensures ColumnMajorValues(buf, ps, chans) == buf[.. chans * ps]
    decreases chans
  {
    if chans > 0 {
      PlaneBounds(chans - 1, ps, chans);
      ColumnMajorValuesIsBuffer(buf, ps, chans - 1);
      assert buf[.. chans * ps] == buf[.. (chans - 1) * ps] + buf[(chans - 1) * ps .. chans * ps];
    }
  }

  /** Column-major extraction as written: the copy for plane i starts i*ps
      elements after the start of plane i, i.e. at buffer offset 2*i*ps; None
      when some plane's copy runs past the end of the buffer. */
  function ColumnMajorReadAsWritten<T>(buf: seq<T>, ps: nat, chans: nat): (v: Option<seq<T>>)
    ensures v.Some? ==> |v.value| == chans * ps
    decreases chans
  {
    if chans == 0 then Some([])
    else
      var start := (chans - 1) * ps + (chans - 1) * ps;
      match ColumnMajorReadAsWritten(buf, ps, chans - 1)
      case None => None
      case Some(prefix) =>
        if start + ps <= |buf| then
          PlaneBounds(chans - 1, ps, chans);
          Some(prefix + buf[start .. start + ps])
        else None
  }

  /** With a single channel the as-written copy is the buffer. */
  lemma ColumnMajorReadSingleChannel<T>(buf: seq<T>, ps: nat)
    requires |buf| == ps
    ensures ColumnMajorReadAsWritten(buf, ps, 1) == Some(buf)
  {
    assert ColumnMajorReadAsWritten(buf, ps, 0) == Some([]);
    assert (1 - 1) * ps + (1 - 1) * ps == 0;
    assert [] + buf[0 .. 0 + ps] == buf;
  }

  /** With two or more non-empty channels the as-written copy of the last plane
      reads past the end of the buffer. */
  lemma ColumnMajorReadOverruns<T>(buf: seq<T>, ps: nat, chans: nat)
    requires |buf| == chans * ps && chans >= 2 && ps >= 1
    ensures ColumnMajorReadAsWritten(buf, ps, chans) == None
  {
    var start := (chans - 1) * ps + (chans - 1) * ps;
    MulLe(1, chans - 1, ps);
    assert chans * ps == (chans - 1) * ps + ps;
    assert start + ps > |buf|;
  }

  // ---------------------------------------------------------------------------
  // Padding

  /** Whether position q of the new cube lies in the sub-rectangle that the
      old rows x cols planes are copied into, at (top, left). */
  predicate InSubcube(q: Coord, rows: nat, cols: nat, top: nat, left: nat)
  {
    top <= q.row < top + rows && left <= q.col < left + cols
  }

  /** The new cube `base` (newRows x newCols x chans) after the first `done`
      elements of the old cube s (rows x cols x chans) have been copied into
      its sub-rectangle at (top, left). */
  function SubcubeCopied<T>(base: seq<T>, s: seq<T>, rows: nat, cols: nat, chans: nat, top: nat, left: nat,
                            newRows: nat, newCols: nat, done: nat): (t: seq<T>)
    requires |s| == rows * cols * chans && done <= |s|
    requires |base| == newRows * newCols * chans
    requires rows + top <= newRows && cols + left <= newCols
    ensures |t| == |base|
  {
    seq(|base|, k requires 0 <= k < |base| =>
      var q := Decode(k, newRows, newCols, chans);
      if InSubcube(q, rows, cols, top, left)
         && Offset(q.ch, q.row - top, q.col - left, rows, cols, chans) < done
      then s[Offset(q.ch, q.row - top, q.col - left, rows, cols, chans)]
      else base[k])
  }

  /** The padded cube: s copied into the sub-rectangle at (top, left) of a
      (rows+top+bottom) x (cols+left+right) x chans cube filled with p. */
  function Padded<T>(s: seq<T>, rows: nat, cols: nat, chans: nat,
                     top: nat, bottom: nat, left: nat, right: nat, p: T): (t: seq<T>)
    requires |s| == rows * cols * chans
    ensures |t| == (rows + top + bottom) * (cols + left + right) * chans
  {
    var newRows, newCols := rows + top + bottom, cols + left + right;
    SubcubeCopied(seq(newRows * newCols * chans, _ => p), s, rows, cols, chans, top, left,
                  newRows, newCols, |s|)
  }

  /** Before anything is copied the new cube is the base cube. */
  lemma SubcubeCopiedNothing<T>(base: seq<T>, s: seq<T>, rows: nat, cols: nat, chans: nat, top: nat, left: nat,
                                newRows: nat, newCols: nat)
    requires |s| == rows * cols * chans
    requires |base| == newRows * newCols * chans
    requires rows + top <= newRows && cols + left <= newCols
    ensures SubcubeCopied(base, s, rows, cols, chans, top, left, newRows, newCols, 0) == base
  {
  }

  /** A non-empty cube stays non-empty when it grows. */
  lemma GrownNonEmpty(rows: nat, cols: nat, chans: nat, extraRows: nat, extraCols: nat)
    requires rows * cols * chans > 0
    ensures (rows + extraRows) * (cols + extraCols) * chans > 0
  {
    DecodeFacts(0, rows, cols, chans);
    MulLe(rows, rows + extraRows, cols);
    MulLe(cols, cols + extraCols, rows + extraRows);
  }

  /** Where the subcube copy puts old element k. */
  function SubcubeTarget(k: nat, rows: nat, cols: nat, chans: nat, top: nat, left: nat,
                         newRows: nat, newCols: nat): (j: nat)
    requires k < rows * cols * chans
    requires rows + top <= newRows && cols + left <= newCols
    ensures j < newRows * newCols * chans
  {
    var q := Decode(k, rows, cols, chans);
    Offset(q.ch, q.row + top, q.col + left, newRows, newCols, chans)
  }

  /** Copying one more old element writes it at its target and nowhere else. */
  lemma SubcubeCopiedStep<T>(base: seq<T>, s: seq<T>, rows: nat, cols: nat, chans: nat, top: nat, left: nat,
                             newRows: nat, newCols: nat, done: nat)
    requires |s| == rows * cols * chans && done < |s|
    requires |base| == newRows * newCols * chans
    requires rows + top <= newRows && cols + left <= newCols
    ensures SubcubeCopied(base, s, rows, cols, chans, top, left, newRows, newCols, done + 1)
         == SubcubeCopied(base, s, rows, cols, chans, top, left, newRows, newCols, done)
              [SubcubeTarget(done, rows, cols, chans, top, left, newRows, newCols) := s[done]]
  {
    var before := SubcubeCopied(base, s, rows, cols, chans, top, left, newRows, newCols, done);
    var after := SubcubeCopied(base, s, rows, cols, chans, top, left, newRows, newCols, done + 1);
    var target := SubcubeTarget(done, rows, cols, chans, top, left, newRows, newCols);
    var d := Decode(done, rows, cols, chans);
    DecodeOffset(d.ch, d.row + top, d.col + left, newRows, newCols, chans);
    forall k | 0 <= k < |after|
      ensures after[k] == before[target := s[done]][k]
    {
      var q := Decode(k, newRows, newCols, chans);
      if InSubcube(q, rows, cols, top, left)
         && Offset(q.ch, q.row - top, q.col - left, rows, cols, chans) == done
      {
        OffsetInjective(Coord(q.ch, q.row - top, q.col - left), d, rows, cols, chans);
      }
    }
  }

  /** Element (ch, i, j) of the padded cube is p outside the copied rectangle
      and the old element (ch, i-top, j-left) inside it. */
  lemma PaddedAt<T>(s: seq<T>, rows: nat, cols: nat, chans: nat,
                    top: nat, bottom: nat, left: nat, right: nat, p: T, ch: nat, i: nat, j: nat)
    requires |s| == rows * cols * chans
    requires ch < chans && i < rows + top + bottom && j < cols + left + right
    ensures Padded(s, rows, cols, chans, top, bottom, left, right, p)
              [Offset(ch, i, j, rows + top + bottom, cols + left + right, chans)]
         == if top <= i < top + rows && left <= j < left + cols
            then s[Offset(ch, i - top, j - left, rows, cols, chans)]
            else p
  {
    DecodeOffset(ch, i, j, rows + top + bottom, cols + left + right, chans);
  }

  /** Padding by zero on every side gives the old cube back, whatever p is. */
  lemma PaddedByZero<T>(s: seq<T>, rows: nat, cols: nat, chans: nat, p: T)
    requires |s| == rows * cols * chans
    ensures Padded(s, rows, cols, chans, 0, 0, 0, 0, p) == s
  {
    var t := Padded(s, rows, cols, chans, 0, 0, 0, 0, p);
    forall k | 0 <= k < |s|
      ensures t[k] == s[k]
    {
      var q := Decode(k, rows, cols, chans);
      PaddedAt(s, rows, cols, chans, 0, 0, 0, 0, p, q.ch, q.row, q.col);
    }
  }
}

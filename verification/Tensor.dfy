/** Native tensors: layout, the checked offset of the last row, and the values stored there. */
module Tensors {
  import opened Wrappers
  import opened NativeBatch
  import opened BatchShapes

  // A 32-bit float as its bytes in memory, least significant first.
  datatype F32 = F32(b0: bv8, b1: bv8, b2: bv8, b3: bv8)
  {
    // The exponent bits are not all ones.
    predicate IsFinite() {
      !(b3 & 0x7F == 0x7F && b2 & 0x80 == 0x80)
    }
  }

  const SIZE_OF_F32: nat := 4

  datatype TensorType = TypeF32 | OtherType(tag: int)

  datatype RawTensor = RawTensor(
    name: string,               // the fixed-size name buffer, one `char` per byte
    kind: TensorType,
    ne: seq<int>,               // elements per dimension
    nb: seq<nat>,               // stride in bytes per dimension
    data: Option<seq<bv8>>,
    buffer: bool,               // whether the tensor's own buffer pointer is set
    viewSrc: Option<bool>)      // for a view, whether its source's buffer pointer is set
  {
    // The end of the last element, in bytes from `data`.
    function Extent(): int
      requires |ne| == |nb| == 4
    {
      SIZE_OF_F32 + (ne[0] - 1) * nb[0] + (ne[1] - 1) * nb[1] + (ne[2] - 1) * nb[2] + (ne[3] - 1) * nb[3]
    }

    // The native allocation behind `data` holds every element that the layout names.
    predicate Backed() {
      && |ne| == |nb| == 4
      && (kind.TypeF32? && (forall k | 0 <= k < 4 :: 0 < ne[k]) && data.Some? ==> Extent() <= |data.value|)
    }
  }

  type Tensor = t: RawTensor | t.Backed()
    witness RawTensor("", TypeF32, [1, 1, 1, 1], [4, 4, 4, 4], None, false, None)

  function ToUsize(n: int): Option<nat> {
    if 0 <= n <= USIZE_MAX then Some(n) else None
  }

  function RowOffset(t: Tensor, width: nat, rows: nat, outputs: nat): Option<nat> {
    match ToUsize(t.ne[1])
    case None => None
    case Some(tensorRows) =>
      match CheckedMul(width, SIZE_OF_F32)
      case None => None
      case Some(rowBytes) =>
        match CheckedMul(rowBytes, tensorRows)
        case None => None
        case Some(total) =>
          if
            || !t.kind.TypeF32?
            || ToUsize(t.ne[0]) != Some(width)
            || tensorRows == 0
            || (tensorRows != rows && tensorRows != outputs)
            || t.ne[2] != 1
            || t.ne[3] != 1
            || t.nb != [SIZE_OF_F32, rowBytes, total, total]
          then None
          else if rowBytes <= total then Some(total - rowBytes) else None
  }

  // `ggml_backend_tensor_get`: consecutive floats from a byte offset.
  function ReadFloats(data: seq<bv8>, offset: nat, n: nat): (values: seq<F32>)
    requires offset + n * SIZE_OF_F32 <= |data|
    ensures |values| == n
  {
    seq(n, j requires 0 <= j < n => F32At(data, offset + j * SIZE_OF_F32))
  }

  function F32At(data: seq<bv8>, at: nat): F32
    requires at + SIZE_OF_F32 <= |data|
  {
    F32(data[at], data[at + 1], data[at + 2], data[at + 3])
  }

  // The upper half of a float: its sign bit, its eight exponent bits, and seven more.
  function UpperHalf(v: F32): bv16 {
    (v.b3 as bv16 << 8) | v.b2 as bv16
  }

  // A float is finite exactly when its exponent bits are not all ones.
  lemma FiniteExactly(v: F32)
    ensures v.IsFinite() <==> (UpperHalf(v) >> 7) & 0xFF != 0xFF
  {
  }

  // Floats in memory, one after the other.
  function Bytes(values: seq<F32>): seq<bv8> {
    if values == [] then []
    else
      var last := values[|values| - 1];
      Bytes(values[..|values| - 1]) + [last.b0, last.b1, last.b2, last.b3]
  }

  // Reading gives back what was laid out.
  lemma {:induction false} BytesReadBack(before: seq<bv8>, values: seq<F32>, after: seq<bv8>)
    ensures |Bytes(values)| == |values| * SIZE_OF_F32
    ensures ReadFloats(before + Bytes(values) + after, |before|, |values|) == values
  {
    if values != [] {
      var n := |values| - 1;
      var last := values[n];
      var bytes := [last.b0, last.b1, last.b2, last.b3];
      BytesReadBack(before, values[..n], bytes + after);
      assert before + Bytes(values) + after == before + Bytes(values[..n]) + (bytes + after);
      var data := before + Bytes(values) + after;
      assert ReadFloats(data, |before|, |values|)[..n] == ReadFloats(data, |before|, n);
      assert ReadFloats(data, |before|, |values|)[n] == last;
    }
  }

  // The layout and allocation that a capture read accepts.
  predicate Readable(t: Tensor, width: nat, rows: nat, outputs: nat) {
    && RowOffset(t, width, rows, outputs).Some?
    && t.data.Some?
    && (if t.viewSrc.Some? then t.viewSrc.value else t.buffer)
  }

  // Row `ne[1] - 1` by the tensor's own strides.
  function LastRow(t: Tensor, width: nat, rows: nat, outputs: nat): (values: seq<F32>)
    requires Readable(t, width, rows, outputs)
    ensures |values| == width
  {
    seq(width, j requires 0 <= j < width =>
      (ReadFloatIsElement(t, width, rows, outputs, j);
       F32At(t.data.value, (t.ne[1] - 1) * t.nb[1] + j * t.nb[0])))
  }

  // A contiguous two-dimensional float tensor of `n` rows of `width` elements.
  predicate HoldsRows(t: Tensor, width: nat, n: nat) {
    && t.kind.TypeF32? && 0 < n <= USIZE_MAX && 4 * width * n <= USIZE_MAX
    && t.ne == [width, n, 1, 1] && t.nb == [4, 4 * width, 4 * width * n, 4 * width * n]
  }

  // The allocation of the tensor, or of what it views.
  predicate Allocated(t: Tensor) {
    t.data.Some? && ((t.viewSrc.None? && t.buffer) || t.viewSrc == Some(true))
  }

  lemma RowBytes(width: nat, n: nat)
    ensures width * SIZE_OF_F32 == 4 * width && width * SIZE_OF_F32 * n == 4 * width * n
    ensures 0 < n ==> 4 * width <= 4 * width * n && 4 * width * n - 4 * width == 4 * width * (n - 1)
  {
  }

  // The layouts accepted are exactly the contiguous ones that hold every row of the batch, or only its
  // outputs, and the offset is that of the last row.
  lemma RowOffsetExactly(t: Tensor, width: nat, rows: nat, outputs: nat)
    ensures RowOffset(t, width, rows, outputs).Some? <==> HoldsRows(t, width, rows) || HoldsRows(t, width, outputs)
    ensures forall n: nat | HoldsRows(t, width, n) && (n == rows || n == outputs) ::
              RowOffset(t, width, rows, outputs) == Some(4 * width * (n - 1))
  {
    if 0 < t.ne[1] {
      RowBytes(width, t.ne[1]);
    }
  }

  lemma ReadableExactly(t: Tensor, width: nat, rows: nat, outputs: nat)
    ensures Readable(t, width, rows, outputs) <==>
            (HoldsRows(t, width, rows) || HoldsRows(t, width, outputs)) && Allocated(t)
  {
    RowOffsetExactly(t, width, rows, outputs);
  }

  // The accepted offset ends one row before the end of the tensor.
  lemma OffsetEndsAtExtent(t: Tensor, width: nat, rows: nat, outputs: nat)
    requires RowOffset(t, width, rows, outputs).Some? && 0 < width
    ensures RowOffset(t, width, rows, outputs).value + width * SIZE_OF_F32 == t.Extent()
  {
  }

  // Every float of the accepted read is the element of the last row with that column, inside the
  // tensor's extent.
  lemma ReadFloatIsElement(t: Tensor, width: nat, rows: nat, outputs: nat, j: nat)
    requires RowOffset(t, width, rows, outputs).Some? && j < width
    ensures 0 < width == t.ne[0] && 0 < t.ne[1]
    ensures RowOffset(t, width, rows, outputs).value + j * SIZE_OF_F32 == (t.ne[1] - 1) * t.nb[1] + j * t.nb[0]
    ensures RowOffset(t, width, rows, outputs).value + j * SIZE_OF_F32 + SIZE_OF_F32 <= t.Extent()
    ensures t.data.Some? ==> t.Extent() <= |t.data.value|
  {
  }

  // The accepted read is the last row, and it ends exactly where the tensor ends.
  lemma ReadIsLastRow(t: Tensor, width: nat, rows: nat, outputs: nat)
    requires Readable(t, width, rows, outputs) && 0 < width
    ensures var offset := RowOffset(t, width, rows, outputs).value;
            && offset + width * SIZE_OF_F32 == t.Extent() <= |t.data.value|
            && ReadFloats(t.data.value, offset, width) == LastRow(t, width, rows, outputs)
  {
    OffsetEndsAtExtent(t, width, rows, outputs);
    forall j | 0 <= j < width
      ensures F32At(t.data.value, RowOffset(t, width, rows, outputs).value + j * SIZE_OF_F32)
              == LastRow(t, width, rows, outputs)[j]
    {
      ReadFloatIsElement(t, width, rows, outputs, j);
    }
  }

  // The token that row `k` describes: tensors hold all token rows or only the requested outputs.
  function TokenOfRow(r: Batch, tensorRows: nat, k: nat): int
    requires 0 <= r.nTokens && (tensorRows == r.nTokens || tensorRows == |r.Outputs()|) && k < tensorRows
  {
    if tensorRows == r.nTokens then k else r.Outputs()[k]
  }

  // For an accepted batch the bytes read lie inside the tensor and are the last token's row, whether the
  // tensor holds every token row or only the requested ones.
  lemma ReadIsLastToken(t: Tensor, width: nat, r: Batch, nUbatch: nat)
    requires ShapeOf(r, nUbatch).Ok? && 0 < width
    requires var (rows, outputs) := ShapeOf(r, nUbatch).value; Readable(t, width, rows, outputs)
    ensures var (rows, outputs) := ShapeOf(r, nUbatch).value;
            var offset := RowOffset(t, width, rows, outputs).value;
            && 1 <= outputs <= rows
            && offset + width * SIZE_OF_F32 == t.Extent() <= |t.data.value|
            && ReadFloats(t.data.value, offset, width) == LastRow(t, width, rows, outputs)
    ensures t.ne[1] == r.nTokens || t.ne[1] == |r.Outputs()|
    ensures 0 < t.ne[1] && TokenOfRow(r, t.ne[1], t.ne[1] - 1) == r.nTokens - 1
  {
    AcceptedLast(r, nUbatch);
    var (rows, outputs) := ShapeOf(r, nUbatch).value;
    ReadIsLastRow(t, width, rows, outputs);
  }
}

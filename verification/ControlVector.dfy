/** Validation of a control vector: one row of `n_embd` floats for each layer from 1 to the last. */
module ControlVector {
  import opened Wrappers
  import opened Tensors

  datatype ControlVectorError =
    | InvalidEmbeddingWidth(width: int)
    | InsufficientLayers(count: nat)
    | InvalidLayerRange(start: nat, end: nat, layerCount: nat)
    | LengthOverflow
    | LengthMismatch(expected: nat, actual: nat)
    | NonFiniteValue(index: nat)
    | LayerIndexOutOfRange(index: nat)

  function FirstNonFinite(data: seq<F32>): (index: Option<nat>)
    ensures index.None? <==> forall v <- data :: v.IsFinite()
    ensures index.Some? ==> index.value < |data| && !data[index.value].IsFinite()
    ensures index.Some? ==> forall i | 0 <= i < index.value :: data[i].IsFinite()
  {
    if data == [] then None
    else if !data[0].IsFinite() then Some(0)
    else match FirstNonFinite(data[1..]) { case None => None case Some(i) => Some(i + 1) }
  }

  function Validate(nEmbd: I32, layerCount: U32, data: seq<F32>, start: U32, end: U32)
    : Result<(int, int, int), ControlVectorError>
  {
    if nEmbd <= 0 then Err(InvalidEmbeddingWidth(nEmbd))
    else if layerCount < 2 then Err(InsufficientLayers(layerCount))
    else if start == 0 || start > end || end >= layerCount then Err(InvalidLayerRange(start, end, layerCount))
    else if ToUsize(layerCount - 1).None? then Err(LengthOverflow)
    else
      match CheckedMul(nEmbd, layerCount - 1)
      case None => Err(LengthOverflow)
      case Some(expected) =>
        if |data| != expected then Err(LengthMismatch(expected, |data|))
        else
          match FirstNonFinite(data)
          case Some(index) => Err(NonFiniteValue(index))
          case None =>
            if start > I32_MAX then Err(LayerIndexOutOfRange(start))
            else if end > I32_MAX then Err(LayerIndexOutOfRange(end))
            else Ok((nEmbd, start, end))
  }

  // The cells of the row for `layer`.
  predicate InRow(nEmbd: nat, layer: nat, i: nat) {
    (layer - 1) * nEmbd <= i < layer * nEmbd
  }

  lemma ProductMonotone(a: nat, b: nat, n: nat)
    requires a <= b
    ensures a * n <= b * n
  {
  }

  lemma RowOfOffset(nEmbd: nat, q: nat, offset: nat, layer: nat)
    requires offset < nEmbd
    ensures InRow(nEmbd, layer, q * nEmbd + offset) <==> layer == q + 1
  {
    if layer < q + 1 {
      ProductMonotone(layer, q, nEmbd);
    } else if layer > q + 1 {
      ProductMonotone(q + 1, layer - 1, nEmbd);
    }
  }

  // Every cell lies in exactly one row.
  lemma RowOfCell(nEmbd: nat, i: nat, layer: nat)
    requires 0 < nEmbd
    ensures InRow(nEmbd, layer, i) <==> layer == i / nEmbd + 1
  {
    RowOfOffset(nEmbd, i / nEmbd, i % nEmbd, layer);
  }

  predicate RowInside(nEmbd: nat, layer: nat, length: nat) {
    0 <= (layer - 1) * nEmbd <= layer * nEmbd <= length
  }

  // Validation succeeds exactly when width, layers, range, length and values are right and nothing
  // overflows.
  lemma ValidatesExactly(nEmbd: I32, layerCount: U32, data: seq<F32>, start: U32, end: U32)
    ensures Validate(nEmbd, layerCount, data, start, end).Ok? <==>
            && 0 < nEmbd && 2 <= layerCount && 0 < start <= end < layerCount
            && nEmbd * (layerCount - 1) <= USIZE_MAX && |data| == nEmbd * (layerCount - 1)
            && (forall v <- data :: v.IsFinite()) && end <= I32_MAX
    ensures Validate(nEmbd, layerCount, data, start, end).Ok? ==>
            Validate(nEmbd, layerCount, data, start, end).value == (nEmbd, start, end)
  {
  }

  // Which error is reported, in the order of the checks.
  lemma FaultsInOrder(nEmbd: I32, layerCount: U32, data: seq<F32>, start: U32, end: U32)
    ensures var r := Validate(nEmbd, layerCount, data, start, end);
            var rangeOk := 0 < nEmbd && 2 <= layerCount && 0 < start <= end < layerCount;
            var expected := nEmbd * (layerCount - 1);
            && (nEmbd <= 0 ==> r == Err(InvalidEmbeddingWidth(nEmbd)))
            && (0 < nEmbd && layerCount < 2 ==> r == Err(InsufficientLayers(layerCount)))
            && (0 < nEmbd && 2 <= layerCount && !(0 < start <= end < layerCount) ==>
                  r == Err(InvalidLayerRange(start, end, layerCount)))
            && (rangeOk && expected > USIZE_MAX ==> r == Err(LengthOverflow))
            && (rangeOk && expected <= USIZE_MAX && |data| != expected ==> r == Err(LengthMismatch(expected, |data|)))
            && (rangeOk && |data| == expected <= USIZE_MAX ==>
                  && (forall i: nat | i < |data| && !data[i].IsFinite() && (forall j | 0 <= j < i :: data[j].IsFinite())
                        :: r == Err(NonFiniteValue(i)))
                  && ((forall v <- data :: v.IsFinite()) && end > 0x7FFF_FFFF ==>
                        r == Err(LayerIndexOutOfRange(if start > 0x7FFF_FFFF then start else end))))
  {
    if 0 < nEmbd && 2 <= layerCount {
      ProductMonotone(1, nEmbd, layerCount - 1);
    }
  }

  // In accepted data the row of each controlled layer is inside, and the rows of layers 1 to the last tile
  // it: every cell is in exactly one of them.
  lemma RowsTile(nEmbd: I32, layerCount: U32, data: seq<F32>, start: U32, end: U32)
    requires Validate(nEmbd, layerCount, data, start, end).Ok?
    ensures forall layer: nat | start <= layer <= end :: RowInside(nEmbd, layer, |data|)
    ensures forall i: nat, layer: nat | i < |data| :: InRow(nEmbd, layer, i) ==> 1 <= layer < layerCount
    ensures forall i: nat, layer: nat :: InRow(nEmbd, layer, i) <==> layer == i / nEmbd + 1
  {
    forall layer: nat | start <= layer <= end ensures RowInside(nEmbd, layer, |data|) {
      ProductMonotone(0, layer - 1, nEmbd);
      ProductMonotone(layer - 1, layer, nEmbd);
      ProductMonotone(layer, layerCount - 1, nEmbd);
    }
    forall i: nat, layer: nat | i < |data| && InRow(nEmbd, layer, i) ensures 1 <= layer < layerCount {
      if layer >= layerCount {
        ProductMonotone(layerCount - 1, layer - 1, nEmbd);
      }
    }
    forall i: nat, layer: nat ensures InRow(nEmbd, layer, i) <==> layer == i / nEmbd + 1 {
      RowOfCell(nEmbd, i, layer);
    }
  }
}

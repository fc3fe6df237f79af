/**
 When a decode delivers a snapshot, and why it does not otherwise, over the callbacks themselves: node
 names as text, tensors as bytes in a spelled-out layout.
 */
module CaptureDelivery {
  import opened Wrappers
  import opened NativeBatch
  import opened BatchShapes
  import opened CaptureErrors
  import opened Tensors
  import LayerName
  import Decimal
  import opened CaptureModel
  import opened CaptureTrace
  import Runs = ContextRun

  // The call hands over the node "l_out-<layer>" for reading.
  predicate HandsOver(c: Call, layer: nat) {
    && !c.ask && c.tensor.Some? && layer <= 0xFFFF_FFFF
    && LayerName.Holds(c.tensor.value.name, "l_out-" + Decimal.Print(layer))
  }

  lemma ReadsExactly(c: Call, layer: nat)
    ensures Reads(c, layer) <==> HandsOver(c, layer)
  {
    if c.tensor.Some? {
      LayerName.ParsesExactly(c.tensor.value.name, layer);
    }
  }

  // The tensor holds either every row of the batch or its outputs, in memory that can be read.
  predicate Acceptable(scope: Scope, t: Tensor) {
    (HoldsRows(t, scope.width, scope.rows) || HoldsRows(t, scope.width, scope.outputs)) && Allocated(t)
  }

  // Column `j` of the last row, in bytes from the start of the tensor.
  function LastRowAt(t: Tensor, width: nat, j: nat): int {
    4 * width * (t.ne[1] - 1) + 4 * j
  }

  // `values` are the floats of the last row.
  predicate IsLastRow(t: Tensor, width: nat, values: seq<F32>)
    requires t.data.Some?
  {
    && |values| == width
    && forall j: nat | j < width ::
         var at := LastRowAt(t, width, j);
         0 <= at && at + 4 <= |t.data.value| && values[j] == F32At(t.data.value, at)
  }

  lemma LastRowExactly(t: Tensor, scope: Scope, values: seq<F32>)
    requires Acceptable(scope, t)
    ensures Readable(t, scope.width, scope.rows, scope.outputs)
    ensures IsLastRow(t, scope.width, values) <==> values == LastRow(t, scope.width, scope.rows, scope.outputs)
  {
    ReadableExactly(t, scope.width, scope.rows, scope.outputs);
    RowOffsetExactly(t, scope.width, scope.rows, scope.outputs);
    var row := LastRow(t, scope.width, scope.rows, scope.outputs);
    forall j: nat | j < scope.width
      ensures var at := LastRowAt(t, scope.width, j);
              0 <= at && at + 4 <= |t.data.value| && row[j] == F32At(t.data.value, at)
    {
      ReadFloatIsElement(t, scope.width, scope.rows, scope.outputs, j);
    }
  }

  // Call `i` is the only one that hands over `layer`, and its tensor yields `values`.
  predicate SoleReader(calls: seq<Call>, layer: nat, i: nat) {
    && i < |calls| && HandsOver(calls[i], layer)
    && forall j | 0 <= j < |calls| && HandsOver(calls[j], layer) :: j == i
  }

  predicate Yields(scope: Scope, c: Call, values: seq<F32>) {
    && c.tensor.Some? && !c.panics && Acceptable(scope, c.tensor.value)
    && IsLastRow(c.tensor.value, scope.width, values) && forall v <- values :: v.IsFinite()
  }

  lemma YieldsExactly(scope: Scope, c: Call, values: seq<F32>)
    requires c.tensor.Some? && Acceptable(scope, c.tensor.value)
    ensures Readable(c.tensor.value, scope.width, scope.rows, scope.outputs)
    ensures var row := LastRow(c.tensor.value, scope.width, scope.rows, scope.outputs);
            Yields(scope, c, values) <==> !c.panics && values == row && forall v <- row :: v.IsFinite()
  {
    LastRowExactly(c.tensor.value, scope, values);
  }

  lemma ReaderExactly(calls: seq<Call>, layer: nat, n: nat)
    requires n <= |calls|
    ensures ReaderOf(calls, layer, n).Some? <==> exists j :: 0 <= j < n && HandsOver(calls[j], layer)
  {
    forall j | 0 <= j < n ensures Reads(calls[j], layer) <==> HandsOver(calls[j], layer) {
      ReadsExactly(calls[j], layer);
    }
  }

  // How a call that hands over a selected layer is judged, the first reason first: the layer was handed
  // over before, the tensor is not acceptable, the read panics, a value is not finite.
  lemma VerdictOnRead(scope: Scope, calls: seq<Call>, i: nat, layer: nat)
    requires i < |calls| && layer in scope.layers && HandsOver(calls[i], layer)
    ensures VerdictAt(scope, calls, i) ==
            if exists j :: 0 <= j < i && HandsOver(calls[j], layer) then Fails(DuplicateLayer(layer))
            else if !Acceptable(scope, calls[i].tensor.value) then Fails(UnsupportedTensor(layer))
            else if calls[i].panics then Poisons
            else if exists values :: Yields(scope, calls[i], values) then Fine
            else Fails(NonFinite(layer))
  {
    var t := calls[i].tensor.value;
    ReadsExactly(calls[i], layer);
    ReaderExactly(calls, layer, i);
    ReadableExactly(t, scope.width, scope.rows, scope.outputs);
    if Acceptable(scope, t) {
      var row := LastRow(t, scope.width, scope.rows, scope.outputs);
      YieldsExactly(scope, calls[i], row);
      if values :| Yields(scope, calls[i], values) {
        YieldsExactly(scope, calls[i], values);
      }
    }
  }

  // A call without a tensor fails; one that hands over no selected layer is fine.
  lemma VerdictOtherwise(scope: Scope, calls: seq<Call>, i: nat)
    requires i < |calls| && forall layer <- scope.layers :: !HandsOver(calls[i], layer)
    ensures VerdictAt(scope, calls, i) == if calls[i].tensor.None? then Fails(CallbackFailed) else Fine
  {
    forall layer <- scope.layers ensures !Reads(calls[i], layer) {
      ReadsExactly(calls[i], layer);
    }
  }

  // ---- success -----------------------------------------------------------------------------------------

  ghost predicate YieldsOnce(scope: Scope, calls: seq<Call>, layer: nat, x: LayerHiddenState) {
    x.layer == layer && exists i: nat :: SoleReader(calls, layer, i) && Yields(scope, calls[i], x.values)
  }

  // Every call has a tensor, and each selected layer has one reader, which yields its part of `v`.
  ghost predicate EachLayerOnce(scope: Scope, calls: seq<Call>, v: Snapshot) {
    && (forall c <- calls :: c.tensor.Some?)
    && |v| == |scope.layers|
    && forall k | 0 <= k < |v| :: YieldsOnce(scope, calls, scope.layers[k], v[k])
  }

  lemma FineWhenOnce(scope: Scope, calls: seq<Call>, v: Snapshot, i: nat)
    requires EachLayerOnce(scope, calls, v) && i < |calls|
    ensures VerdictAt(scope, calls, i) == Fine
  {
    assert calls[i] in calls;
    if layer :| layer in scope.layers && HandsOver(calls[i], layer) {
      VerdictOnRead(scope, calls, i, layer);
      var k :| 0 <= k < |scope.layers| && scope.layers[k] == layer;
      assert YieldsOnce(scope, calls, layer, v[k]);
    } else {
      VerdictOtherwise(scope, calls, i);
    }
  }

  // With no offence, the reader of a layer is the only call that hands it over.
  lemma ReaderIsSole(scope: Scope, calls: seq<Call>, layer: nat, i: nat)
    requires FirstOffence(scope, calls, |calls|).None? && layer in scope.layers
    requires ReaderOf(calls, layer, |calls|) == Some(i)
    ensures YieldsOnce(scope, calls, layer, Observed(scope, calls, layer))
  {
    ReadsExactly(calls[i], layer);
    forall j: nat | j < |calls| && HandsOver(calls[j], layer) ensures j == i {
      ReadsExactly(calls[j], layer);
      VerdictOnRead(scope, calls, j, layer);
      assert VerdictAt(scope, calls, j) == Fine;
    }
    VerdictOnRead(scope, calls, i, layer);
    assert VerdictAt(scope, calls, i) == Fine;
    YieldsExactly(scope, calls[i], Observed(scope, calls, layer).values);
  }

  lemma OnceWhenDelivered(scope: Scope, calls: seq<Call>, v: Snapshot)
    requires TraceOutcome(scope, calls, true) == Delivers(Ok(v))
    ensures EachLayerOnce(scope, calls, v)
  {
    forall c <- calls ensures c.tensor.Some? {
      var i :| 0 <= i < |calls| && calls[i] == c;
      assert VerdictAt(scope, calls, i) == Fine;
    }
    forall k | 0 <= k < |v| ensures YieldsOnce(scope, calls, scope.layers[k], v[k]) {
      assert scope.layers[k] in scope.layers;
      ReaderIsSole(scope, calls, scope.layers[k], ReaderOf(calls, scope.layers[k], |calls|).value);
    }
  }

  lemma ObservedWhenOnce(scope: Scope, calls: seq<Call>, layer: nat, x: LayerHiddenState)
    requires FirstOffence(scope, calls, |calls|).None? && layer in scope.layers
    requires YieldsOnce(scope, calls, layer, x)
    ensures ReaderOf(calls, layer, |calls|).Some? && Observed(scope, calls, layer) == x
  {
    var i: nat :| SoleReader(calls, layer, i) && Yields(scope, calls[i], x.values);
    ReaderExactly(calls, layer, |calls|);
    ReadsExactly(calls[ReaderOf(calls, layer, |calls|).value], layer);
    YieldsExactly(scope, calls[i], x.values);
  }

  lemma DeliveredWhenOnce(scope: Scope, calls: seq<Call>, v: Snapshot)
    requires EachLayerOnce(scope, calls, v)
    ensures TraceOutcome(scope, calls, true) == Delivers(Ok(v))
  {
    if FirstOffence(scope, calls, |calls|).Some? {
      FineWhenOnce(scope, calls, v, FirstOffence(scope, calls, |calls|).value);
    } else {
      forall k | 0 <= k < |v|
        ensures ReaderOf(calls, scope.layers[k], |calls|).Some? && Observed(scope, calls, scope.layers[k]) == v[k]
      {
        assert scope.layers[k] in scope.layers;
        ObservedWhenOnce(scope, calls, scope.layers[k], v[k]);
      }
      assert FirstMissing(scope.layers, calls).None?;
      assert TraceOutcome(scope, calls, true).result.value == v;
    }
  }

  // A decode delivers `v` exactly when it succeeded on an accepted batch, no callback lacked a tensor, and
  // each selected layer was handed over once, as an acceptable finite tensor whose last row is in `v`.
  lemma DeliversExactly(layers: seq<nat>, width: nat, batch: Batch, nUbatch: nat, calls: seq<Call>,
                        success: bool, v: Snapshot)
    ensures DecodeOutcome(layers, width, batch, nUbatch, calls, success) == Delivers(Ok(v)) <==>
            && success && Accepts(batch, nUbatch)
            && EachLayerOnce(Scope(layers, width, batch.nTokens, |batch.Outputs()|), calls, v)
  {
    if success && Accepts(batch, nUbatch) {
      var scope := Scope(layers, width, batch.nTokens, |batch.Outputs()|);
      if TraceOutcome(scope, calls, true) == Delivers(Ok(v)) {
        OnceWhenDelivered(scope, calls, v);
      }
      if EachLayerOnce(scope, calls, v) {
        DeliveredWhenOnce(scope, calls, v);
      }
    }
  }

  // The same for the machine: from any earlier enabled state, this is when a take gives `v`.
  lemma TakesExactly(s: State, layers: seq<nat>, width: nat, batch: Batch, nUbatch: nat, calls: seq<Call>,
                     success: bool, v: Snapshot)
    requires Configured(s, layers, width) && s.enabled && !s.poisoned
    ensures TakeResult(Decode(s, batch, nUbatch, calls, success), true) == Ok(v) <==>
            && success && Accepts(batch, nUbatch)
            && EachLayerOnce(Scope(layers, width, batch.nTokens, |batch.Outputs()|), calls, v)
  {
    DecodeThenTake(s, layers, width, batch, nUbatch, calls, success);
    DeliversExactly(layers, width, batch, nUbatch, calls, success, v);
  }

  // Over every run: a take gives `v` exactly when some successful decode of an accepted batch, on an enabled
  // capture that nothing broke, handed over each selected layer once with the values in `v`, and only takes
  // that could not allocate followed.
  lemma TakenExactly(c: Runs.Context, layers: seq<nat>, width: nat, nUbatch: nat, ops: seq<Runs.Op>, v: Snapshot)
    requires c.capture.Some? && Initial(c.capture.value, layers, width) && Distinct(layers) && 0 < width
    ensures Runs.TakeAnswer(Runs.Run(c, nUbatch, ops), true) == Ok(v) <==>
            exists d :: TakenFrom(layers, width, nUbatch, ops, d, v)
  {
    Runs.TakenSnapshotIsFresh(c, layers, width, nUbatch, ops, v);
    forall d: nat
      ensures Runs.FreshFrom(layers, width, nUbatch, ops, d, v) <==> TakenFrom(layers, width, nUbatch, ops, d, v)
    {
      if d < |ops| && ops[d].DecodeOp? {
        DeliversExactly(layers, width, ops[d].batch, nUbatch, ops[d].calls, true, v);
      }
    }
  }

  ghost predicate TakenFrom(layers: seq<nat>, width: nat, nUbatch: nat, ops: seq<Runs.Op>, d: nat, v: Snapshot) {
    && d < |ops| && ops[d].DecodeOp? && ops[d].code == 0 && Accepts(ops[d].batch, nUbatch)
    && Runs.EnabledAfter(ops[..d]) && (forall e :: !Runs.BreaksAt(layers, width, nUbatch, ops[..d], e))
    && EachLayerOnce(Scope(layers, width, ops[d].batch.nTokens, |ops[d].batch.Outputs()|), ops[d].calls, v)
    && forall j | d < j < |ops| :: ops[j] == Runs.TakeOp(false)
  }

  // ---- failure -----------------------------------------------------------------------------------------

  // Layer number `k` is the first that no call hands over.
  ghost predicate FirstNotHandedOver(layers: seq<nat>, calls: seq<Call>, k: nat) {
    && k < |layers|
    && (forall c <- calls :: !HandsOver(c, layers[k]))
    && forall j | 0 <= j < k :: exists c <- calls :: HandsOver(c, layers[j])
  }

  lemma {:induction false} MissingExactly(layers: seq<nat>, calls: seq<Call>, k: nat)
    requires FirstNotHandedOver(layers, calls, k)
    ensures FirstMissing(layers, calls) == Some(layers[k])
  {
    ReaderExactly(calls, layers[0], |calls|);
    if k > 0 {
      forall j | 0 <= j < k - 1 ensures exists c <- calls :: HandsOver(c, layers[1..][j]) {
        assert layers[1..][j] == layers[j + 1];
      }
      MissingExactly(layers[1..], calls, k - 1);
    }
  }

  // A failed evaluation hides every other reason, except a broken capture; a refused batch hides the calls.
  lemma StatusAndBatchFirst(layers: seq<nat>, width: nat, batch: Batch, nUbatch: nat, calls: seq<Call>)
    ensures var failed := DecodeOutcome(layers, width, batch, nUbatch, calls, false);
            var outcome := DecodeOutcome(layers, width, batch, nUbatch, calls, true);
            && (failed == Broken || failed == Delivers(Err(EvaluationFailed)))
            && (failed == Broken <==> outcome == Broken)
            && (!Accepts(batch, nUbatch) ==> outcome == Delivers(Err(UnsupportedBatch)))
  {
  }

  // Then the first call that is not fine decides.
  lemma FirstOffenceDecides(scope: Scope, calls: seq<Call>, i: nat)
    requires i < |calls| && VerdictAt(scope, calls, i) != Fine
    requires forall j | 0 <= j < i :: VerdictAt(scope, calls, j) == Fine
    ensures TraceOutcome(scope, calls, true) ==
            match VerdictAt(scope, calls, i) { case Poisons => Broken case Fails(error) => Delivers(Err(error)) }
  {
  }

  // Then the first layer that no call hands over.
  lemma MissingLayerDecides(scope: Scope, calls: seq<Call>, k: nat)
    requires forall i | 0 <= i < |calls| :: VerdictAt(scope, calls, i) == Fine
    requires FirstNotHandedOver(scope.layers, calls, k)
    ensures TraceOutcome(scope, calls, true) == Delivers(Err(MissingLayer(scope.layers[k])))
  {
    MissingExactly(scope.layers, calls, k);
  }
}

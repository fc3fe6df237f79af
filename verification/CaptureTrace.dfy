/**
 What one decode observes, as a function of its whole callback trace: the first offending call decides
 the failure, otherwise every selected layer must have been read, otherwise the snapshot holds the last
 row of each layer's one matching tensor. The state machine is shown to compute exactly this.
 */
module CaptureTrace {
  import opened Wrappers
  import opened NativeBatch
  import opened BatchShapes
  import opened CaptureErrors
  import opened Tensors
  import opened LayerName
  import opened CaptureModel

  // What stays fixed during one decode: the selection and the batch's row counts.
  datatype Scope = Scope(layers: seq<nat>, width: nat, rows: nat, outputs: nat)

  datatype Verdict = Fine | Fails(error: CaptureError) | Poisons

  predicate Distinct(layers: seq<nat>) {
    forall i, j | 0 <= i < j < |layers| :: layers[i] != layers[j]
  }

  // The call hands over the tensor of `layer` for reading.
  predicate Reads(c: Call, layer: nat) {
    !c.ask && c.tensor.Some? && LayerFromName(c.tensor.value.name) == Some(layer)
  }

  // The first of the first `n` calls that reads `layer`.
  function ReaderOf(calls: seq<Call>, layer: nat, n: nat): (reader: Option<nat>)
    requires n <= |calls|
    ensures reader.Some? ==> reader.value < n && Reads(calls[reader.value], layer)
    ensures reader.Some? ==> forall j | 0 <= j < reader.value :: !Reads(calls[j], layer)
    ensures reader.None? ==> forall j | 0 <= j < n :: !Reads(calls[j], layer)
  {
    if n == 0 then None
    else
      var earlier := ReaderOf(calls, layer, n - 1);
      if earlier.Some? then earlier
      else if Reads(calls[n - 1], layer) then Some(n - 1) else None
  }

  // Call `i` judged by itself and by whether its layer was read before.
  function VerdictAt(scope: Scope, calls: seq<Call>, i: nat): Verdict
    requires i < |calls|
  {
    var c := calls[i];
    if c.tensor.None? then Fails(CallbackFailed)
    else if c.ask then Fine
    else
      var t := c.tensor.value;
      match LayerFromName(t.name)
      case None => Fine
      case Some(layer) =>
        if layer !in scope.layers then Fine
        else if ReaderOf(calls, layer, i).Some? then Fails(DuplicateLayer(layer))
        else if !Readable(t, scope.width, scope.rows, scope.outputs) then Fails(UnsupportedTensor(layer))
        else if c.panics then Poisons
        else if exists v <- LastRow(t, scope.width, scope.rows, scope.outputs) :: !v.IsFinite()
        then Fails(NonFinite(layer))
        else Fine
  }

  // The first of the first `n` calls whose verdict is not fine.
  function FirstOffence(scope: Scope, calls: seq<Call>, n: nat): (first: Option<nat>)
    requires n <= |calls|
    ensures first.Some? ==> first.value < n && VerdictAt(scope, calls, first.value) != Fine
    ensures first.Some? ==> forall j | 0 <= j < first.value :: VerdictAt(scope, calls, j) == Fine
    ensures first.None? ==> forall j | 0 <= j < n :: VerdictAt(scope, calls, j) == Fine
  {
    if n == 0 then None
    else
      var earlier := FirstOffence(scope, calls, n - 1);
      if earlier.Some? then earlier
      else if VerdictAt(scope, calls, n - 1) != Fine then Some(n - 1) else None
  }

  // The first selected layer that no call reads.
  function FirstMissing(layers: seq<nat>, calls: seq<Call>): (layer: Option<nat>)
    ensures layer.None? ==> forall l <- layers :: ReaderOf(calls, l, |calls|).Some?
    ensures layer.Some? ==> layer.value in layers && ReaderOf(calls, layer.value, |calls|).None?
  {
    if layers == [] then None
    else if ReaderOf(calls, layers[0], |calls|).None? then Some(layers[0])
    else FirstMissing(layers[1..], calls)
  }

  lemma FineReadIsReadable(scope: Scope, calls: seq<Call>, layer: nat)
    requires FirstOffence(scope, calls, |calls|).None? && layer in scope.layers
    requires ReaderOf(calls, layer, |calls|).Some?
    ensures Readable(calls[ReaderOf(calls, layer, |calls|).value].tensor.value,
                     scope.width, scope.rows, scope.outputs)
  {
    assert VerdictAt(scope, calls, ReaderOf(calls, layer, |calls|).value) == Fine;
  }

  function Observed(scope: Scope, calls: seq<Call>, layer: nat): LayerHiddenState
    requires FirstOffence(scope, calls, |calls|).None? && layer in scope.layers
    requires ReaderOf(calls, layer, |calls|).Some?
  {
    FineReadIsReadable(scope, calls, layer);
    var t := calls[ReaderOf(calls, layer, |calls|).value].tensor.value;
    LayerHiddenState(layer, LastRow(t, scope.width, scope.rows, scope.outputs))
  }

  // What a completed decode leaves to be taken.
  datatype Outcome = Delivers(result: Result<Snapshot, CaptureError>) | Broken

  function TraceOutcome(scope: Scope, calls: seq<Call>, success: bool): Outcome {
    match FirstOffence(scope, calls, |calls|)
    case Some(i) =>
      (match VerdictAt(scope, calls, i)
       case Poisons => Broken
       case Fails(error) => Delivers(Err(if success then error else EvaluationFailed)))
    case None =>
      if !success then Delivers(Err(EvaluationFailed))
      else
        match FirstMissing(scope.layers, calls)
        case Some(layer) => Delivers(Err(MissingLayer(layer)))
        case None =>
          Delivers(Ok(seq(|scope.layers|, k requires 0 <= k < |scope.layers| =>
            Observed(scope, calls, scope.layers[k]))))
  }

  // The outcome of a decode on an enabled, unpoisoned capture.
  function DecodeOutcome(layers: seq<nat>, width: nat, batch: Batch, nUbatch: nat, calls: seq<Call>,
                         success: bool): Outcome {
    match ShapeOf(batch, nUbatch)
    case Err(error) => Delivers(Err(if success then error else EvaluationFailed))
    case Ok((rows, outputs)) => TraceOutcome(Scope(layers, width, rows, outputs), calls, success)
  }

  // ---- the machine follows the trace -----------------------------------------------------------------

  ghost predicate Configured(s: State, layers: seq<nat>, width: nat) {
    && |s.slots| == |layers| && Distinct(layers) && 0 < width
    && forall k | 0 <= k < |layers| ::
         s.slots[k].snapshot.layer == layers[k] && |s.slots[k].snapshot.values| == width
  }

  // Slot `k` is filled exactly when one of the first `n` calls read its layer, and then holds that row.
  ghost predicate SlotTracks(scope: Scope, calls: seq<Call>, n: nat, slot: Slot)
    requires n <= |calls|
  {
    var reader := ReaderOf(calls, slot.snapshot.layer, n);
    && (slot.seen <==> reader.Some?)
    && (reader.Some? ==>
          var t := calls[reader.value].tensor.value;
          && Readable(t, scope.width, scope.rows, scope.outputs)
          && slot.snapshot.values == LastRow(t, scope.width, scope.rows, scope.outputs))
  }

  // The state after the first `n` calls of an active decode that began in `s0`.
  ghost predicate Tracks(scope: Scope, calls: seq<Call>, n: nat, s0: State, s: State)
    requires n <= |calls|
  {
    && Configured(s, scope.layers, scope.width)
    && s.rows == scope.rows && s.outputs == scope.outputs
    && s.enabled == s0.enabled && s.active && s.ready == s0.ready
    && match FirstOffence(scope, calls, n) {
         case None =>
           && s.error.None? && !s.poisoned
           && forall k | 0 <= k < |s.slots| :: SlotTracks(scope, calls, n, s.slots[k])
         case Some(i) =>
           match VerdictAt(scope, calls, i) {
             case Poisons => s.poisoned
             case Fails(error) => !s.poisoned && s.error == Some(error)
           }
       }
  }

  lemma SlotOf(s: State, layers: seq<nat>, width: nat, layer: nat)
    requires Configured(s, layers, width)
    ensures FindSlot(s.slots, layer).Some? <==> layer in layers
    ensures forall k | 0 <= k < |layers| && layers[k] == layer :: FindSlot(s.slots, layer) == Some(k)
  {
  }

  // A call that reads no slot's layer leaves every slot tracking.
  lemma UntouchedSlots(scope: Scope, calls: seq<Call>, n: nat, slots: seq<Slot>)
    requires n < |calls|
    requires forall k | 0 <= k < |slots| ::
               SlotTracks(scope, calls, n, slots[k]) && !Reads(calls[n], slots[k].snapshot.layer)
    ensures forall k | 0 <= k < |slots| :: SlotTracks(scope, calls, n + 1, slots[k])
  {
  }

  lemma StepTracks(scope: Scope, calls: seq<Call>, n: nat, s0: State, s: State)
    requires n < |calls| && Tracks(scope, calls, n, s0, s)
    ensures Tracks(scope, calls, n + 1, s0, Callback(s, calls[n]))
    ensures FirstOffence(scope, calls, n).Some? ==> Callback(s, calls[n]) == s
  {
    var c := calls[n];
    if FirstOffence(scope, calls, n).Some? {
    } else if c.tensor.None? {
    } else {
      match LayerFromName(c.tensor.value.name) {
        case None => UntouchedSlots(scope, calls, n, s.slots);
        case Some(layer) =>
          SlotOf(s, scope.layers, scope.width, layer);
          if c.ask || layer !in scope.layers {
            UntouchedSlots(scope, calls, n, s.slots);
          } else {
            ReadTracks(scope, calls, n, s0, s, layer);
          }
      }
    }
  }

  // The read follows its verdict.
  lemma ReadFollowsVerdict(scope: Scope, calls: seq<Call>, n: nat, s0: State, s: State, layer: nat, k: nat)
    requires n < |calls| && Tracks(scope, calls, n, s0, s) && FirstOffence(scope, calls, n).None?
    requires Reads(calls[n], layer) && layer in scope.layers && FindSlot(s.slots, layer) == Some(k)
    ensures Callback(s, calls[n]) == ReadInto(s, k, calls[n].tensor.value, calls[n].panics)
    ensures match VerdictAt(scope, calls, n)
      case Fine =>
        var t := calls[n].tensor.value;
        && Readable(t, scope.width, scope.rows, scope.outputs)
        && var filled := Slot(LayerHiddenState(layer, LastRow(t, scope.width, scope.rows, scope.outputs)), true);
           Callback(s, calls[n]) == s.(slots := s.slots[k := filled])
      case Poisons => Callback(s, calls[n]) == s.(poisoned := true)
      case Fails(error) =>
        var s' := Callback(s, calls[n]);
        && s' == s.(slots := s'.slots, error := Some(error))
        && |s'.slots| == |s.slots|
        && (forall j | 0 <= j < |s.slots| && j != k :: s'.slots[j] == s.slots[j])
        && s'.slots[k].snapshot.layer == layer && |s'.slots[k].snapshot.values| == scope.width
  {
    assert SlotTracks(scope, calls, n, s.slots[k]);
  }

  lemma FilledSlots(scope: Scope, calls: seq<Call>, n: nat, slots: seq<Slot>, layer: nat, k: nat)
    requires n < |calls| && Reads(calls[n], layer) && k < |slots|
    requires ReaderOf(calls, layer, n).None?
    requires forall j | 0 <= j < |slots| && j != k ::
               SlotTracks(scope, calls, n, slots[j]) && slots[j].snapshot.layer != layer
    requires Readable(calls[n].tensor.value, scope.width, scope.rows, scope.outputs)
    requires slots[k] == Slot(LayerHiddenState(layer,
               LastRow(calls[n].tensor.value, scope.width, scope.rows, scope.outputs)), true)
    ensures forall j | 0 <= j < |slots| :: SlotTracks(scope, calls, n + 1, slots[j])
  {
  }

  lemma ReadTracks(scope: Scope, calls: seq<Call>, n: nat, s0: State, s: State, layer: nat)
    requires n < |calls| && Tracks(scope, calls, n, s0, s) && FirstOffence(scope, calls, n).None?
    requires Reads(calls[n], layer) && layer in scope.layers
    ensures Tracks(scope, calls, n + 1, s0, Callback(s, calls[n]))
  {
    SlotOf(s, scope.layers, scope.width, layer);
    var k := FindSlot(s.slots, layer).value;
    ReadFollowsVerdict(scope, calls, n, s0, s, layer, k);
    if VerdictAt(scope, calls, n) == Fine {
      forall j | 0 <= j < |s.slots| && j != k ensures s.slots[j].snapshot.layer != layer {
        assert scope.layers[j] == s.slots[j].snapshot.layer && scope.layers[k] == layer;
      }
      FilledSlots(scope, calls, n, Callback(s, calls[n]).slots, layer, k);
    }
  }

  lemma {:induction false} CallsTrack(scope: Scope, calls: seq<Call>, n: nat, s0: State)
    requires n <= |calls| && Tracks(scope, calls, 0, s0, s0)
    ensures Tracks(scope, calls, n, s0, Callbacks(s0, calls[..n]))
  {
    if n > 0 {
      CallsTrack(scope, calls, n - 1, s0);
      assert calls[..n][..n - 1] == calls[..n - 1];
      StepTracks(scope, calls, n - 1, s0, Callbacks(s0, calls[..n - 1]));
    } else {
      assert calls[..0] == [];
    }
  }

  lemma {:induction false} UnseenIsMissing(scope: Scope, calls: seq<Call>, slots: seq<Slot>, layers: seq<nat>)
    requires |slots| == |layers|
    requires forall k | 0 <= k < |slots| ::
               slots[k].snapshot.layer == layers[k] && SlotTracks(scope, calls, |calls|, slots[k])
    ensures FirstUnseen(slots) == FirstMissing(layers, calls)
  {
    if slots != [] && slots[0].seen {
      UnseenIsMissing(scope, calls, slots[1..], layers[1..]);
    }
  }

  // One decode of the capture: begin, the scheduler's calls, finish.
  function Decode(s: State, batch: Batch, nUbatch: nat, calls: seq<Call>, success: bool): State {
    Finish(Callbacks(Begin(s, batch, nUbatch), calls), success)
  }

  ghost predicate Holds(s: State, outcome: Outcome) {
    match outcome
    case Broken => s.poisoned
    case Delivers(result) => !s.poisoned && forall reserves: bool ::
      TakeResult(s, reserves) == if result.Ok? && !reserves then Err(AllocationFailed) else result
  }

  lemma FinishedTrace(scope: Scope, calls: seq<Call>, s0: State, s: State, success: bool)
    requires Tracks(scope, calls, |calls|, s0, s) && s0.enabled
    ensures Holds(Finish(s, success), TraceOutcome(scope, calls, success))
  {
    if FirstOffence(scope, calls, |calls|).None? && success {
      UnseenIsMissing(scope, calls, s.slots, scope.layers);
      if FirstMissing(scope.layers, calls).None? {
        var snapshot := TraceOutcome(scope, calls, success).result.value;
        forall k | 0 <= k < |s.slots| ensures s.slots[k].snapshot == snapshot[k] {
          assert SlotTracks(scope, calls, |calls|, s.slots[k]);
        }
        assert Snapshots(Finish(s, success).slots) == snapshot;
      }
    }
  }

  // After one decode on an enabled capture, whatever state it was in before, `take` answers the pure
  // function of the batch, the trace and the native result.
  lemma DecodeThenTake(s: State, layers: seq<nat>, width: nat, batch: Batch, nUbatch: nat,
                       calls: seq<Call>, success: bool)
    requires Configured(s, layers, width) && s.enabled && !s.poisoned
    ensures Holds(Decode(s, batch, nUbatch, calls, success),
                  DecodeOutcome(layers, width, batch, nUbatch, calls, success))
  {
    var s0 := Begin(s, batch, nUbatch);
    match ShapeOf(batch, nUbatch) {
      case Err(_) => QuietCallbacks(s0, calls);
      case Ok((rows, outputs)) =>
        var scope := Scope(layers, width, rows, outputs);
        CallsTrack(scope, calls, |calls|, s0);
        assert calls[..|calls|] == calls;
        FinishedTrace(scope, calls, s0, Callbacks(s0, calls), success);
    }
  }
}

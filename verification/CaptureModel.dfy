/**
 The hidden-state capture as a state machine on values: what each operation of the `Capture`
 object does to its guarded state.
 */
module CaptureModel {
  import opened Wrappers
  import opened NativeBatch
  import opened BatchShapes
  import opened CaptureErrors
  import opened Tensors
  import opened LayerName

  datatype LayerHiddenState = LayerHiddenState(layer: nat, values: seq<F32>)

  datatype Slot = Slot(snapshot: LayerHiddenState, seen: bool)

  type Snapshot = seq<LayerHiddenState>

  datatype State = State(
    slots: seq<Slot>,
    rows: nat,
    outputs: nat,
    active: bool,
    enabled: bool,
    ready: bool,
    error: Option<CaptureError>,
    poisoned: bool)      // the mutex around the rest is poisoned

  // One scheduler callback. `panics` lets the backend read unwind while the lock is held.
  datatype Call = Call(tensor: Option<Tensor>, ask: bool, panics: bool)

  function Unseen(slots: seq<Slot>): (r: seq<Slot>)
    ensures |r| == |slots|
    ensures forall k | 0 <= k < |slots| :: r[k] == slots[k].(seen := false)
  {
    seq(|slots|, k requires 0 <= k < |slots| => slots[k].(seen := false))
  }

  // The index of the slot for `layer`.
  function FindSlot(slots: seq<Slot>, layer: nat): (k: Option<nat>)
    ensures k.Some? ==> k.value < |slots| && slots[k.value].snapshot.layer == layer
    ensures k.Some? ==> forall j | 0 <= j < k.value :: slots[j].snapshot.layer != layer
    ensures k.None? ==> forall j | 0 <= j < |slots| :: slots[j].snapshot.layer != layer
  {
    if slots == [] then None
    else if slots[0].snapshot.layer == layer then Some(0)
    else match FindSlot(slots[1..], layer) { case None => None case Some(k) => Some(k + 1) }
  }

  // The first layer whose slot has not been filled.
  function FirstUnseen(slots: seq<Slot>): (layer: Option<nat>)
    ensures layer.None? <==> forall k | 0 <= k < |slots| :: slots[k].seen
  {
    if slots == [] then None
    else if !slots[0].seen then Some(slots[0].snapshot.layer)
    else FirstUnseen(slots[1..])
  }

  function Snapshots(slots: seq<Slot>): (r: Snapshot)
    ensures |r| == |slots| && forall k | 0 <= k < |slots| :: r[k] == slots[k].snapshot
  {
    seq(|slots|, k requires 0 <= k < |slots| => slots[k].snapshot)
  }

  function Begin(s: State, batch: Batch, nUbatch: nat): State {
    if s.poisoned then s
    else
      var s := s.(ready := false, error := None, active := false, slots := Unseen(s.slots));
      if !s.enabled then s
      else
        match ShapeOf(batch, nUbatch)
        case Ok((rows, outputs)) => s.(rows := rows, outputs := outputs, active := true)
        case Err(error) => s.(error := Some(error))
  }

  function Finish(s: State, success: bool): State {
    if s.poisoned then s
    else if !s.enabled then s.(active := false)
    else
      var s := s.(active := false, ready := true);
      if !success then s.(error := Some(EvaluationFailed))
      else if s.error.Some? then s
      else
        match FirstUnseen(s.slots)
        case None => s
        case Some(layer) => s.(error := Some(MissingLayer(layer)))
  }

  function Unsupported(s: State): State {
    if s.poisoned then s
    else s.(active := false, ready := s.enabled, error := Some(UnsupportedBatch))
  }

  function SetEnabled(s: State, enabled: bool): State {
    if s.poisoned then s
    else s.(enabled := enabled, active := false, ready := false, error := None, slots := Unseen(s.slots))
  }

  function SetEnabledResult(s: State): Result<(), CaptureError> {
    if s.poisoned then Err(CallbackFailed) else Ok(())
  }

  // `reserves`: whether every allocation of the copy succeeds.
  function TakeResult(s: State, reserves: bool): Result<Snapshot, CaptureError> {
    if s.poisoned then Err(CallbackFailed)
    else if !s.ready then Err(NoCapture)
    else if s.error.Some? then Err(s.error.value)
    else if !reserves then Err(AllocationFailed)
    else Ok(Snapshots(s.slots))
  }

  function Take(s: State, reserves: bool): State {
    if TakeResult(s, reserves).Ok? then s.(ready := false) else s
  }

  // The slot a callback is about, when the capture is listening and the tensor has a selected name.
  function Target(s: State, c: Call): (k: Option<nat>)
    ensures k.Some? ==> k.value < |s.slots|
  {
    if s.poisoned || !s.active || s.error.Some? || c.tensor.None? then None
    else
      match LayerFromName(c.tensor.value.name)
      case None => None
      case Some(layer) => FindSlot(s.slots, layer)
  }

  function ReadInto(s: State, k: nat, t: Tensor, panics: bool): State
    requires k < |s.slots|
  {
    var slot := s.slots[k];
    var layer, width := slot.snapshot.layer, |slot.snapshot.values|;
    if slot.seen then s.(error := Some(DuplicateLayer(layer)))
    else if !Readable(t, width, s.rows, s.outputs) then s.(error := Some(UnsupportedTensor(layer)))
    else if panics then s.(poisoned := true)
    else
      var offset := RowOffset(t, width, s.rows, s.outputs).value;
      var values := ReadSafely(t, offset, width, s.rows, s.outputs);
      var snapshot := LayerHiddenState(layer, values);
      if forall v <- values :: v.IsFinite()
      then s.(slots := s.slots[k := Slot(snapshot, true)], error := None)
      else s.(slots := s.slots[k := Slot(snapshot, false)], error := Some(NonFinite(layer)))
  }

  function ReadSafely(t: Tensor, offset: nat, width: nat, rows: nat, outputs: nat): (values: seq<F32>)
    requires Readable(t, width, rows, outputs) && offset == RowOffset(t, width, rows, outputs).value
    ensures |values| == width
    ensures values == LastRow(t, width, rows, outputs)
  {
    if width == 0 then []
    else
      ReadIsLastRow(t, width, rows, outputs);
      ReadFloats(t.data.value, offset, width)
  }

  function Callback(s: State, c: Call): State {
    if s.poisoned || !s.active || s.error.Some? then s
    else if c.tensor.None? then s.(error := Some(CallbackFailed))
    else
      match Target(s, c)
      case None => s
      case Some(k) => if c.ask then s else ReadInto(s, k, c.tensor.value, c.panics)
  }

  function CallbackAnswer(s: State, c: Call): bool {
    if Target(s, c).Some? then true else !c.ask
  }

  function Callbacks(s: State, calls: seq<Call>): State {
    if calls == [] then s else Callback(Callbacks(s, calls[..|calls| - 1]), calls[|calls| - 1])
  }

  // The state of a new capture: one unfilled slot per configured layer.
  predicate Initial(s: State, layers: seq<nat>, width: nat) {
    && |s.slots| == |layers|
    && (forall k | 0 <= k < |layers| :: s.slots[k].snapshot.layer == layers[k] && !s.slots[k].seen
                                     && |s.slots[k].snapshot.values| == width)
    && !s.active && s.enabled && !s.ready && s.error.None? && !s.poisoned
  }

  // ---- the ask phase ------------------------------------------------------------------------------

  // Asking changes nothing, and a read is never refused.
  lemma AskIsPureReadIsTrue(s: State, t: Tensor, panics: bool)
    ensures Callback(s, Call(Some(t), true, panics)) == s
    ensures CallbackAnswer(s, Call(Some(t), false, panics))
  {
  }

  // An ask is answered true exactly when reading the tensor would change the state.
  lemma AskedExactly(s: State, t: Tensor, panics: bool)
    ensures CallbackAnswer(s, Call(Some(t), true, panics)) <==> Callback(s, Call(Some(t), false, panics)) != s
  {
    var read := Call(Some(t), false, panics);
    assert Target(s, read) == Target(s, Call(Some(t), true, panics));
    if Target(s, read).Some? {
      var k := Target(s, read).value;
      assert s.slots[k := Slot(s.slots[k].snapshot, true)][k].seen;
    }
  }

  // Without a tensor, and for a tensor of no selected name, only a read is answered true.
  lemma OtherAnswers(s: State, tensor: Option<Tensor>, ask: bool, panics: bool)
    requires tensor.None? || forall k | 0 <= k < |s.slots| :: LayerFromName(tensor.value.name) != Some(s.slots[k].snapshot.layer)
    ensures CallbackAnswer(s, Call(tensor, ask, panics)) == !ask
  {
  }

  // What the scheduler does with a list of tensors: ask about each, read it only after a yes.
  function ReadSelected(s: State, tensors: seq<(Tensor, bool)>): State {
    if tensors == [] then s
    else
      var before := ReadSelected(s, tensors[..|tensors| - 1]);
      var (t, panics) := tensors[|tensors| - 1];
      var ask := Call(Some(t), true, panics);
      var asked := Callback(before, ask);
      if CallbackAnswer(before, ask) then Callback(asked, Call(Some(t), false, panics)) else asked
  }

  function ReadCalls(tensors: seq<(Tensor, bool)>): (calls: seq<Call>)
    ensures |calls| == |tensors|
    ensures forall i | 0 <= i < |tensors| :: calls[i] == Call(Some(tensors[i].0), false, tensors[i].1)
  {
    seq(|tensors|, i requires 0 <= i < |tensors| => Call(Some(tensors[i].0), false, tensors[i].1))
  }

  // Reading only what was asked for leaves the same state as reading every tensor.
  lemma {:induction false} SelectiveReadingSuffices(s: State, tensors: seq<(Tensor, bool)>)
    ensures ReadSelected(s, tensors) == Callbacks(s, ReadCalls(tensors))
  {
    if tensors != [] {
      var last := |tensors| - 1;
      SelectiveReadingSuffices(s, tensors[..last]);
      assert ReadCalls(tensors)[..last] == ReadCalls(tensors[..last]);
    }
  }

  // ---- quiet captures ------------------------------------------------------------------------------

  // A capture that is not listening ignores every callback.
  lemma {:induction false} QuietCallbacks(s: State, calls: seq<Call>)
    requires s.poisoned || !s.active || s.error.Some?
    ensures Callbacks(s, calls) == s
  {
    if calls != [] {
      QuietCallbacks(s, calls[..|calls| - 1]);
    }
  }
}

/**
 The capture object that lives in a context: per-layer slots behind a lock, filled by the scheduler's
 callback. Each method is tied to the step of the state machine that it performs.
 */
module Captures {
  import opened Wrappers
  import opened NativeBatch
  import opened BatchShapes
  import opened CaptureErrors
  import opened Tensors
  import opened LayerName
  import Machine = CaptureModel
  import opened CaptureTrace

  type Slot = Machine.Slot
  type Snapshot = Machine.Snapshot

  const MAX_CAPTURE_LAYERS: nat := 64
  const MAX_CAPTURE_WIDTH: nat := 32_768
  const MAX_CAPTURE_BYTES: nat := 4 * 1024 * 1024

  // Why a selection is refused, if it is. `reserves`: whether the slot buffers can be allocated.
  function Refusal(layers: seq<nat>, width: int, modelLayers: nat, reserves: bool): Option<CaptureError> {
    if |layers| == 0 || |layers| > MAX_CAPTURE_LAYERS || !Distinct(layers) || exists l <- layers :: l >= modelLayers
    then Some(InvalidLayers)
    else if width <= 0 || width > MAX_CAPTURE_WIDTH || width * |layers| * SIZE_OF_F32 > MAX_CAPTURE_BYTES
    then Some(CapacityExceeded)
    else if !reserves then Some(AllocationFailed)
    else None
  }

  class Capture {
    const slots: array<Slot>
    var rows: nat
    var outputs: nat
    var active: bool
    var enabled: bool
    var ready: bool
    var error: Option<CaptureError>
    var poisoned: bool

    ghost function Model(): Machine.State
      reads this, slots
    {
      Machine.State(slots[..], rows, outputs, active, enabled, ready, error, poisoned)
    }

    constructor (slots: array<Slot>)
      ensures this.slots == slots
      ensures Model() == Machine.State(slots[..], 0, 0, false, true, false, None, false)
    {
      this.slots := slots;
      rows, outputs := 0, 0;
      active, enabled, ready, error, poisoned := false, true, false, None, false;
    }

    static method New(layers: seq<nat>, width: int, modelLayers: nat, zero: F32, reserves: bool)
      returns (r: Result<Capture, CaptureError>)
      ensures r.Ok? <==>
              && 0 < |layers| <= 64 && (forall i, j | 0 <= i < j < |layers| :: layers[i] != layers[j])
              && (forall l <- layers :: l < modelLayers)
              && 0 < width <= 32768 && width * |layers| * 4 <= 4194304 && reserves
      ensures r == Err(CapacityExceeded) <==>
              && 0 < |layers| <= 64 && Distinct(layers) && (forall l <- layers :: l < modelLayers)
              && (width <= 0 || width > 32768 || width * |layers| * 4 > 4194304)
      ensures r == Err(InvalidLayers) <==>
              |layers| == 0 || |layers| > 64 || !Distinct(layers) || exists l <- layers :: l >= modelLayers
      ensures r.Err? <==> Refusal(layers, width, modelLayers, reserves).Some?
      ensures r.Err? ==> Some(r.error) == Refusal(layers, width, modelLayers, reserves)
      ensures r.Ok? ==> fresh(r.value) && fresh(r.value.slots)
      ensures r.Ok? ==> width > 0 && Distinct(layers) && Machine.Initial(r.value.Model(), layers, width)
    {
      if |layers| == 0 || |layers| > MAX_CAPTURE_LAYERS {
        return Err(InvalidLayers);
      }
      for i := 0 to |layers|
        invariant forall l <- layers[..i] :: l < modelLayers
        invariant forall j, k | 0 <= j < k < i :: layers[j] != layers[k]
      {
        if layers[i] >= modelLayers || layers[i] in layers[..i] {
          assert layers[i] in layers;
          assert layers[i] in layers[..i] ==> !Distinct(layers);
          return Err(InvalidLayers);
        }
        assert layers[..i + 1] == layers[..i] + [layers[i]];
      }
      assert layers[..|layers|] == layers;
      if width <= 0 || width > MAX_CAPTURE_WIDTH || width * |layers| * SIZE_OF_F32 > MAX_CAPTURE_BYTES {
        return Err(CapacityExceeded);
      }
      if !reserves {
        return Err(AllocationFailed);
      }
      var slots := new Slot[|layers|](k requires 0 <= k < |layers| =>
        Machine.Slot(Machine.LayerHiddenState(layers[k], seq(width, _ => zero)), false));
      var capture := new Capture(slots);
      r := Ok(capture);
    }

    method Forget()
      modifies slots
      ensures slots[..] == Machine.Unseen(old(slots[..]))
    {
      for i := 0 to slots.Length
        invariant forall k | 0 <= k < i :: slots[k] == old(slots[k]).(seen := false)
        invariant forall k | i <= k < slots.Length :: slots[k] == old(slots[k])
      {
        slots[i] := slots[i].(seen := false);
      }
    }

    method Begin(batch: Batch, nUbatch: nat)
      modifies this, slots
      ensures Model() == Machine.Begin(old(Model()), batch, nUbatch)
    {
      if poisoned {
        return;
      }
      ready := false;
      error := None;
      active := false;
      Forget();
      if !enabled {
        return;
      }
      var shape := BatchShape(batch, nUbatch);
      match shape {
        case Ok((r, o)) =>
          rows := r;
          outputs := o;
          active := true;
        case Err(e) =>
          error := Some(e);
      }
    }

    method Finish(success: bool)
      modifies this
      ensures Model() == Machine.Finish(old(Model()), success)
    {
      if poisoned {
        return;
      }
      active := false;
      if !enabled {
        return;
      }
      ready := true;
      if !success {
        error := Some(EvaluationFailed);
      } else if error.None? {
        var i := 0;
        while i < slots.Length && slots[i].seen
          invariant i <= slots.Length
          invariant Machine.FirstUnseen(slots[..]) == Machine.FirstUnseen(slots[i..])
        {
          i := i + 1;
        }
        error := if i < slots.Length then Some(MissingLayer(slots[i].snapshot.layer)) else None;
      }
    }

    method Unsupported()
      modifies this
      ensures Model() == Machine.Unsupported(old(Model()))
    {
      if !poisoned {
        active := false;
        ready := enabled;
        error := Some(UnsupportedBatch);
      }
    }

    method SetEnabled(enabled: bool) returns (r: Result<(), CaptureError>)
      modifies this, slots
      ensures Model() == Machine.SetEnabled(old(Model()), enabled)
      ensures r == Machine.SetEnabledResult(old(Model()))
    {
      if poisoned {
        return Err(CallbackFailed);
      }
      this.enabled := enabled;
      active := false;
      ready := false;
      error := None;
      Forget();
      r := Ok(());
    }

    method Take(reserves: bool) returns (r: Result<Snapshot, CaptureError>)
      modifies this
      ensures Model() == Machine.Take(old(Model()), reserves)
      ensures r == Machine.TakeResult(old(Model()), reserves)
    {
      if poisoned {
        return Err(CallbackFailed);
      }
      if !ready {
        return Err(NoCapture);
      }
      if error.Some? {
        return Err(error.value);
      }
      if !reserves {
        return Err(AllocationFailed);
      }
      var result: Snapshot := [];
      for i := 0 to slots.Length
        invariant |result| == i && forall k | 0 <= k < i :: result[k] == slots[k].snapshot
      {
        result := result + [slots[i].snapshot];
      }
      assert result == Machine.Snapshots(slots[..]);
      ready := false;
      r := Ok(result);
    }

    method Callback(c: Machine.Call) returns (answer: bool)
      modifies this, slots
      ensures Model() == Machine.Callback(old(Model()), c)
      ensures answer == Machine.CallbackAnswer(old(Model()), c)
    {
      if poisoned || !active || error.Some? {
        return !c.ask;
      }
      if c.tensor.None? {
        error := Some(CallbackFailed);
        return !c.ask;
      }
      var t := c.tensor.value;
      var layer := LayerFromName(t.name);
      if layer.None? {
        return !c.ask;
      }
      var k := 0;
      while k < slots.Length && slots[k].snapshot.layer != layer.value
        invariant k <= slots.Length
        invariant forall j | 0 <= j < k :: slots[j].snapshot.layer != layer.value
      {
        k := k + 1;
      }
      if k == slots.Length {
        return !c.ask;
      }
      assert Machine.FindSlot(slots[..], layer.value) == Some(k);
      if !c.ask {
        ReadInto(k, t, c.panics);
      }
      answer := true;
    }

    method ReadInto(k: nat, t: Tensor, panics: bool)
      requires k < slots.Length && error.None?
      modifies this, slots
      ensures Model() == Machine.ReadInto(old(Model()), k, t, panics)
    {
      var layer, width := slots[k].snapshot.layer, |slots[k].snapshot.values|;
      if slots[k].seen {
        error := Some(DuplicateLayer(layer));
        return;
      }
      var offset := RowOffset(t, width, rows, outputs);
      if offset.None? || t.data.None? || !(if t.viewSrc.Some? then t.viewSrc.value else t.buffer) {
        error := Some(UnsupportedTensor(layer));
        return;
      }
      if panics {
        poisoned := true;
        return;
      }
      var values := Machine.ReadSafely(t, offset.value, width, rows, outputs);
      slots[k] := slots[k].(snapshot := slots[k].snapshot.(values := values));
      if forall v <- values :: v.IsFinite() {
        slots[k] := slots[k].(seen := true);
      } else {
        error := Some(NonFinite(layer));
      }
    }
  }
}

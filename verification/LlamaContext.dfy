/** The safe wrapper around `llama_context`: evaluation, capture and gated logits. */
module LlamaContexts {
  import opened Wrappers
  import opened NativeBatch
  import opened LlamaBatches
  import opened CaptureErrors
  import opened Tensors
  import opened Captures
  import CaptureTrace
  import Machine = CaptureModel
  import Runs = ContextRun

  datatype EmbeddingsError = EmbeddingsNotEnabled | NonePoolType

  class LlamaContext {
    const nUbatch: nat
    const nCtx: nat
    const embeddingsEnabled: bool
    const capture: Capture?
    var initializedLogits: seq<int>
    // Native state: the batch of the last successful evaluation.
    var evaluated: Option<Batch>

    ghost const Repr: set<object?>

    ghost predicate Valid()
      reads this, Repr
    {
      Repr == if capture == null then {this} else {this, capture, capture.slots}
    }

    ghost function Model(): Runs.Context
      requires Valid()
      reads this, Repr
    {
      Runs.Context(if capture == null then None else Some(capture.Model()), initializedLogits)
    }

    constructor (nUbatch: nat, nCtx: nat, embeddingsEnabled: bool, capture: Capture?)
      ensures Valid() && this.nUbatch == nUbatch && this.nCtx == nCtx
      ensures this.embeddingsEnabled == embeddingsEnabled && this.capture == capture
      ensures fresh(Repr - if capture == null then {} else {capture, capture.slots})
      ensures initializedLogits == [] && evaluated == None
    {
      this.nUbatch := nUbatch;
      this.nCtx := nCtx;
      this.embeddingsEnabled := embeddingsEnabled;
      this.capture := capture;
      initializedLogits := [];
      evaluated := None;
      Repr := if capture == null then {this} else {this, capture, capture.slots};
    }

    // `calls` and `code`: the callbacks that the native evaluation makes, and its status.
    method Decode(batch: LlamaBatch, calls: seq<Machine.Call>, code: int) returns (r: Result<(), int>)
      requires Valid() && batch.Valid() && batch.Repr !! Repr
      modifies Repr
      ensures Valid() && r == if code == 0 then Ok(()) else Err(code)
      ensures Model() == Runs.Step(old(Model()), nUbatch, Runs.DecodeOp(batch.Raw(), calls, code))
      ensures evaluated == if code == 0 then Some(batch.Raw()) else old(evaluated)
      ensures initializedLogits == if code == 0 then batch.Raw().Outputs() else old(initializedLogits)
    {
      if capture != null {
        Observe(batch.Raw(), calls, code == 0);
      }
      r := Conclude(batch, code);
    }

    method Encode(batch: LlamaBatch, calls: seq<Machine.Call>, code: int) returns (r: Result<(), int>)
      requires Valid() && batch.Valid() && batch.Repr !! Repr
      modifies Repr
      ensures Valid() && r == if code == 0 then Ok(()) else Err(code)
      ensures Model() == Runs.Step(old(Model()), nUbatch, Runs.EncodeOp(batch.Raw(), calls, code))
      ensures evaluated == if code == 0 then Some(batch.Raw()) else old(evaluated)
      ensures initializedLogits == if code == 0 then batch.Raw().Outputs() else old(initializedLogits)
    {
      if capture != null {
        capture.Unsupported();
        Evaluate(calls);
      }
      r := Conclude(batch, code);
    }

    // One evaluation between the capture's begin and finish.
    method Observe(batch: Batch, calls: seq<Machine.Call>, success: bool)
      requires Valid() && capture != null
      modifies capture, capture.slots
      ensures capture.Model() == CaptureTrace.Decode(old(capture.Model()), batch, nUbatch, calls, success)
    {
      capture.Begin(batch, nUbatch);
      Evaluate(calls);
      capture.Finish(success);
    }

    // The scheduler's callbacks during one native evaluation.
    method Evaluate(calls: seq<Machine.Call>)
      requires Valid() && capture != null
      modifies capture, capture.slots
      ensures capture.Model() == Machine.Callbacks(old(capture.Model()), calls)
    {
      for i := 0 to |calls|
        invariant capture.Model() == Machine.Callbacks(old(capture.Model()), calls[..i])
      {
        var _ := capture.Callback(calls[i]);
        assert calls[..i + 1][..i] == calls[..i];
      }
      assert calls[..|calls|] == calls;
    }

    // Only a successful evaluation replaces the index of readable logits.
    method Conclude(batch: LlamaBatch, code: int) returns (r: Result<(), int>)
      requires batch.Valid() && this !in batch.Repr
      modifies this
      ensures r == if code == 0 then Ok(()) else Err(code)
      ensures initializedLogits == if code == 0 then batch.Raw().Outputs() else old(initializedLogits)
      ensures evaluated == if code == 0 then Some(batch.Raw()) else old(evaluated)
    {
      if code == 0 {
        initializedLogits := batch.initializedLogits;
        evaluated := Some(batch.Raw());
        r := Ok(());
      } else {
        r := Err(code);
      }
    }

    method SetHiddenStateCaptureEnabled(enabled: bool) returns (r: Result<(), CaptureError>)
      requires Valid()
      modifies Repr
      ensures Valid() && Model() == Runs.Step(old(Model()), nUbatch, Runs.ToggleOp(enabled))
      ensures evaluated == old(evaluated)
      ensures r == if capture == null then Err(NotEnabled) else Machine.SetEnabledResult(old(capture.Model()))
    {
      if capture == null {
        return Err(NotEnabled);
      }
      r := capture.SetEnabled(enabled);
    }

    method TakeHiddenStates(reserves: bool) returns (r: Result<Snapshot, CaptureError>)
      requires Valid()
      modifies Repr
      ensures Valid() && Model() == Runs.Step(old(Model()), nUbatch, Runs.TakeOp(reserves))
      ensures evaluated == old(evaluated)
      ensures r == Runs.TakeAnswer(old(Model()), reserves)
    {
      if capture == null {
        return Err(NotEnabled);
      }
      r := capture.Take(reserves);
    }

    // `native` is the pooled output of a sequence of the evaluated batch; none stands for a null pointer.
    function EmbeddingsSeqIth(i: int, native: (Batch, int) -> Option<seq<F32>>)
      : (r: Result<seq<F32>, EmbeddingsError>)
      reads this
      ensures r == Err(EmbeddingsNotEnabled) <==> !embeddingsEnabled
      ensures embeddingsEnabled && evaluated.Some? ==> (r.Err? <==> native(evaluated.value, i).None?)
      ensures r.Ok? ==> evaluated.Some? && native(evaluated.value, i) == Some(r.value)
    {
      if !embeddingsEnabled then Err(EmbeddingsNotEnabled)
      else if evaluated.None? then Err(NonePoolType)
      else
        match native(evaluated.value, i)
        case None => Err(NonePoolType)
        case Some(values) => Ok(values)
    }

    // Whether a read of the logits of token `i` passes its assertions.
    predicate MayReadLogits(i: int)
      reads this
    {
      i in initializedLogits && 0 <= i < nCtx
    }
  }

  // Over every run, a logits read passes both assertions exactly for the tokens, below the context size,
  // whose output the last successfully evaluated batch requested.
  lemma ReadGate(ctx: LlamaContext, c: Runs.Context, nUbatch: nat, ops: seq<Runs.Op>, i: int)
    requires ctx.Valid() && c.initializedLogits == [] && ctx.Model() == Runs.Run(c, nUbatch, ops)
    ensures ctx.MayReadLogits(i) <==> i < ctx.nCtx && exists e :: Runs.RequestedByLastEvaluation(ops, e, i)
  {
    Runs.LogitsGate(c, nUbatch, ops, i);
  }
}

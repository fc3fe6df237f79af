/**
 Runs of a context's decode, encode, capture toggle and capture take, with arbitrary native results:
 which snapshot a take may hand out, and which logits may be read.
 */
module ContextRun {
  import opened Wrappers
  import opened NativeBatch
  import opened BatchShapes
  import opened CaptureErrors
  import opened Tensors
  import opened CaptureModel
  import opened CaptureTrace

  datatype Context = Context(capture: Option<State>, initializedLogits: seq<int>)

  // `code` is the native status; zero is success.
  datatype Op =
    | DecodeOp(batch: Batch, calls: seq<Call>, code: int)
    | EncodeOp(batch: Batch, calls: seq<Call>, code: int)
    | ToggleOp(enabled: bool)
    | TakeOp(reserves: bool)

  // A successful evaluation.
  predicate Evaluated(op: Op) {
    (op.DecodeOp? || op.EncodeOp?) && op.code == 0
  }

  function CaptureStep(s: State, nUbatch: nat, op: Op): State {
    match op
    case DecodeOp(batch, calls, code) => Decode(s, batch, nUbatch, calls, code == 0)
    case EncodeOp(_, calls, _) => Callbacks(Unsupported(s), calls)
    case ToggleOp(enabled) => SetEnabled(s, enabled)
    case TakeOp(reserves) => Take(s, reserves)
  }

  function Step(c: Context, nUbatch: nat, op: Op): Context {
    Context(if c.capture.None? then None else Some(CaptureStep(c.capture.value, nUbatch, op)),
            if Evaluated(op) then op.batch.Outputs() else c.initializedLogits)
  }

  function TakeAnswer(c: Context, reserves: bool): Result<Snapshot, CaptureError> {
    match c.capture case None => Err(NotEnabled) case Some(s) => TakeResult(s, reserves)
  }

  function Run(c: Context, nUbatch: nat, ops: seq<Op>): Context {
    if ops == [] then c else Step(Run(c, nUbatch, ops[..|ops| - 1]), nUbatch, ops[|ops| - 1])
  }

  // ---- which logits may be read ----------------------------------------------------------------------

  // Operation `e` is the last successful evaluation, and its batch asked for the output of token `i`.
  ghost predicate RequestedByLastEvaluation(ops: seq<Op>, e: nat, i: int) {
    && e < |ops| && Evaluated(ops[e])
    && (forall j | e < j < |ops| :: !Evaluated(ops[j]))
    && 0 <= i < ops[e].batch.nTokens && ops[e].batch.RequestsOutput(i)
  }

  // The membership check of a logits read passes exactly for the requested tokens of the last successfully
  // evaluated batch, as it stood at that call.
  lemma {:induction false} LogitsGate(c: Context, nUbatch: nat, ops: seq<Op>, i: int)
    requires c.initializedLogits == []
    ensures i in Run(c, nUbatch, ops).initializedLogits <==> exists e :: RequestedByLastEvaluation(ops, e, i)
  {
    if ops != [] {
      var last := |ops| - 1;
      var op, before := ops[last], Run(c, nUbatch, ops[..last]);
      if Evaluated(op) {
        assert Run(c, nUbatch, ops).initializedLogits == op.batch.Outputs();
        if op.batch.nTokens >= 0 {
          OutputsBelowExact(op.batch, op.batch.nTokens);
        }
        assert i in op.batch.Outputs() <==> RequestedByLastEvaluation(ops, last, i);
      } else {
        LogitsGate(c, nUbatch, ops[..last], i);
        assert Run(c, nUbatch, ops).initializedLogits == before.initializedLogits;
        forall e: nat ensures RequestedByLastEvaluation(ops, e, i)
                              <==> RequestedByLastEvaluation(ops[..last], e, i) {
        }
      }
    }
  }

  // ---- which snapshot may be taken ---------------------------------------------------------------------

  // What is waiting to be taken.
  datatype Pending = Nothing | Holding(result: Result<Snapshot, CaptureError>) | Lost

  // The last toggle decides; a capture starts enabled.
  predicate EnabledAfter(ops: seq<Op>) {
    if ops == [] then true
    else if ops[|ops| - 1].ToggleOp? then ops[|ops| - 1].enabled
    else EnabledAfter(ops[..|ops| - 1])
  }

  ghost predicate LastToggle(ops: seq<Op>, j: nat) {
    j < |ops| && ops[j].ToggleOp? && forall k | j < k < |ops| :: !ops[k].ToggleOp?
  }

  // A capture is disabled exactly when its last toggle disabled it.
  lemma {:induction false} EnabledExactly(ops: seq<Op>)
    ensures EnabledAfter(ops) <==> forall j: nat | LastToggle(ops, j) :: ops[j] != ToggleOp(false)
  {
    if ops != [] {
      var last := |ops| - 1;
      if ops[last].ToggleOp? {
        assert LastToggle(ops, last);
      } else {
        EnabledExactly(ops[..last]);
        forall j: nat ensures LastToggle(ops, j) <==> LastToggle(ops[..last], j) {
        }
      }
    }
  }

  // Each decode replaces what is pending by its own outcome, encode by its refusal, a toggle by nothing,
  // and a successful take removes it.
  function PendingAfter(layers: seq<nat>, width: nat, nUbatch: nat, ops: seq<Op>): Pending {
    if ops == [] then Nothing
    else
      var history := ops[..|ops| - 1];
      var before := PendingAfter(layers, width, nUbatch, history);
      if before.Lost? then Lost
      else
        match ops[|ops| - 1]
        case DecodeOp(batch, calls, code) =>
          if !EnabledAfter(history) then Nothing
          else
            (match DecodeOutcome(layers, width, batch, nUbatch, calls, code == 0)
             case Broken => Lost
             case Delivers(result) => Holding(result))
        case EncodeOp(_, _, _) => if EnabledAfter(history) then Holding(Err(UnsupportedBatch)) else Nothing
        case ToggleOp(_) => Nothing
        case TakeOp(reserves) => if before.Holding? && before.result.Ok? && reserves then Nothing else before
  }

  function Answer(pending: Pending, reserves: bool): Result<Snapshot, CaptureError> {
    match pending
    case Lost => Err(CallbackFailed)
    case Nothing => Err(NoCapture)
    case Holding(result) => if result.Ok? && !reserves then Err(AllocationFailed) else result
  }

  ghost predicate SameShape(s: State, s': State) {
    && |s'.slots| == |s.slots|
    && (forall k | 0 <= k < |s.slots| ::
          && s'.slots[k].snapshot.layer == s.slots[k].snapshot.layer
          && |s'.slots[k].snapshot.values| == |s.slots[k].snapshot.values|)
    && s'.enabled == s.enabled && s'.active == s.active && s'.ready == s.ready
    && (s.poisoned ==> s' == s)
  }

  lemma ReadKeepsShape(s: State, k: nat, t: Tensor, panics: bool)
    requires k < |s.slots| && !s.poisoned
    ensures SameShape(s, ReadInto(s, k, t, panics))
  {
  }

  lemma {:induction false} CallbacksKeepShape(s: State, calls: seq<Call>)
    ensures SameShape(s, Callbacks(s, calls))
  {
    if calls != [] {
      var before, c := Callbacks(s, calls[..|calls| - 1]), calls[|calls| - 1];
      CallbacksKeepShape(s, calls[..|calls| - 1]);
      if Target(before, c).Some? && !c.ask {
        ReadKeepsShape(before, Target(before, c).value, c.tensor.value, c.panics);
      }
    }
  }

  // A capture agrees with what is pending.
  ghost predicate Agrees(s: State, ops: seq<Op>, pending: Pending) {
    && (s.poisoned <==> pending.Lost?)
    && (!s.poisoned ==> s.enabled == EnabledAfter(ops) && !s.active)
    && (s.ready ==> s.enabled && !s.active)
    && (!s.poisoned && s.ready && s.error.None? ==> forall slot <- s.slots :: slot.seen)
    && forall reserves: bool :: TakeResult(s, reserves) == Answer(pending, reserves)
  }

  lemma DecodeAgrees(s: State, layers: seq<nat>, width: nat, nUbatch: nat, history: seq<Op>, op: Op)
    requires Configured(s, layers, width) && op.DecodeOp?
    requires Agrees(s, history, PendingAfter(layers, width, nUbatch, history))
    ensures var s' := CaptureStep(s, nUbatch, op);
            && Configured(s', layers, width)
            && Agrees(s', history + [op], PendingAfter(layers, width, nUbatch, history + [op]))
  {
    assert (history + [op])[..|history|] == history;
    var begun := Begin(s, op.batch, nUbatch);
    CallbacksKeepShape(begun, op.calls);
    if !s.poisoned && s.enabled {
      DecodeThenTake(s, layers, width, op.batch, nUbatch, op.calls, op.code == 0);
    } else {
      QuietCallbacks(begun, op.calls);
    }
  }

  lemma StepAgrees(s: State, layers: seq<nat>, width: nat, nUbatch: nat, history: seq<Op>, op: Op)
    requires Configured(s, layers, width)
    requires Agrees(s, history, PendingAfter(layers, width, nUbatch, history))
    ensures var s' := CaptureStep(s, nUbatch, op);
            && Configured(s', layers, width)
            && Agrees(s', history + [op], PendingAfter(layers, width, nUbatch, history + [op]))
  {
    assert (history + [op])[..|history|] == history;
    match op {
      case DecodeOp(_, _, _) => DecodeAgrees(s, layers, width, nUbatch, history, op);
      case EncodeOp(_, calls, _) => QuietCallbacks(Unsupported(s), calls);
      case ToggleOp(_) =>
      case TakeOp(_) =>
    }
  }

  // Over every run, taking answers exactly what is pending, and the machine keeps its invariants.
  lemma {:induction false} RunAgrees(c: Context, layers: seq<nat>, width: nat, nUbatch: nat, ops: seq<Op>)
    requires c.capture.Some? && Initial(c.capture.value, layers, width) && Distinct(layers) && 0 < width
    ensures var c' := Run(c, nUbatch, ops);
            var pending := PendingAfter(layers, width, nUbatch, ops);
            && c'.capture.Some? && Configured(c'.capture.value, layers, width)
            && Agrees(c'.capture.value, ops, pending)
            && forall reserves: bool :: TakeAnswer(c', reserves) == Answer(pending, reserves)
  {
    if ops != [] {
      var last := |ops| - 1;
      RunAgrees(c, layers, width, nUbatch, ops[..last]);
      StepAgrees(Run(c, nUbatch, ops[..last]).capture.value, layers, width, nUbatch, ops[..last], ops[last]);
      assert ops[..last] + [ops[last]] == ops;
    }
  }

  // Decode `d` ran on an enabled capture and broke it: a read panicked inside the locked region.
  ghost predicate BreaksAt(layers: seq<nat>, width: nat, nUbatch: nat, ops: seq<Op>, d: nat) {
    && d < |ops| && ops[d].DecodeOp? && EnabledAfter(ops[..d])
    && DecodeOutcome(layers, width, ops[d].batch, nUbatch, ops[d].calls, ops[d].code == 0).Broken?
  }

  lemma BreaksPrefix(layers: seq<nat>, width: nat, nUbatch: nat, ops: seq<Op>, n: nat, d: nat)
    requires d < n <= |ops|
    ensures BreaksAt(layers, width, nUbatch, ops[..n], d) <==> BreaksAt(layers, width, nUbatch, ops, d)
  {
    assert ops[..n][..d] == ops[..d];
  }

  // An operation loses the capture exactly when it is such a decode.
  lemma LostHere(layers: seq<nat>, width: nat, nUbatch: nat, ops: seq<Op>)
    requires ops != []
    ensures var last := |ops| - 1;
            PendingAfter(layers, width, nUbatch, ops).Lost? <==>
            PendingAfter(layers, width, nUbatch, ops[..last]).Lost? || BreaksAt(layers, width, nUbatch, ops, last)
  {
  }

  // The capture is lost exactly when some decode on it, while enabled, broke it.
  lemma {:induction false} LostExactly(layers: seq<nat>, width: nat, nUbatch: nat, ops: seq<Op>)
    ensures PendingAfter(layers, width, nUbatch, ops).Lost? <==> exists d :: BreaksAt(layers, width, nUbatch, ops, d)
  {
    hide DecodeOutcome, EnabledAfter;
    if ops != [] {
      var last := |ops| - 1;
      LostExactly(layers, width, nUbatch, ops[..last]);
      LostHere(layers, width, nUbatch, ops);
      forall d: nat | d < last
        ensures BreaksAt(layers, width, nUbatch, ops[..last], d) <==> BreaksAt(layers, width, nUbatch, ops, d)
      {
        BreaksPrefix(layers, width, nUbatch, ops, last, d);
      }
      if d: nat :| BreaksAt(layers, width, nUbatch, ops[..last], d) {
        assert BreaksAt(layers, width, nUbatch, ops, d);
      }
    }
  }

  // Operation `d` is a successful decode on an enabled, unbroken capture whose trace yields `v`, and since
  // then there were only takes, none of which succeeded.
  ghost predicate FreshFrom(layers: seq<nat>, width: nat, nUbatch: nat, ops: seq<Op>, d: nat, v: Snapshot) {
    && d < |ops| && ops[d].DecodeOp? && ops[d].code == 0
    && EnabledAfter(ops[..d]) && (forall e :: !BreaksAt(layers, width, nUbatch, ops[..d], e))
    && DecodeOutcome(layers, width, ops[d].batch, nUbatch, ops[d].calls, true) == Delivers(Ok(v))
    && forall j | d < j < |ops| :: ops[j].TakeOp? && !ops[j].reserves
  }

  lemma FreshAfterTake(layers: seq<nat>, width: nat, nUbatch: nat, ops: seq<Op>, take: Op, d: nat, v: Snapshot)
    requires take.TakeOp?
    ensures FreshFrom(layers, width, nUbatch, ops + [take], d, v)
            <==> !take.reserves && FreshFrom(layers, width, nUbatch, ops, d, v)
  {
    var longer := ops + [take];
    assert longer[|ops|] == take;
    if d < |ops| {
      assert longer[..d] == ops[..d] && longer[d] == ops[d];
      if FreshFrom(layers, width, nUbatch, longer, d, v) {
        forall j | d < j < |ops| ensures ops[j].TakeOp? && !ops[j].reserves {
          assert longer[j] == ops[j];
        }
      }
    }
  }

  lemma FreshAfterDecode(layers: seq<nat>, width: nat, nUbatch: nat, ops: seq<Op>, decode: Op, v: Snapshot)
    requires decode.DecodeOp?
    ensures PendingAfter(layers, width, nUbatch, ops + [decode]) == Holding(Ok(v))
            <==> FreshFrom(layers, width, nUbatch, ops + [decode], |ops|, v)
  {
    assert (ops + [decode])[..|ops|] == ops;
    LostExactly(layers, width, nUbatch, ops);
  }

  lemma {:induction false} PendingIsFresh(layers: seq<nat>, width: nat, nUbatch: nat, ops: seq<Op>, v: Snapshot)
    ensures PendingAfter(layers, width, nUbatch, ops) == Holding(Ok(v)) <==>
            exists d :: FreshFrom(layers, width, nUbatch, ops, d, v)
  {
    if ops != [] {
      var last := |ops| - 1;
      var op, history := ops[last], ops[..last];
      assert ops == history + [op];
      match op {
        case DecodeOp(_, _, _) =>
          FreshAfterDecode(layers, width, nUbatch, history, op, v);
        case TakeOp(_) =>
          PendingIsFresh(layers, width, nUbatch, history, v);
          forall d: nat
            ensures FreshFrom(layers, width, nUbatch, ops, d, v)
                    <==> !op.reserves && FreshFrom(layers, width, nUbatch, history, d, v)
          {
            FreshAfterTake(layers, width, nUbatch, history, op, d, v);
          }
        case _ =>
      }
    }
  }

  // A take hands out `v` exactly when `v` is what the latest decode's trace yields, with no encode, no
  // toggle and no successful take in between: never a stale and never a partial snapshot.
  lemma TakenSnapshotIsFresh(c: Context, layers: seq<nat>, width: nat, nUbatch: nat, ops: seq<Op>, v: Snapshot)
    requires c.capture.Some? && Initial(c.capture.value, layers, width) && Distinct(layers) && 0 < width
    ensures TakeAnswer(Run(c, nUbatch, ops), true) == Ok(v) <==>
            exists d :: FreshFrom(layers, width, nUbatch, ops, d, v)
  {
    RunAgrees(c, layers, width, nUbatch, ops);
    PendingIsFresh(layers, width, nUbatch, ops, v);
  }

  // A toggle succeeds exactly when no decode has broken the capture, and then its setting is in force.
  lemma ToggleSucceedsExactly(c: Context, layers: seq<nat>, width: nat, nUbatch: nat, ops: seq<Op>, enabled: bool)
    requires c.capture.Some? && Initial(c.capture.value, layers, width) && Distinct(layers) && 0 < width
    ensures var before := Run(c, nUbatch, ops).capture;
            && before.Some?
            && (SetEnabledResult(before.value) == Ok(()) <==> forall d :: !BreaksAt(layers, width, nUbatch, ops, d))
            && (SetEnabledResult(before.value).Err? ==> SetEnabledResult(before.value).error == CallbackFailed)
            && (SetEnabledResult(before.value).Ok? ==> SetEnabled(before.value, enabled).enabled == enabled)
  {
    RunAgrees(c, layers, width, nUbatch, ops);
    LostExactly(layers, width, nUbatch, ops);
  }

  // What a take answers after each kind of operation on an unbroken capture.
  lemma AnswerAfter(c: Context, layers: seq<nat>, width: nat, nUbatch: nat, ops: seq<Op>, op: Op, reserves: bool)
    requires c.capture.Some? && Initial(c.capture.value, layers, width) && Distinct(layers) && 0 < width
    requires forall d :: !BreaksAt(layers, width, nUbatch, ops + [op], d)
    ensures var earlier := TakeAnswer(Run(c, nUbatch, ops), op.TakeOp? && op.reserves);
            var answer := TakeAnswer(Run(c, nUbatch, ops + [op]), reserves);
            && (op.ToggleOp? || (!op.TakeOp? && !EnabledAfter(ops)) ==> answer == Err(NoCapture))
            && (op.EncodeOp? && EnabledAfter(ops) ==> answer == Err(UnsupportedBatch))
            && (op.DecodeOp? && op.code != 0 && EnabledAfter(ops) ==> answer == Err(EvaluationFailed))
            && (op.DecodeOp? && op.code == 0 && EnabledAfter(ops) && !Accepts(op.batch, nUbatch) ==>
                  answer == Err(UnsupportedBatch))
            && (op.TakeOp? && earlier.Ok? ==> answer == Err(NoCapture))
            && (op.TakeOp? && earlier.Err? && reserves == op.reserves ==> answer == earlier)
  {
    assert (ops + [op])[..|ops|] == ops;
    RunAgrees(c, layers, width, nUbatch, ops);
    RunAgrees(c, layers, width, nUbatch, ops + [op]);
    LostExactly(layers, width, nUbatch, ops + [op]);
  }

  // Before anything was decoded there is nothing to take.
  lemma AnswerAtFirst(c: Context, layers: seq<nat>, width: nat, reserves: bool)
    requires c.capture.Some? && Initial(c.capture.value, layers, width)
    ensures TakeAnswer(c, reserves) == Err(NoCapture)
  {
  }

  lemma PoisonedStep(s: State, nUbatch: nat, op: Op)
    requires s.poisoned
    ensures CaptureStep(s, nUbatch, op) == s
  {
    if op.DecodeOp? || op.EncodeOp? {
      QuietCallbacks(s, op.calls);
    }
  }

  // A poisoned capture never changes again: every later take and toggle fails.
  lemma {:induction false} PoisonIsPermanent(c: Context, nUbatch: nat, ops: seq<Op>, later: seq<Op>)
    requires var capture := Run(c, nUbatch, ops).capture; capture.Some? && capture.value.poisoned
    ensures Run(c, nUbatch, ops + later).capture == Run(c, nUbatch, ops).capture
    ensures forall reserves: bool :: TakeAnswer(Run(c, nUbatch, ops + later), reserves) == Err(CallbackFailed)
    ensures SetEnabledResult(Run(c, nUbatch, ops + later).capture.value) == Err(CallbackFailed)
  {
    if later == [] {
      assert ops + later == ops;
    } else {
      var last := |later| - 1;
      PoisonIsPermanent(c, nUbatch, ops, later[..last]);
      assert (ops + later)[..|ops| + last] == ops + later[..last];
      PoisonedStep(Run(c, nUbatch, ops).capture.value, nUbatch, later[last]);
    }
  }
}

/** The native MTP wrapper object and the bounded-output Rust layer over it. */
module Mtp {
  import opened Wrappers
  import opened NativeBatch
  import Model = MtpModel

  method BatchCompatible(b: Batch) returns (ok: bool)
    ensures ok == Model.Compatible(b)
  {
    if b.nTokens <= 0 || b.token.None? || b.embd || b.pos.None? || b.nSeqId.None? || b.seqId.None? {
      return false;
    }
    for k := 0 to b.nTokens
      invariant forall j | 0 <= j < k ::
                  b.nSeqId.value[j] == 1 && b.seqId.value[j].Some? && b.seqId.value[j].value[0] == 0
    {
      if b.nSeqId.value[k] != 1 || b.seqId.value[k].None? || b.seqId.value[k].value[0] != 0 {
        return false;
      }
    }
    ok := true;
  }

  class NativeMtp {
    var prompt: seq<int>
    var draft: seq<int>
    var lastDraftLen: nat
    var draftPending: bool

    ghost function State(): Model.Mtp
      reads this
    {
      Model.Mtp(prompt, draft, lastDraftLen, draftPending)
    }

    constructor ()
      ensures State() == Model.FRESH
    {
      prompt, draft, lastDraftLen, draftPending := [], [], 0, false;
    }

    method Begin(promptTokens: seq<int>, exit: Model.BeginExit) returns (status: Model.Status)
      modifies this
      ensures State() == Model.Step(old(State()), Model.BeginCall(promptTokens, exit))
      ensures status == Model.StatusOf(old(State()), Model.BeginCall(promptTokens, exit))
    {
      if exit.BeginAssignThrows? {
        return Model.Exception;
      }
      prompt := promptTokens;
      lastDraftLen := 0;
      draftPending := false;
      status := if exit.BeginEngineThrows? then Model.Exception else Model.StatusOk;
    }

    method Process(batch: Batch, throws: bool, processed: bool) returns (status: Model.Status)
      ensures status == Model.StatusOf(State(), Model.ProcessCall(batch, throws, processed))
    {
      var compatible := BatchCompatible(batch);
      if !compatible {
        return Model.InvalidArgument;
      }
      if throws {
        return Model.Exception;
      }
      status := if processed then Model.StatusOk else Model.Exception;
    }

    // `count` is what the call leaves in the caller's length cell, which held `count0`.
    method Draft(nPast: int, promptTokens: seq<int>, out: array?<int>, capacity: nat, count0: nat,
                 exit: Model.DraftExit) returns (status: Model.Status, count: nat)
      requires out != null ==> capacity == out.Length
      modifies this, out
      ensures var call := Model.DraftCall(nPast, promptTokens, out != null, capacity, exit);
              && State() == Model.Step(old(State()), call)
              && status == Model.StatusOf(old(State()), call)
              && (status.StatusOk? ==>
                    && Model.Delivered(old(State()), call) == Some(exit.tokens)
                    && count == |exit.tokens| <= capacity
                    && (out != null ==> out[..count] == exit.tokens))
      ensures status.StatusOk? <==>
              && 0 <= nPast && !old(draftPending) && exit.Drafts? && |exit.tokens| <= capacity
              && (exit.tokens == [] || out != null)
      ensures count == if 0 <= nPast && !old(draftPending) && exit.Drafts? then |exit.tokens| else count0
      ensures status.AllocationFailed? <==>
              0 <= nPast && !old(draftPending) && exit.Drafts? && capacity < |exit.tokens|
      ensures status.Exception? <==> 0 <= nPast && !old(draftPending) && !exit.Drafts?
    {
      count := count0;
      if nPast < 0 {
        return Model.InvalidArgument, count;
      }
      if draftPending {
        return Model.InvalidArgument, count;
      }
      if exit.DraftAssignThrows? {
        return Model.Exception, count;
      }
      prompt := promptTokens;
      draft := [];
      lastDraftLen := 0;
      if exit.DraftEngineThrows? {
        draft := exit.partial;
        return Model.Exception, count;
      }
      draft := exit.tokens;
      count := |draft|;
      if |draft| > capacity {
        return Model.AllocationFailed, count;
      }
      if draft != [] && out == null {
        return Model.InvalidArgument, count;
      }
      if draft != [] {
        for i := 0 to |draft|
          modifies out
          invariant out[..i] == draft[..i]
        {
          out[i] := draft[i];
        }
      }
      lastDraftLen := |draft|;
      draftPending := draft != [];
      status := Model.StatusOk;
    }

    method Accept(count: U16, throws: bool) returns (status: Model.Status)
      modifies this
      ensures State() == Model.Step(old(State()), Model.AcceptCall(count, throws))
      ensures status == Model.StatusOf(old(State()), Model.AcceptCall(count, throws))
    {
      if !draftPending || count > lastDraftLen {
        return Model.InvalidArgument;
      }
      if throws {
        return Model.Exception;
      }
      lastDraftLen := 0;
      draftPending := false;
      status := Model.StatusOk;
    }
  }

  datatype MtpError = InvalidParams | InitFailed | StatusError(code: int) | DraftOverflow

  function StatusResult(status: Model.Status): Result<(), MtpError> {
    if status.StatusOk? then Ok(()) else Err(StatusError(status.Code()))
  }

  class MtpSpeculative {
    const raw: NativeMtp
    const nMax: nat

    constructor (raw: NativeMtp, nMax: nat)
      ensures this.raw == raw && this.nMax == nMax
    {
      this.raw := raw;
      this.nMax := nMax;
    }

    // `initializes`: whether native initialization yields a handle.
    static method New(nMax: I32, nMin: I32, initializes: bool) returns (r: Result<MtpSpeculative, MtpError>)
      ensures r.Ok? <==> 0 <= nMin <= nMax && 0 < nMax && initializes
      ensures r.Err? ==> r.error == if 0 <= nMin <= nMax && 0 < nMax then InitFailed else InvalidParams
      ensures r.Ok? ==> fresh(r.value) && fresh(r.value.raw)
      ensures r.Ok? ==> r.value.nMax == nMax && r.value.raw.State() == Model.FRESH
    {
      if nMax <= 0 || nMin < 0 || nMin > nMax {
        return Err(InvalidParams);
      }
      if !initializes {
        return Err(InitFailed);
      }
      var raw := new NativeMtp();
      var m := new MtpSpeculative(raw, nMax);
      r := Ok(m);
    }

    method Begin(promptTokens: seq<int>, exit: Model.BeginExit) returns (r: Result<(), MtpError>)
      modifies raw
      ensures raw.State() == Model.Step(old(raw.State()), Model.BeginCall(promptTokens, exit))
      ensures r.Ok? <==> exit.BeginCompletes?
      ensures r.Err? ==> r.error == StatusError(-3)
    {
      var status := raw.Begin(promptTokens, exit);
      r := StatusResult(status);
    }

    method Process(batch: Batch, throws: bool, processed: bool) returns (r: Result<(), MtpError>)
      ensures r.Ok? <==> Model.Compatible(batch) && !throws && processed
      ensures r.Err? ==>
                r.error == StatusError(if Model.Compatible(batch) then -3 else -1)
    {
      var status := raw.Process(batch, throws, processed);
      r := StatusResult(status);
    }

    // The whole draft, of at most `nMax` tokens, or an error.
    method Draft(nPast: int, promptTokens: seq<int>, exit: Model.DraftExit) returns (r: Result<seq<int>, MtpError>)
      requires 0 < nMax
      modifies raw
      ensures raw.State() == Model.Step(old(raw.State()), Model.DraftCall(nPast, promptTokens, true, nMax, exit))
      ensures r.Ok? <==> 0 <= nPast && !old(raw.draftPending) && exit.Drafts? && |exit.tokens| <= nMax
      ensures r.Ok? ==> r.value == exit.tokens
      ensures r == Err(DraftOverflow) <==>
              0 <= nPast && !old(raw.draftPending) && exit.Drafts? && nMax < |exit.tokens|
      ensures r == Err(InvalidParams) <==> nPast < 0
      ensures r == Err(StatusError(-1)) <==> 0 <= nPast && old(raw.draftPending)
      ensures r == Err(StatusError(-3)) <==>
              0 <= nPast && !old(raw.draftPending) && !exit.Drafts?
    {
      if nPast < 0 {
        return Err(InvalidParams);
      }
      var rawOut := new int[nMax](_ => 0);
      var status, outLen := raw.Draft(nPast, promptTokens, rawOut, nMax, 0, exit);
      if status.AllocationFailed? {
        return Err(DraftOverflow);
      }
      var result := StatusResult(status);
      if result.Err? {
        return Err(result.error);
      }
      r := Ok(rawOut[..outLen]);
    }

    method Accept(count: U16, throws: bool) returns (r: Result<(), MtpError>)
      modifies raw
      ensures raw.State() == Model.Step(old(raw.State()), Model.AcceptCall(count, throws))
      ensures r.Ok? <==> !throws && old(raw.draftPending) && count <= old(raw.lastDraftLen)
      ensures r.Err? ==>
                r.error == StatusError(if old(raw.draftPending) && count <= old(raw.lastDraftLen)
                                       then -3 else -1)
    {
      var status := raw.Accept(count, throws);
      r := StatusResult(status);
    }
  }
}

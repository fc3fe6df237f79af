/**
 The native wrapper around the speculative engine as a state machine: drafts and accepts alternate, and
 every engine call may throw.
 */
module MtpModel {
  import opened Wrappers
  import opened NativeBatch

  datatype Status = StatusOk | InvalidArgument | AllocationFailed | Exception
  {
    function Code(): int {
      match this case StatusOk => 0 case InvalidArgument => -1 case AllocationFailed => -2 case Exception => -3
    }
  }

  // How a call leaves: copying the prompt may throw, the engine may throw, or it completes.
  datatype BeginExit = BeginAssignThrows | BeginEngineThrows | BeginCompletes

  datatype DraftExit = DraftAssignThrows | DraftEngineThrows(partial: seq<int>) | Drafts(tokens: seq<int>)

  datatype Call =
    | BeginCall(prompt: seq<int>, beginExit: BeginExit)
    | ProcessCall(batch: Batch, throws: bool, processed: bool)
    | DraftCall(nPast: int, draftPrompt: seq<int>, hasOut: bool, capacity: nat, draftExit: DraftExit)
    | AcceptCall(count: U16, acceptThrows: bool)

  datatype Mtp = Mtp(prompt: seq<int>, draft: seq<int>, lastDraftLen: nat, draftPending: bool)

  const FRESH: Mtp := Mtp([], [], 0, false)

  predicate Compatible(b: Batch) {
    && 0 < b.nTokens && b.token.Some? && !b.embd && b.pos.Some? && b.nSeqId.Some? && b.seqId.Some?
    && forall k | 0 <= k < b.nTokens ::
         b.nSeqId.value[k] == 1 && b.seqId.value[k].Some? && b.seqId.value[k].value[0] == 0
  }

  // One laid-out sequence is compatible exactly when it is not empty and is sequence 0.
  lemma OneSequenceCompatible(tokens: seq<int>, id: int, all: bool)
    ensures Compatible(AppendSequence(EMPTY, tokens, id, all)) <==> tokens != [] && id == 0
  {
    var b := AppendSequence(EMPTY, tokens, id, all);
    if tokens != [] {
      assert b.seqId.value[0] == Some([id]);
    }
  }

  // With all arrays, a batch is compatible exactly when it is not empty, every token belongs to sequence 0
  // alone, and it carries no embeddings; without any one of the arrays it is not.
  lemma CompatibleExactly(b: Batch)
    ensures b.Exact() ==>
              (Compatible(b) <==> 0 < b.nTokens && !b.embd && forall i | 0 <= i < b.nTokens :: b.seqId.value[i] == Some([0]))
    ensures b.embd || b.token.None? || b.pos.None? || b.nSeqId.None? || b.seqId.None? ==> !Compatible(b)
  {
    if b.Exact() && Compatible(b) {
      forall i | 0 <= i < b.nTokens ensures b.seqId.value[i] == Some([0]) {
        assert b.seqId.value[i].value == [b.seqId.value[i].value[0]];
      }
    }
  }

  // The draft that reaches the caller, if the call delivers one.
  function Delivered(s: Mtp, call: Call): Option<seq<int>>
    requires call.DraftCall?
  {
    if call.nPast < 0 || s.draftPending || !call.draftExit.Drafts? then None
    else
      var tokens := call.draftExit.tokens;
      if |tokens| > call.capacity || (tokens != [] && !call.hasOut) then None else Some(tokens)
  }

  function StatusOf(s: Mtp, call: Call): Status {
    match call
    case BeginCall(_, exit) => if exit.BeginCompletes? then StatusOk else Exception
    case ProcessCall(batch, throws, processed) =>
      if !Compatible(batch) then InvalidArgument
      else if throws || !processed then Exception else StatusOk
    case DraftCall(nPast, _, hasOut, capacity, exit) =>
      if nPast < 0 || s.draftPending then InvalidArgument
      else if !exit.Drafts? then Exception
      else if |exit.tokens| > capacity then AllocationFailed
      else if exit.tokens != [] && !hasOut then InvalidArgument
      else StatusOk
    case AcceptCall(count, throws) =>
      if !s.draftPending || count > s.lastDraftLen then InvalidArgument
      else if throws then Exception else StatusOk
  }

  function Step(s: Mtp, call: Call): Mtp {
    match call
    case BeginCall(prompt, exit) =>
      if exit.BeginAssignThrows? then s
      else s.(prompt := prompt, lastDraftLen := 0, draftPending := false)
    case ProcessCall(_, _, _) => s
    case DraftCall(nPast, prompt, hasOut, capacity, exit) =>
      if nPast < 0 || s.draftPending || exit.DraftAssignThrows? then s
      else if exit.DraftEngineThrows? then s.(prompt := prompt, draft := exit.partial, lastDraftLen := 0)
      else
        var drafted := s.(prompt := prompt, draft := exit.tokens, lastDraftLen := 0);
        if Delivered(s, call).None? then drafted
        else drafted.(lastDraftLen := |exit.tokens|, draftPending := exit.tokens != [])
    case AcceptCall(_, _) =>
      if StatusOf(s, call).StatusOk? then s.(lastDraftLen := 0, draftPending := false) else s
  }

  function Run(calls: seq<Call>): Mtp {
    if calls == [] then FRESH else Step(Run(calls[..|calls| - 1]), calls[|calls| - 1])
  }

  function StatusAt(calls: seq<Call>, i: nat): Status
    requires i < |calls|
  {
    StatusOf(Run(calls[..i]), calls[i])
  }

  // Call `j` gets as far as replacing the prompt that the engine sees.
  predicate AssignsPrompt(calls: seq<Call>, j: nat)
    requires j < |calls|
  {
    || (calls[j].BeginCall? && calls[j].beginExit != BeginAssignThrows)
    || (calls[j].DraftCall? && calls[j].draftExit != DraftAssignThrows
        && 0 <= calls[j].nPast && !Run(calls[..j]).draftPending)
  }

  function PromptOf(call: Call): seq<int>
    requires call.BeginCall? || call.DraftCall?
  {
    if call.BeginCall? then call.prompt else call.draftPrompt
  }

  // The engine sees the prompt of the latest call that got as far as replacing it.
  lemma {:induction false} PromptIsLatest(calls: seq<Call>, j: nat)
    requires j < |calls| && AssignsPrompt(calls, j)
    requires forall k | j < k < |calls| :: !AssignsPrompt(calls, k)
    ensures Run(calls).prompt == PromptOf(calls[j])
  {
    var last := |calls| - 1;
    if j < last {
      var before := calls[..last];
      assert forall k | 0 <= k < last :: calls[..k] == before[..k] && calls[k] == before[k];
      assert AssignsPrompt(before, j);
      forall k | j < k < last ensures !AssignsPrompt(before, k) {
        assert !AssignsPrompt(calls, k) && calls[..k] == before[..k];
      }
      PromptIsLatest(before, j);
      assert !AssignsPrompt(calls, last);
    }
  }

  // ---- the protocol over whole runs ------------------------------------------------------------------

  // Call `d` delivered a non-empty draft.
  predicate DraftsAt(calls: seq<Call>, d: nat) {
    d < |calls| && calls[d].DraftCall? && StatusAt(calls, d).StatusOk? && calls[d].draftExit.tokens != []
  }

  // Call `j` ends whatever draft is outstanding: a begin that got past its prompt, or a successful accept.
  predicate EndsAt(calls: seq<Call>, j: nat)
    requires j < |calls|
  {
    || (calls[j].BeginCall? && !calls[j].beginExit.BeginAssignThrows?)
    || (calls[j].AcceptCall? && StatusAt(calls, j).StatusOk?)
  }

  // The draft of call `d` has not been consumed.
  ghost predicate Outstanding(calls: seq<Call>, d: nat) {
    DraftsAt(calls, d) && forall j | d < j < |calls| :: !EndsAt(calls, j)
  }

  lemma OutstandingSnoc(calls: seq<Call>, call: Call, d: nat)
    ensures Outstanding(calls + [call], d) <==>
            if d < |calls| then Outstanding(calls, d) && !EndsAt(calls + [call], |calls|)
            else d == |calls| && DraftsAt(calls + [call], d)
  {
    var longer := calls + [call];
    forall j | 0 <= j < |calls| ensures longer[..j] == calls[..j] && longer[j] == calls[j] {
    }
    assert longer[..|calls|] == calls;
    if d < |calls| {
      assert DraftsAt(longer, d) <==> DraftsAt(calls, d);
      assert forall j | d < j < |calls| :: EndsAt(longer, j) <==> EndsAt(calls, j);
    }
  }

  // At every point a draft is pending exactly when one is outstanding; it is the only one, and its length
  // and tokens are the recorded ones.
  lemma {:induction false} PendingIsOutstanding(calls: seq<Call>)
    ensures Run(calls).draftPending <==> 0 < Run(calls).lastDraftLen
    ensures Run(calls).draftPending <==> exists d: nat :: Outstanding(calls, d)
    ensures forall d: nat | Outstanding(calls, d) ::
              Run(calls).draft == calls[d].draftExit.tokens && Run(calls).lastDraftLen == |Run(calls).draft|
    ensures forall d: nat, d': nat | Outstanding(calls, d) && Outstanding(calls, d') :: d == d'
  {
    if calls != [] {
      var last := |calls| - 1;
      var before, call := calls[..last], calls[last];
      PendingIsOutstanding(before);
      assert calls == before + [call];
      forall d: nat
        ensures Outstanding(calls, d) <==>
                if d < last then Outstanding(before, d) && !EndsAt(calls, last) else d == last && DraftsAt(calls, d)
      {
        OutstandingSnoc(before, call, d);
      }
      if Run(before).draftPending {
        var d: nat :| Outstanding(before, d);
        assert Outstanding(calls, d) <==> !EndsAt(calls, last);
      }
      assert DraftsAt(calls, last) ==> Outstanding(calls, last);
    }
  }

  // An accept succeeds exactly when the engine does not throw and it is for at most the length of an
  // earlier non-empty draft with no begin and no successful accept since.
  lemma AcceptsExactly(calls: seq<Call>, count: U16, throws: bool)
    ensures StatusOf(Run(calls), AcceptCall(count, throws)).StatusOk? <==>
            !throws && exists d: nat :: Outstanding(calls, d) && count <= |calls[d].draftExit.tokens|
  {
    PendingIsOutstanding(calls);
  }

  // A delivered draft can be accepted up to its length, and blocks the next draft.
  lemma DraftCanBeAccepted(s: Mtp, draft: Call, next: Call, count: U16)
    requires draft.DraftCall? && StatusOf(s, draft).StatusOk? && draft.draftExit.tokens != [] && next.DraftCall?
    ensures StatusOf(Step(s, draft), AcceptCall(count, false)) ==
            if count <= |draft.draftExit.tokens| then StatusOk else InvalidArgument
    ensures StatusOf(Step(s, draft), next) == InvalidArgument
  {
  }

  // A begin that got past its prompt and an accept that succeeded discard the draft.
  lemma DraftIsDiscarded(s: Mtp, call: Call, count: U16)
    requires (call.BeginCall? && call.beginExit != BeginAssignThrows) || (call.AcceptCall? && StatusOf(s, call).StatusOk?)
    ensures StatusOf(Step(s, call), AcceptCall(count, false)) == InvalidArgument
  {
  }

  // Any other begin, accept or process, and a refused draft, leave the draft as it was.
  lemma DraftIsKept(s: Mtp, call: Call, accept: Call)
    requires accept.AcceptCall?
    requires
      || call.ProcessCall? || (call.BeginCall? && call.beginExit == BeginAssignThrows)
      || (call.AcceptCall? && !StatusOf(s, call).StatusOk?)
      || (call.DraftCall? && (call.nPast < 0 || s.draftPending))
    ensures StatusOf(Step(s, call), accept) == StatusOf(s, accept)
  {
  }

  function TotalDrafted(calls: seq<Call>): nat {
    if calls == [] then 0
    else
      var last := |calls| - 1;
      TotalDrafted(calls[..last]) + if DraftsAt(calls, last) then |calls[last].draftExit.tokens| else 0
  }

  function TotalAccepted(calls: seq<Call>): nat {
    if calls == [] then 0
    else
      var last := |calls| - 1;
      TotalAccepted(calls[..last]) +
      if calls[last].AcceptCall? && StatusAt(calls, last).StatusOk? then calls[last].count else 0
  }

  // Never more tokens are accepted than were drafted, even counting the pending draft as unspent.
  lemma {:induction false} AcceptedWithinDrafted(calls: seq<Call>)
    ensures TotalAccepted(calls) + Run(calls).lastDraftLen <= TotalDrafted(calls)
  {
    if calls != [] {
      AcceptedWithinDrafted(calls[..|calls| - 1]);
      PendingIsOutstanding(calls[..|calls| - 1]);
    }
  }
}

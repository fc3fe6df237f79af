/** Which batches identify their last token without guessing. */
module BatchShapes {
  import opened Wrappers
  import opened NativeBatch
  import opened CaptureErrors

  // All tokens carry exactly one sequence id, the same one; null arrays mean the single default sequence.
  predicate SingleSequence(r: Batch)
  {
    if r.nSeqId.None? then r.seqId.None?
    else
      && r.seqId.Some?
      && (forall i | 0 <= i < r.nTokens :: r.nSeqId.value[i] == 1 && r.seqId.value[i].Some?)
      && (forall i, j | 0 <= i < j < r.nTokens ::
            r.seqId.value[i].value[0] == r.seqId.value[j].value[0])
  }

  predicate IncreasingPositions(r: Batch) {
    r.pos.Some? ==>
      && (forall i | 0 <= i < r.nTokens :: 0 <= r.pos.value[i])
      && (forall i, j | 0 <= i < j < r.nTokens :: r.pos.value[i] < r.pos.value[j])
  }

  predicate Accepts(r: Batch, nUbatch: nat) {
    && 0 < r.nTokens <= nUbatch && r.token.Some?
    && SingleSequence(r) && IncreasingPositions(r)
    && r.RequestsOutput(r.nTokens - 1)
  }

  function ShapeOf(r: Batch, nUbatch: nat): Result<(nat, nat), CaptureError> {
    if Accepts(r, nUbatch) then Ok((r.nTokens, |r.Outputs()|)) else Err(UnsupportedBatch)
  }

  method BatchShape(r: Batch, nUbatch: nat) returns (shape: Result<(nat, nat), CaptureError>)
    ensures shape == ShapeOf(r, nUbatch)
  {
    var rows := r.nTokens;
    if rows <= 0 || rows > nUbatch || r.token.None? {
      return Err(UnsupportedBatch);
    }
    var sequence: Option<int> := None;
    var previousPos: Option<int> := None;
    var outputs := 0;
    for i := 0 to rows
      invariant outputs == |r.OutputsBelow(i)|
      invariant i > 0 ==> if r.nSeqId.None? then r.seqId.None? else r.seqId.Some?
      invariant r.nSeqId.Some? ==>
                  (forall k | 0 <= k < i :: r.nSeqId.value[k] == 1 && r.seqId.value[k].Some?
                                            && sequence == Some(r.seqId.value[k].value[0]))
      invariant i == 0 ==> sequence.None? && previousPos.None?
      invariant r.pos.Some? ==>
                  && (i > 0 ==> previousPos == Some(r.pos.value[i - 1]))
                  && (forall k | 0 <= k < i :: 0 <= r.pos.value[k])
                  && (forall j, k | 0 <= j < k < i :: r.pos.value[j] < r.pos.value[k])
      invariant r.pos.None? ==> previousPos.None?
      invariant i == rows ==> r.RequestsOutput(rows - 1)
    {
      if r.nSeqId.Some? {
        if r.nSeqId.value[i] != 1 || r.seqId.None? {
          return Err(UnsupportedBatch);
        }
        var ids := r.seqId.value[i];
        if ids.None? {
          return Err(UnsupportedBatch);
        }
        var id := ids.value[0];
        if sequence.Some? && sequence.value != id {
          assert r.seqId.value[0].value[0] != r.seqId.value[i].value[0];
          return Err(UnsupportedBatch);
        }
        sequence := Some(id);
      } else if r.seqId.Some? {
        return Err(UnsupportedBatch);
      }
      if r.pos.Some? {
        var pos := r.pos.value[i];
        if pos < 0 || (previousPos.Some? && previousPos.value >= pos) {
          return Err(UnsupportedBatch);
        }
        previousPos := Some(pos);
      }
      var output := if r.logits.None? then i == rows - 1 else r.logits.value[i] != 0;
      outputs := outputs + if output then 1 else 0;
      if i == rows - 1 && !output {
        return Err(UnsupportedBatch);
      }
    }
    shape := Ok((rows, outputs));
  }

  lemma {:induction false} OutputsBelowBound(r: Batch, n: nat)
    requires n <= r.nTokens
    ensures |r.OutputsBelow(n)| <= n
  {
    if n > 0 {
      OutputsBelowBound(r, n - 1);
    }
  }

  // An accepted batch has at least one requested output, and the last of them is its last token.
  lemma AcceptedLast(r: Batch, nUbatch: nat)
    requires Accepts(r, nUbatch)
    ensures 1 <= |r.Outputs()| <= r.nTokens
    ensures r.Outputs()[|r.Outputs()| - 1] == r.nTokens - 1
  {
    OutputsBelowBound(r, r.nTokens);
  }

  // The output count of a batch that flags all its tokens or only the last one.
  lemma {:induction false} FlaggedOutputs(r: Batch, all: bool, n: nat)
    requires n <= r.nTokens
    requires forall k | 0 <= k < r.nTokens :: r.RequestsOutput(k) <==> all || k == r.nTokens - 1
    ensures |r.OutputsBelow(n)| == if all then n else if 0 < n == r.nTokens then 1 else 0
  {
    if n > 0 {
      FlaggedOutputs(r, all, n - 1);
      assert r.RequestsOutput(n - 1) <==> all || n == r.nTokens;
    }
  }

  lemma OneSequenceAccepts(tokens: seq<int>, id: int, all: bool, nUbatch: nat)
    ensures Accepts(AppendSequence(EMPTY, tokens, id, all), nUbatch) <==> 0 < |tokens| <= nUbatch
  {
    var r := AppendSequence(EMPTY, tokens, id, all);
    assert r.nTokens == |tokens| && r.pos.value == Positions(|tokens|);
    assert r.logits.value == Flags(|tokens|, |tokens|, all);
    assert r.nSeqId.value == Repeat(1, |tokens|) && r.seqId.value == Repeat(Some([id]), |tokens|);
  }

  // Token `i` belongs to sequence `id` alone.
  predicate BelongsTo(r: Batch, i: nat, id: int)
    requires r.Exact() && i < r.nTokens
  {
    r.seqId.value[i] == Some([id])
  }

  predicate AllBelongTo(r: Batch, id: int)
    requires r.Exact()
  {
    forall i: nat | i < r.nTokens :: BelongsTo(r, i, id)
  }

  lemma {:induction false} AdjacentIncrease(pos: seq<int>, j: nat, k: nat)
    requires j < k < |pos| && forall i | 0 < i < |pos| :: pos[i - 1] < pos[i]
    ensures pos[j] < pos[k]
  {
    if j < k - 1 {
      AdjacentIncrease(pos, j, k - 1);
    }
  }

  // A batch that owns its arrays is accepted exactly when it is not empty, fits the microbatch, belongs to
  // one sequence, counts its positions upwards and asks for the output of its last token.
  lemma OwnedAcceptsExactly(r: Batch, nUbatch: nat)
    requires r.Exact()
    ensures Accepts(r, nUbatch) <==>
            && 0 < r.nTokens <= nUbatch
            && (exists id :: AllBelongTo(r, id))
            && (forall i | 0 <= i < r.nTokens :: 0 <= r.pos.value[i])
            && (forall i | 0 < i < r.nTokens :: r.pos.value[i - 1] < r.pos.value[i])
            && r.logits.value[r.nTokens - 1] != 0
  {
    if Accepts(r, nUbatch) {
      var id := r.seqId.value[0].value[0];
      forall i: nat | i < r.nTokens ensures BelongsTo(r, i, id) {
        assert r.seqId.value[i].value == [r.seqId.value[i].value[0]];
      }
      assert AllBelongTo(r, id);
    }
    if forall i | 0 < i < r.nTokens :: r.pos.value[i - 1] < r.pos.value[i] {
      forall j, k | 0 <= j < k < r.nTokens ensures r.pos.value[j] < r.pos.value[k] {
        AdjacentIncrease(r.pos.value, j, k);
      }
    }
    if id :| AllBelongTo(r, id) {
      forall i: nat | i < r.nTokens ensures r.seqId.value[i] == Some([id]) && r.nSeqId.value[i] == 1 {
        assert BelongsTo(r, i, id);
      }
    }
  }

  // Tokens of two sequences in one batch are rejected, and so is a token of several or of none.
  lemma MixedSequencesRejected(r: Batch, a: nat, idsA: seq<int>, b: nat, idsB: seq<int>, nUbatch: nat)
    requires r.Exact() && a < r.nTokens && b < r.nTokens
    requires r.seqId.value[a] == Some(idsA) && r.seqId.value[b] == Some(idsB)
    requires idsA != idsB || |idsA| != 1
    ensures ShapeOf(r, nUbatch) == Err(UnsupportedBatch)
  {
    OwnedAcceptsExactly(r, nUbatch);
    if id :| AllBelongTo(r, id) {
      assert BelongsTo(r, a, id) && BelongsTo(r, b, id);
    }
  }

  // In particular two additions under different sequence ids, whatever the batch held before.
  lemma TwoAdditionsRejected(r: Batch, t1: int, p1: int, id1: int, o1: bool, t2: int, p2: int, id2: int, o2: bool,
                             nUbatch: nat)
    requires r.Exact() && id1 != id2
    ensures ShapeOf(AppendToken(AppendToken(r, t1, p1, [id1], o1), t2, p2, [id2], o2), nUbatch)
            == Err(UnsupportedBatch)
  {
    var both := AppendToken(AppendToken(r, t1, p1, [id1], o1), t2, p2, [id2], o2);
    MixedSequencesRejected(both, r.nTokens, [id1], r.nTokens + 1, [id2], nUbatch);
  }

  // Sequence ids without counts, or counts without ids, are rejected.
  lemma HalfNullRejected(r: Batch, nUbatch: nat)
    requires r.nSeqId.Some? != r.seqId.Some? || r.token.None?
    ensures ShapeOf(r, nUbatch) == Err(UnsupportedBatch)
  {
  }

  // One laid-out sequence on an empty batch is accepted exactly when it is non-empty and fits the
  // microbatch, and its output count is 1 or its length.
  lemma OneSequenceAccepted(tokens: seq<int>, id: int, all: bool, nUbatch: nat)
    ensures ShapeOf(AppendSequence(EMPTY, tokens, id, all), nUbatch) ==
            if 0 < |tokens| <= nUbatch then Ok((|tokens|, if all then |tokens| else 1))
            else Err(UnsupportedBatch)
  {
    OneSequenceAccepts(tokens, id, all, nUbatch);
    FlaggedOutputs(AppendSequence(EMPTY, tokens, id, all), all, |tokens|);
  }

  // Two non-empty sequences in one batch are never accepted, whatever their ids: positions restart.
  lemma TwoSequencesRejected(first: seq<int>, id1: int, all1: bool,
                             second: seq<int>, id2: int, all2: bool, nUbatch: nat)
    requires first != [] && second != []
    ensures ShapeOf(AppendSequence(AppendSequence(EMPTY, first, id1, all1), second, id2, all2), nUbatch)
            == Err(UnsupportedBatch)
  {
    var r := AppendSequence(AppendSequence(EMPTY, first, id1, all1), second, id2, all2);
    assert r.pos.value[0] == 0 && r.pos.value[|first|] == 0;
  }

  // The borrowed single-sequence form, all of whose optional arrays are null, is accepted with one output.
  lemma BorrowedAccepted(tokens: seq<int>, nUbatch: nat)
    ensures ShapeOf(RawBatch(|tokens|, Some(tokens), false, None, None, None, None), nUbatch) ==
            if 0 < |tokens| <= nUbatch then Ok((|tokens|, 1)) else Err(UnsupportedBatch)
  {
    FlaggedOutputs(RawBatch(|tokens|, Some(tokens), false, None, None, None, None), false, |tokens|);
  }
}

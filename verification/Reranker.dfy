/** The reranker's greedy batching loop: prompts are packed into batches and outputs come back in order. */
module Reranker {
  import opened Wrappers
  import opened NativeBatch
  import opened LlamaBatches
  import opened LlamaContexts
  import opened Tensors

  const BATCH_TOKENS: nat := 2048

  type Embedding = seq<F32>

  datatype RerankError = AddFailed(add: BatchAddError) | DecodeFailed(code: int) | EmbeddingFailed(e: EmbeddingsError)

  // A prompt laid out as one sequence.
  function Placed(prompt: seq<int>): (s: seq<(int, int)>)
    ensures |s| == |prompt| && forall i | 0 <= i < |prompt| :: s[i] == (prompt[i], i)
  {
    seq(|prompt|, i requires 0 <= i < |prompt| => (prompt[i], i))
  }

  // The tokens and positions of one sequence of an owned batch.
  function Sequence(r: Batch, id: int): seq<(int, int)>
    requires r.Exact()
  {
    r.SequenceBelow(id, r.nTokens)
  }

  // The batch holds the given prompts under the sequence ids 0, 1, 2, ... and nothing else.
  ghost predicate Packs(r: Batch, packed: seq<seq<int>>) {
    r.Exact() &&
    forall id: nat {:trigger Sequence(r, id)} ::
      Sequence(r, id) == if id < |packed| then Placed(packed[id]) else []
  }

  lemma {:induction false} EarlierSequences(r: Batch, tokens: seq<int>, id: int, i: int, n: nat)
    requires r.Exact() && n <= r.nTokens
    ensures AppendSequence(r, tokens, id, false).SequenceBelow(i, n) == r.SequenceBelow(i, n)
  {
    if n > 0 {
      EarlierSequences(r, tokens, id, i, n - 1);
    }
  }

  lemma {:induction false} AppendedSequence(r: Batch, tokens: seq<int>, id: int, i: int, n: nat)
    requires r.Exact() && n <= |tokens|
    ensures AppendSequence(r, tokens, id, false).SequenceBelow(i, r.nTokens + n)
            == r.SequenceBelow(i, r.nTokens) + if i == id then Placed(tokens)[..n] else []
  {
    if n == 0 {
      EarlierSequences(r, tokens, id, i, r.nTokens);
    } else {
      AppendedSequence(r, tokens, id, i, n - 1);
      assert Placed(tokens)[..n] == Placed(tokens)[..n - 1] + [(tokens[n - 1], n - 1)];
      var r' := AppendSequence(r, tokens, id, false);
      assert r'.seqId.value[r.nTokens + n - 1] == Some([id]);
    }
  }

  lemma SequenceNext(r: Batch, packed: seq<seq<int>>, tokens: seq<int>, id: nat)
    requires Packs(r, packed)
    ensures Sequence(AppendSequence(r, tokens, |packed|, false), id) ==
            if id < |packed| then Placed(packed[id]) else if id == |packed| then Placed(tokens) else []
  {
    AppendedSequence(r, tokens, |packed|, id, |tokens|);
    assert Placed(tokens)[..|tokens|] == Placed(tokens);
    assert Sequence(r, id) == if id < |packed| then Placed(packed[id]) else [];
  }

  // Adding a prompt under the next id packs one more prompt.
  lemma PacksNext(r: Batch, packed: seq<seq<int>>, tokens: seq<int>)
    requires Packs(r, packed)
    ensures Packs(AppendSequence(r, tokens, |packed|, false), packed + [tokens])
  {
    var r', packed' := AppendSequence(r, tokens, |packed|, false), packed + [tokens];
    forall id: nat ensures Sequence(r', id) == if id < |packed'| then Placed(packed'[id]) else [] {
      SequenceNext(r, packed, tokens, id);
    }
  }

  // What native code pools for a sequence of an owned batch: a function of that sequence alone.
  function Pooled(pool: seq<(int, int)> -> Option<Embedding>): (Batch, int) -> Option<Embedding> {
    (b: Batch, i: int) => if b.Exact() then pool(Sequence(b, i)) else None
  }

  // The output of a prompt: its finished pooling.
  predicate Answered(e: Embedding, prompt: seq<int>, pool: seq<(int, int)> -> Option<Embedding>,
                     finish: Embedding -> Embedding) {
    pool(Placed(prompt)).Some? && e == finish(pool(Placed(prompt)).value)
  }

  // One output per prompt, in order.
  predicate Answers(output: seq<Embedding>, prompts: seq<seq<int>>,
                    pool: seq<(int, int)> -> Option<Embedding>, finish: Embedding -> Embedding) {
    && |output| == |prompts|
    && (prompts == [] ||
        var last := |prompts| - 1;
        Answers(output[..last], prompts[..last], pool, finish) && Answered(output[last], prompts[last], pool, finish))
  }

  lemma {:induction false} AnswersEach(output: seq<Embedding>, prompts: seq<seq<int>>,
                                       pool: seq<(int, int)> -> Option<Embedding>, finish: Embedding -> Embedding)
    requires Answers(output, prompts, pool, finish)
    ensures forall j | 0 <= j < |prompts| :: Answered(output[j], prompts[j], pool, finish)
    ensures forall p <- prompts :: pool(Placed(p)).Some?
  {
    if prompts != [] {
      AnswersEach(output[..|prompts| - 1], prompts[..|prompts| - 1], pool, finish);
    }
  }

  lemma {:induction false} AnswersConcat(output: seq<Embedding>, answered: seq<seq<int>>, more: seq<Embedding>,
                                         packed: seq<seq<int>>, pool: seq<(int, int)> -> Option<Embedding>,
                                         finish: Embedding -> Embedding)
    requires Answers(output, answered, pool, finish) && Answers(more, packed, pool, finish)
    ensures Answers(output + more, answered + packed, pool, finish)
  {
    if packed == [] {
      assert output + more == output && answered + packed == answered;
    } else {
      var last := |packed| - 1;
      AnswersConcat(output, answered, more[..last], packed[..last], pool, finish);
      assert (output + more)[..|output| + last] == output + more[..last];
      assert (answered + packed)[..|answered| + last] == answered + packed[..last];
    }
  }

  // The embedding of sequence `i` of the batch just decoded is the pooling of prompt `i`.
  lemma EmbeddingOfPrompt(ctx: LlamaContext, packed: seq<seq<int>>, i: nat,
                          pool: seq<(int, int)> -> Option<Embedding>)
    requires ctx.embeddingsEnabled && i < |packed|
    requires ctx.evaluated.Some? && Packs(ctx.evaluated.value, packed)
    ensures ctx.EmbeddingsSeqIth(i, Pooled(pool)) ==
            match pool(Placed(packed[i])) { case None => Err(NonePoolType) case Some(values) => Ok(values) }
  {
  }

  // The outputs of the sequences that were just decoded, in sequence order.
  method ReadEmbeddings(ctx: LlamaContext, sBatch: nat, pool: seq<(int, int)> -> Option<Embedding>,
                        finish: Embedding -> Embedding, ghost packed: seq<seq<int>>)
    returns (r: Result<seq<Embedding>, RerankError>)
    requires ctx.embeddingsEnabled && sBatch == |packed|
    requires ctx.evaluated.Some? && Packs(ctx.evaluated.value, packed)
    ensures r.Ok? ==> Answers(r.value, packed, pool, finish)
    ensures r.Ok? <==> forall p <- packed :: pool(Placed(p)).Some?
    ensures r.Err? ==> r.error.EmbeddingFailed?
  {
    var outputs: seq<Embedding> := [];
    for i := 0 to sBatch
      invariant Answers(outputs, packed[..i], pool, finish)
    {
      EmbeddingOfPrompt(ctx, packed, i, pool);
      var embeddings := ctx.EmbeddingsSeqIth(i, Pooled(pool));
      if embeddings.Err? {
        assert packed[i] in packed;
        return Err(EmbeddingFailed(embeddings.error));
      }
      outputs := outputs + [finish(embeddings.value)];
      assert outputs[..i] + [outputs[i]] == outputs && packed[..i + 1][..i] == packed[..i];
    }
    assert packed[..sBatch] == packed;
    AnswersEach(outputs, packed, pool, finish);
    r := Ok(outputs);
  }

  // How decoding `packed` fails: the native status, or else a prompt that pools to nothing.
  ghost predicate DecodeError(e: RerankError, code: int, packed: seq<seq<int>>,
                              pool: seq<(int, int)> -> Option<Embedding>) {
    if code != 0 then e == DecodeFailed(code)
    else e.EmbeddingFailed? && exists p <- packed :: pool(Placed(p)).None?
  }

  // The tokens waiting before prompt `n`, when each prompt goes into the open batch if it still fits.
  function Load(prompts: seq<seq<int>>, n: nat): nat
    requires n <= |prompts|
  {
    if n == 0 then 0
    else
      var next := |prompts[n - 1]|;
      if Load(prompts, n - 1) + next > BATCH_TOKENS then next else Load(prompts, n - 1) + next
  }

  // Prompt `j` does not fit behind those waiting.
  predicate FlushesBefore(prompts: seq<seq<int>>, j: nat)
    requires j < |prompts|
  {
    Load(prompts, j) + |prompts[j]| > BATCH_TOKENS
  }

  // The decodes that the first `n` prompts cause.
  function Flushes(prompts: seq<seq<int>>, n: nat): nat
    requires n <= |prompts|
  {
    if n == 0 then 0 else Flushes(prompts, n - 1) + if FlushesBefore(prompts, n - 1) then 1 else 0
  }

  lemma {:induction false} FlushesGrow(prompts: seq<seq<int>>, n: nat, m: nat)
    requires n <= m <= |prompts|
    ensures Flushes(prompts, n) <= Flushes(prompts, m)
  {
    if n < m {
      FlushesGrow(prompts, n, m - 1);
    }
  }

  // Since the last flush, or the start, the prompts stay in one batch exactly as long as they all fit it.
  lemma {:induction false} BatchHoldsWhatFits(prompts: seq<seq<int>>, m: nat, n: nat)
    requires m < n <= |prompts| && |prompts[m]| <= 2048 && (m == 0 || FlushesBefore(prompts, m))
    ensures Flushes(prompts, n) == Flushes(prompts, m + 1) <==> Tokens(prompts, n) - Tokens(prompts, m) <= 2048
    ensures Tokens(prompts, n) - Tokens(prompts, m) <= 2048 ==>
              Load(prompts, n) == Tokens(prompts, n) - Tokens(prompts, m)
  {
    if m + 1 < n {
      BatchHoldsWhatFits(prompts, m, n - 1);
      FlushesGrow(prompts, m + 1, n - 1);
    }
  }

  function Tokens(prompts: seq<seq<int>>, n: nat): nat
    requires n <= |prompts|
  {
    if n == 0 then 0 else Tokens(prompts, n - 1) + |prompts[n - 1]|
  }

  // The flushed batches are more than half full on average.
  lemma {:induction false} FewFlushes(prompts: seq<seq<int>>, n: nat)
    requires n <= |prompts|
    ensures BATCH_TOKENS * Flushes(prompts, n) + Load(prompts, n) <= 2 * Tokens(prompts, n)
  {
    if n > 0 {
      FewFlushes(prompts, n - 1);
    }
  }

  // Decodes the packed batch, never over its limit, and pushes its outputs behind those already there.
  method BatchDecode(ctx: LlamaContext, batch: LlamaBatch, sBatch: nat, output: seq<Embedding>, code: int,
                     pool: seq<(int, int)> -> Option<Embedding>, finish: Embedding -> Embedding,
                     ghost answered: seq<seq<int>>, ghost packed: seq<seq<int>>)
    returns (r: Result<seq<Embedding>, RerankError>)
    requires ctx.Valid() && batch.Valid() && batch.Owned() && batch.Repr !! ctx.Repr && ctx.embeddingsEnabled
    requires batch.nTokens <= BATCH_TOKENS
    requires Answers(output, answered, pool, finish) && Packs(batch.Raw(), packed) && sBatch == |packed|
    modifies ctx.Repr, batch
    ensures ctx.Valid() && batch.Valid() && batch.Owned()
    ensures r.Ok? ==> code == 0 && batch.Raw() == EMPTY && Answers(r.value, answered + packed, pool, finish)
    ensures r.Ok? ==> forall p <- packed :: pool(Placed(p)).Some?
    ensures r.Err? ==> DecodeError(r.error, code, packed, pool)
  {
    var decoded := ctx.Decode(batch, [], code);
    if decoded.Err? {
      return Err(DecodeFailed(decoded.error));
    }
    var outputs := ReadEmbeddings(ctx, sBatch, pool, finish, packed);
    if outputs.Err? {
      return Err(outputs.error);
    }
    AnswersConcat(output, answered, outputs.value, packed, pool, finish);
    r := Ok(output + outputs.value);
    batch.Clear();
  }

  // A prompt that can be answered: it fits a batch and pools to an embedding.
  predicate Answerable(prompt: seq<int>, pool: seq<(int, int)> -> Option<Embedding>) {
    |prompt| <= BATCH_TOKENS && pool(Placed(prompt)).Some?
  }

  // The context and the batch between two prompts, with `packed` waiting in the batch.
  ghost predicate Ready(ctx: LlamaContext, batch: LlamaBatch, packed: seq<seq<int>>)
    reads ctx, ctx.Repr, batch, batch.Repr
  {
    && ctx.Valid() && ctx.embeddingsEnabled && batch.Valid() && batch.Owned() && batch.Repr !! ctx.Repr
    && batch.capacity == BATCH_TOKENS && batch.seqId.Length1 == 1
    && Packs(batch.Raw(), packed)
  }

  // Flushes the batch if the next prompt would exceed it.
  method FlushIfFull(ctx: LlamaContext, batch: LlamaBatch, next: nat, sBatch: nat, output: seq<Embedding>, code: int,
                     pool: seq<(int, int)> -> Option<Embedding>, finish: Embedding -> Embedding,
                     ghost answered: seq<seq<int>>, ghost packed: seq<seq<int>>)
    returns (r: Result<seq<Embedding>, RerankError>, flushed: bool)
    requires Ready(ctx, batch, packed) && sBatch == |packed| && Answers(output, answered, pool, finish)
    modifies ctx.Repr, batch
    ensures flushed <==> old(batch.nTokens) + next > BATCH_TOKENS
    ensures r.Ok? ==> Ready(ctx, batch, if flushed then [] else packed)
    ensures r.Ok? ==> batch.nTokens == if flushed then 0 else old(batch.nTokens)
    ensures r.Ok? ==> Answers(r.value, if flushed then answered + packed else answered, pool, finish)
    ensures r.Ok? && flushed ==> code == 0
    ensures r.Err? ==> flushed && DecodeError(r.error, code, packed, pool)
  {
    flushed := batch.nTokens + next > BATCH_TOKENS;
    r := Ok(output);
    if flushed {
      r := BatchDecode(ctx, batch, sBatch, output, code, pool, finish, answered, packed);
      batch.Clear();
    }
  }

  method AddNext(ctx: LlamaContext, batch: LlamaBatch, tokens: seq<int>, id: nat, ghost packed: seq<seq<int>>)
    returns (added: Result<(), BatchAddError>)
    requires Ready(ctx, batch, packed) && id == |packed|
    modifies batch.Repr
    ensures added.Ok? ==> Ready(ctx, batch, packed + [tokens]) && |tokens| <= BATCH_TOKENS
    ensures added.Ok? ==> batch.nTokens == old(batch.nTokens) + |tokens|
    ensures added.Ok? <==> old(batch.nTokens) + |tokens| <= BATCH_TOKENS
  {
    PacksNext(batch.Raw(), packed, tokens);
    added := batch.AddSequence(tokens, id, false);
  }

  // The loop before prompt `j`: the outputs answer the first prompts, and the batch holds the rest up to `j`.
  ghost predicate Progress(ctx: LlamaContext, batch: LlamaBatch, prompts: seq<seq<int>>, j: nat, sBatch: nat,
                           output: seq<Embedding>, pool: seq<(int, int)> -> Option<Embedding>,
                           finish: Embedding -> Embedding)
    reads ctx, ctx.Repr, batch, batch.Repr
  {
    && |output| + sBatch == j <= |prompts|
    && Answers(output, prompts[..|output|], pool, finish)
    && Ready(ctx, batch, prompts[|output|..j])
    && Fits(prompts, j) && batch.nTokens == Load(prompts, j)
  }

  // Flushes the batch if prompt `j` would exceed it.
  method FlushBefore(ctx: LlamaContext, batch: LlamaBatch, prompts: seq<seq<int>>, j: nat, sBatch: nat,
                     output: seq<Embedding>, code: int, pool: seq<(int, int)> -> Option<Embedding>,
                     finish: Embedding -> Embedding)
    returns (r: Result<seq<Embedding>, RerankError>, sBatch': nat, flushed: bool)
    requires j < |prompts| && Progress(ctx, batch, prompts, j, sBatch, output, pool, finish)
    modifies ctx.Repr, batch
    ensures flushed <==> FlushesBefore(prompts, j)
    ensures r.Ok? ==> |r.value| + sBatch' == j && Answers(r.value, prompts[..|r.value|], pool, finish)
    ensures r.Ok? ==> Ready(ctx, batch, prompts[|r.value|..j])
    ensures r.Ok? ==> batch.nTokens == if flushed then 0 else Load(prompts, j)
    ensures r.Ok? && flushed ==> code == 0
    ensures r.Err? ==> flushed && DecodeError(r.error, code, prompts, pool)
  {
    ghost var n := |output|;
    Slices(prompts, n, j);
    r, flushed := FlushIfFull(ctx, batch, |prompts[j]|, sBatch, output, code, pool, finish, prompts[..n], prompts[n..j]);
    sBatch' := if flushed then 0 else sBatch;
    if r.Err? {
      PackedFails(r.error, code, prompts, n, j, pool);
    } else if flushed {
      AnswersLength(r.value, prompts[..j], pool, finish);
      assert prompts[j..j] == [];
    }
  }

  lemma AnswersLength(output: seq<Embedding>, prompts: seq<seq<int>>, pool: seq<(int, int)> -> Option<Embedding>,
                      finish: Embedding -> Embedding)
    requires Answers(output, prompts, pool, finish)
    ensures |output| == |prompts|
  {
  }

  // One round of the loop: flush if needed, then add prompt `j`.
  method PackNext(ctx: LlamaContext, batch: LlamaBatch, prompts: seq<seq<int>>, j: nat, sBatch: nat,
                  output: seq<Embedding>, code: int, pool: seq<(int, int)> -> Option<Embedding>,
                  finish: Embedding -> Embedding)
    returns (r: Result<seq<Embedding>, RerankError>, sBatch': nat, flushed: bool)
    requires j < |prompts| && Progress(ctx, batch, prompts, j, sBatch, output, pool, finish)
    modifies ctx.Repr, batch.Repr
    ensures r.Ok? ==> Progress(ctx, batch, prompts, j + 1, sBatch', r.value, pool, finish)
    ensures flushed <==> FlushesBefore(prompts, j)
    ensures r.Ok? || r.error.AddFailed? ==> flushed ==> code == 0
    ensures r.Err? ==> if r.error.AddFailed? then |prompts[j]| > BATCH_TOKENS
                       else flushed && DecodeError(r.error, code, prompts, pool)
  {
    hide Answers;
    r, sBatch', flushed := FlushBefore(ctx, batch, prompts, j, sBatch, output, code, pool, finish);
    if r.Err? {
      return;
    }
    Slices(prompts, |r.value|, j);
    var added := AddNext(ctx, batch, prompts[j], sBatch', prompts[|r.value|..j]);
    if added.Err? {
      r := Err(AddFailed(added.error));
      return;
    }
    sBatch' := sBatch' + 1;
  }

  lemma PackedFails(e: RerankError, code: int, prompts: seq<seq<int>>, n: nat, j: nat,
                    pool: seq<(int, int)> -> Option<Embedding>)
    requires n <= j <= |prompts| && DecodeError(e, code, prompts[n..j], pool)
    ensures DecodeError(e, code, prompts, pool)
  {
    assert forall p <- prompts[n..j] :: p in prompts;
  }

  lemma Slices(prompts: seq<seq<int>>, n: nat, j: nat)
    requires n <= j < |prompts|
    ensures prompts[..n] + prompts[n..j] == prompts[..j]
    ensures prompts[n..j] + [prompts[j]] == prompts[n..j + 1]
    ensures [] + [prompts[j]] == prompts[j..j + 1]
  {
  }

  // The first `n` prompts each fit a batch.
  predicate Fits(prompts: seq<seq<int>>, n: nat)
    requires n <= |prompts|
  {
    n == 0 || (Fits(prompts, n - 1) && |prompts[n - 1]| <= BATCH_TOKENS)
  }

  lemma {:induction false} FitsEach(prompts: seq<seq<int>>, n: nat)
    requires n <= |prompts| && Fits(prompts, n)
    ensures forall i | 0 <= i < n :: |prompts[i]| <= BATCH_TOKENS
  {
    if n > 0 {
      FitsEach(prompts, n - 1);
    }
  }

  // The first `n` decodes succeeded.
  predicate ZeroCodes(codes: nat -> int, n: nat) {
    n == 0 || (ZeroCodes(codes, n - 1) && codes(n - 1) == 0)
  }

  lemma {:induction false} ZeroEach(codes: nat -> int, n: nat)
    requires ZeroCodes(codes, n)
    ensures forall k: nat | k < n :: codes(k) == 0
  {
    if n > 0 {
      ZeroEach(codes, n - 1);
    }
  }

  // Prompt `j` is the first that is too long for any batch, and `decodes` counts the flushes up to it.
  predicate FirstTooLong(prompts: seq<seq<int>>, j: nat, decodes: nat) {
    j < |prompts| && Fits(prompts, j) && |prompts[j]| > BATCH_TOKENS && decodes == Flushes(prompts, j + 1)
  }

  // Why a run of `decodes` decodes failed: a prompt too long for any batch, the status of the last decode,
  // or a prompt that pools to nothing.
  ghost predicate Explains(e: RerankError, prompts: seq<seq<int>>, codes: nat -> int, decodes: nat,
                           pool: seq<(int, int)> -> Option<Embedding>) {
    match e
    case AddFailed(_) => ZeroCodes(codes, decodes) && exists j :: FirstTooLong(prompts, j, decodes)
    case DecodeFailed(code) =>
      0 < decodes && ZeroCodes(codes, decodes - 1) && code == codes(decodes - 1) && code != 0
    case EmbeddingFailed(_) => ZeroCodes(codes, decodes) && exists p <- prompts :: pool(Placed(p)).None?
  }

  lemma TooLongExplained(e: RerankError, prompts: seq<seq<int>>, j: nat, codes: nat -> int, decodes: nat,
                         pool: seq<(int, int)> -> Option<Embedding>)
    requires e.AddFailed? && FirstTooLong(prompts, j, decodes) && ZeroCodes(codes, decodes)
    ensures Explains(e, prompts, codes, decodes, pool)
  {
  }

  lemma DecodeErrorExplained(e: RerankError, prompts: seq<seq<int>>, codes: nat -> int, k: nat,
                             pool: seq<(int, int)> -> Option<Embedding>)
    requires ZeroCodes(codes, k) && DecodeError(e, codes(k), prompts, pool)
    ensures Explains(e, prompts, codes, k + 1, pool)
  {
  }

  method FinalDecode(ctx: LlamaContext, batch: LlamaBatch, prompts: seq<seq<int>>, sBatch: nat,
                     output: seq<Embedding>, code: int, pool: seq<(int, int)> -> Option<Embedding>,
                     finish: Embedding -> Embedding)
    returns (r: Result<seq<Embedding>, RerankError>)
    requires Progress(ctx, batch, prompts, |prompts|, sBatch, output, pool, finish)
    modifies ctx.Repr, batch.Repr
    ensures r.Ok? ==> code == 0 && Answers(r.value, prompts, pool, finish)
    ensures r.Err? ==> DecodeError(r.error, code, prompts, pool)
  {
    ghost var n := |output|;
    assert prompts[..n] + prompts[n..|prompts|] == prompts;
    r := BatchDecode(ctx, batch, sBatch, output, code, pool, finish, prompts[..n], prompts[n..|prompts|]);
    if r.Err? {
      PackedFails(r.error, code, prompts, n, |prompts|, pool);
    }
  }

  // The loop and the final decode. `codes(k)` is the native status of the k-th decode, and `decodes` the
  // number of decodes performed.
  method PackAll(ctx: LlamaContext, batch: LlamaBatch, prompts: seq<seq<int>>, codes: nat -> int,
                 pool: seq<(int, int)> -> Option<Embedding>, finish: Embedding -> Embedding)
    returns (r: Result<seq<Embedding>, RerankError>, decodes: nat)
    requires Progress(ctx, batch, prompts, 0, 0, [], pool, finish)
    modifies ctx.Repr, batch.Repr
    ensures r.Ok? ==> Answers(r.value, prompts, pool, finish) && Fits(prompts, |prompts|) && ZeroCodes(codes, decodes)
    ensures if r.Ok? then decodes == Flushes(prompts, |prompts|) + 1 else decodes <= Flushes(prompts, |prompts|) + 1
    ensures r.Err? ==> Explains(r.error, prompts, codes, decodes, pool)
  {
    hide Ready, Answers;
    var maxSeqIdBatch := 0;
    var output: seq<Embedding> := [];
    decodes := 0;
    for j := 0 to |prompts|
      invariant Progress(ctx, batch, prompts, j, maxSeqIdBatch, output, pool, finish)
      invariant ZeroCodes(codes, decodes) && decodes == Flushes(prompts, j)
    {
      var flushed;
      ghost var k := decodes;
      r, maxSeqIdBatch, flushed := PackNext(ctx, batch, prompts, j, maxSeqIdBatch, output, codes(decodes), pool, finish);
      decodes := if flushed then decodes + 1 else decodes;
      FlushesGrow(prompts, j + 1, |prompts|);
      if r.Err? {
        if r.error.AddFailed? {
          TooLongExplained(r.error, prompts, j, codes, decodes, pool);
        } else {
          DecodeErrorExplained(r.error, prompts, codes, k, pool);
        }
        return;
      }
      output := r.value;
    }
    r := FinalDecode(ctx, batch, prompts, maxSeqIdBatch, output, codes(decodes), pool, finish);
    if r.Err? {
      DecodeErrorExplained(r.error, prompts, codes, decodes, pool);
    }
    decodes := decodes + 1;
  }

  lemma AllAnswerable(prompts: seq<seq<int>>, output: seq<Embedding>,
                      pool: seq<(int, int)> -> Option<Embedding>, finish: Embedding -> Embedding)
    requires Fits(prompts, |prompts|) && Answers(output, prompts, pool, finish)
    ensures forall j | 0 <= j < |prompts| :: Answered(output[j], prompts[j], pool, finish)
    ensures forall p <- prompts :: Answerable(p, pool)
  {
    FitsEach(prompts, |prompts|);
    AnswersEach(output, prompts, pool, finish);
  }

  lemma Unanswerable(e: RerankError, prompts: seq<seq<int>>, codes: nat -> int, decodes: nat,
                     pool: seq<(int, int)> -> Option<Embedding>)
    requires Explains(e, prompts, codes, decodes, pool)
    ensures (exists p <- prompts :: !Answerable(p, pool)) || exists k: nat | k < decodes :: codes(k) != 0
  {
    match e {
      case DecodeFailed(code) =>
        assert codes(decodes - 1) != 0;
      case AddFailed(_) =>
        var j: nat :| FirstTooLong(prompts, j, decodes);
        assert prompts[j] in prompts && !Answerable(prompts[j], pool);
      case EmbeddingFailed(_) =>
        var p :| p in prompts && pool(Placed(p)).None?;
        assert !Answerable(p, pool);
    }
  }

  // The whole run succeeds exactly when every prompt can be answered and every decode that the packing
  // needs has status zero.
  method Rerank(ctx: LlamaContext, prompts: seq<seq<int>>, codes: nat -> int,
                pool: seq<(int, int)> -> Option<Embedding>, finish: Embedding -> Embedding)
    returns (r: Result<seq<Embedding>, RerankError>, decodes: nat)
    requires ctx.Valid() && ctx.embeddingsEnabled
    modifies ctx.Repr
    ensures r.Ok? <==>
            && (forall p <- prompts :: Answerable(p, pool))
            && forall k: nat | k <= Flushes(prompts, |prompts|) :: codes(k) == 0
    ensures if r.Ok? then decodes == Flushes(prompts, |prompts|) + 1 else decodes <= Flushes(prompts, |prompts|) + 1
    ensures r.Ok? ==> |r.value| == |prompts|
    ensures r.Ok? ==> forall j | 0 <= j < |prompts| :: Answered(r.value[j], prompts[j], pool, finish)
    ensures r.Err? ==> Explains(r.error, prompts, codes, decodes, pool)
  {
    var batch := new LlamaBatch.New(BATCH_TOKENS, 1);
    assert prompts[0..0] == [] && prompts[..0] == [];
    r, decodes := PackAll(ctx, batch, prompts, codes, pool, finish);
    if r.Ok? {
      AllAnswerable(prompts, r.value, pool, finish);
      ZeroEach(codes, decodes);
    } else {
      Unanswerable(r.error, prompts, codes, decodes, pool);
    }
  }
}

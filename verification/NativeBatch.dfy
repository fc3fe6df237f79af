/**
 The `llama_batch` struct as native code and the validators see it: a token count and
 nullable parallel arrays.
 */
module NativeBatch {
  import opened Wrappers

  datatype RawBatch = RawBatch(
    nTokens: int,
    token: Option<seq<int>>,
    embd: bool,                              // whether the embedding pointer is set
    pos: Option<seq<int>>,
    nSeqId: Option<seq<int>>,
    seqId: Option<seq<Option<seq<int>>>>,    // one nullable row per token
    logits: Option<seq<int>>)
  {
    // Every array that is present is initialized for the whole token count.
    predicate Covered() {
      && (token.Some? ==> nTokens <= |token.value|)
      && (pos.Some? ==> nTokens <= |pos.value|)
      && (nSeqId.Some? ==> nTokens <= |nSeqId.value|)
      && (seqId.Some? ==> nTokens <= |seqId.value|)
      && (logits.Some? ==> nTokens <= |logits.value|)
      && (nSeqId.Some? && seqId.Some? ==>
            forall i | 0 <= i < nTokens ::
              seqId.value[i].Some? ==> nSeqId.value[i] <= |seqId.value[i].value|)
    }

    // A null `logits` array means that only the last token requests output.
    predicate RequestsOutput(i: nat)
      requires Covered() && i < nTokens
    {
      if logits.None? then i == nTokens - 1 else logits.value[i] != 0
    }

    // The positions of the tokens below `n` that request output, in order.
    function OutputsBelow(n: nat): (outputs: seq<int>)
      requires Covered() && n <= nTokens
    {
      if n == 0 then []
      else OutputsBelow(n - 1) + (if RequestsOutput(n - 1) then [n - 1] else [])
    }

    function Outputs(): seq<int>
      requires Covered()
    {
      if nTokens < 0 then [] else OutputsBelow(nTokens)
    }

    // The tokens and positions that belong to sequence `id`, in batch order.
    function SequenceBelow(id: int, n: nat): seq<(int, int)>
      requires Covered() && Complete() && n <= nTokens
    {
      if n == 0 then []
      else SequenceBelow(id, n - 1) +
           (if id in seqId.value[n - 1].value then [(token.value[n - 1], pos.value[n - 1])] else [])
    }

    // Every array is present, as in a batch that owns its storage.
    predicate Complete() {
      && token.Some? && pos.Some? && nSeqId.Some? && seqId.Some? && logits.Some?
      && (forall i | 0 <= i < |seqId.value| :: seqId.value[i].Some?)
    }

    // Complete, and with exactly one cell per token.
    predicate Exact() {
      && Complete() && Covered() && 0 <= nTokens
      && |token.value| == |pos.value| == |nSeqId.value| == |seqId.value| == |logits.value| == nTokens
      && forall i | 0 <= i < nTokens :: nSeqId.value[i] == |seqId.value[i].value|
    }
  }

  type Batch = r: RawBatch | r.Covered()
    witness RawBatch(0, None, false, None, None, None, None)

  const EMPTY: Batch := RawBatch(0, Some([]), false, Some([]), Some([]), Some([]), Some([]))

  /** The batch after writing one more token. */
  function AppendToken(r: Batch, id: int, pos: int, seqIds: seq<int>, output: bool): (r': Batch)
    requires r.Exact()
    ensures r'.Exact()
  {
    RawBatch(r.nTokens + 1, Some(r.token.value + [id]), r.embd, Some(r.pos.value + [pos]),
             Some(r.nSeqId.value + [|seqIds|]), Some(r.seqId.value + [Some(seqIds)]),
             Some(r.logits.value + [if output then 1 else 0]))
  }

  function Positions(n: nat): (s: seq<int>)
    ensures |s| == n && forall i | 0 <= i < n :: s[i] == i
  {
    seq(n, i => i)
  }

  function Repeat<T>(x: T, n: nat): (s: seq<T>)
    ensures |s| == n && forall i | 0 <= i < n :: s[i] == x
  {
    seq(n, _ => x)
  }

  // The first `n` output flags of a sequence of `len` tokens.
  function Flags(n: nat, len: nat, all: bool): (s: seq<int>)
    ensures |s| == n && forall i | 0 <= i < n :: s[i] == if all || i == len - 1 then 1 else 0
  {
    seq(n, i => if all || i == len - 1 then 1 else 0)
  }

  /** The batch after laying out a whole sequence: positions from 0, output for the last token or for all. */
  function AppendSequence(r: Batch, tokens: seq<int>, id: int, all: bool): (r': Batch)
    requires r.Exact()
    ensures r'.Exact()
  {
    var n := |tokens|;
    RawBatch(r.nTokens + n, Some(r.token.value + tokens), r.embd,
             Some(r.pos.value + Positions(n)),
             Some(r.nSeqId.value + Repeat(1, n)),
             Some(r.seqId.value + Repeat(Some([id]), n)),
             Some(r.logits.value + Flags(n, n, all)))
  }

  /** The output index is strictly increasing and lists exactly the tokens that request output. */
  lemma {:induction false} OutputsBelowExact(r: Batch, n: nat)
    requires n <= r.nTokens
    ensures forall i, j | 0 <= i < j < |r.OutputsBelow(n)| :: r.OutputsBelow(n)[i] < r.OutputsBelow(n)[j]
    ensures forall k :: k in r.OutputsBelow(n) <==> 0 <= k < n && r.RequestsOutput(k)
  {
    if n > 0 {
      OutputsBelowExact(r, n - 1);
      var before := r.OutputsBelow(n - 1);
      forall i | 0 <= i < |before| ensures before[i] < n - 1 {
        assert before[i] in before;
      }
    }
  }

  lemma {:induction false} OutputsBelowExtends(r: Batch, r': Batch, n: nat)
    requires r.Exact() && r'.Exact() && n <= r.nTokens <= r'.nTokens
    requires r'.logits.value[..r.nTokens] == r.logits.value
    ensures r'.OutputsBelow(n) == r.OutputsBelow(n)
  {
    if n > 0 {
      OutputsBelowExtends(r, r', n - 1);
      assert r'.logits.value[..r.nTokens][n - 1] == r.logits.value[n - 1];
    }
  }
}

/** The safe wrapper around `llama_batch`: a token buffer with a side index of requested outputs. */
module LlamaBatches {
  import opened Wrappers
  import opened NativeBatch

  // `CountOverflow` stands for the source's panic on a token count that does not fit.
  datatype BatchAddError = InsufficientSpace(capacity: nat) | EmptyBuffer | CountOverflow

  class LlamaBatch {
    const capacity: nat
    var initializedLogits: seq<int>
    // The native struct: the count and its arrays, null where the borrowed form has none.
    var nTokens: int
    const token: array<int>
    const pos: array?<int>
    const nSeqId: array?<int>
    const seqId: array2?<int>
    const logits: array?<int>

    ghost const Repr: set<object>

    ghost predicate Owned()
      reads this, Repr
    {
      && pos != null && nSeqId != null && seqId != null && logits != null
      && Repr == {this, token, pos, nSeqId, seqId, logits}
      && token.Length == pos.Length == nSeqId.Length == logits.Length == seqId.Length0 == capacity
      && token != pos && token != nSeqId && token != logits
      && pos != nSeqId && pos != logits && nSeqId != logits
      && nTokens <= capacity <= I32_MAX
      && forall i | 0 <= i < nTokens :: 0 <= nSeqId[i] <= seqId.Length1
    }

    ghost predicate Borrowed()
      reads this
    {
      && pos == null && nSeqId == null && seqId == null && logits == null
      && Repr == {this, token}
      && capacity == 0
      && nTokens <= token.Length && nTokens <= I32_MAX
    }

    ghost predicate Shaped()
      reads this, Repr
    {
      0 <= nTokens && (Owned() || Borrowed())
    }

    // What native code reads through the struct.
    function Raw(): (r: Batch)
      requires Shaped()
      reads this, Repr
      ensures r.nTokens == nTokens
      ensures Owned() ==> r.Exact()
    {
      if pos == null then
        RawBatch(nTokens, Some(token[..nTokens]), false, None, None, None, None)
      else
        RawBatch(nTokens, Some(token[..nTokens]), false, Some(pos[..nTokens]), Some(nSeqId[..nTokens]),
                 Some(Rows()), Some(logits[..nTokens]))
    }

    function Row(i: nat): (row: seq<int>)
      requires Shaped() && Owned() && i < nTokens
      reads this, Repr
      ensures |row| == nSeqId[i]
    {
      seq(nSeqId[i], k requires 0 <= k < nSeqId[i] <= seqId.Length1 && i < seqId.Length0 reads this, Repr
          => seqId[i, k])
    }

    function Rows(): (rows: seq<Option<seq<int>>>)
      requires Shaped() && Owned()
      reads this, Repr
      ensures |rows| == nTokens
      ensures forall i | 0 <= i < nTokens :: rows[i] == Some(Row(i))
    {
      seq(nTokens, i requires 0 <= i < nTokens && Shaped() && Owned() reads this, Repr => Some(Row(i)))
    }

    // The side index agrees with the per-token output flags.
    ghost predicate Valid()
      reads this, Repr
    {
      Shaped() && initializedLogits == Raw().Outputs()
    }

    constructor New(nTokensMax: nat, nSeqMax: nat)
      requires nTokensMax <= I32_MAX
      ensures Valid() && Owned() && fresh(Repr)
      ensures capacity == nTokensMax && seqId.Length1 == nSeqMax
      ensures Raw() == EMPTY
    {
      capacity := nTokensMax;
      initializedLogits := [];
      nTokens := 0;
      var t, p, n, l := new int[nTokensMax], new int[nTokensMax], new int[nTokensMax], new int[nTokensMax];
      var s := new int[nTokensMax, nSeqMax];
      token, pos, nSeqId, seqId, logits := t, p, n, s, l;
      Repr := {this, t, p, n, s, l};
    }

    constructor Borrow(tokens: array<int>)
      requires 0 < tokens.Length <= I32_MAX
      ensures Valid() && Borrowed() && fresh(Repr - {tokens})
      ensures Raw() == RawBatch(tokens.Length, Some(tokens[..]), false, None, None, None, None)
    {
      capacity := 0;
      initializedLogits := [tokens.Length - 1];
      nTokens := tokens.Length;
      token, pos, nSeqId, seqId, logits := tokens, null, null, null, null;
      Repr := {this, tokens};
      new;
      LastOnly(Raw(), tokens.Length - 1);
      assert token[..nTokens] == tokens[..];
    }

    // The single-sequence form over a borrowed token buffer.
    static method GetOne(tokens: array<int>) returns (r: Result<LlamaBatch, BatchAddError>)
      ensures r == Err(EmptyBuffer) <==> tokens.Length == 0
      ensures r == Err(CountOverflow) <==> tokens.Length > I32_MAX
      ensures r.Err? ==> tokens.Length == 0 || tokens.Length > I32_MAX
      ensures r.Ok? ==> r.value.Valid() && r.value.Borrowed() && fresh(r.value.Repr - {tokens})
      ensures r.Ok? ==>
                r.value.Raw() == RawBatch(tokens.Length, Some(tokens[..]), false, None, None, None, None)
    {
      if tokens.Length == 0 {
        return Err(EmptyBuffer);
      }
      if tokens.Length > I32_MAX {
        return Err(CountOverflow);
      }
      var batch := new LlamaBatch.Borrow(tokens);
      r := Ok(batch);
    }

    method Clear()
      requires Valid()
      modifies this
      ensures Valid() && Raw().nTokens == 0
      ensures Owned() == old(Owned())
      ensures Owned() ==> Raw() == EMPTY
    {
      nTokens := 0;
      initializedLogits := [];
    }

    method Add(id: int, p: int, seqIds: seq<int>, output: bool) returns (r: Result<(), BatchAddError>)
      requires Valid()
      requires Owned() && nTokens < capacity ==> |seqIds| <= seqId.Length1
      modifies Repr
      ensures Valid() && Owned() == old(Owned())
      ensures r.Ok? <==> old(nTokens) < capacity
      ensures r.Ok? ==> Owned() && Raw() == AppendToken(old(Raw()), id, p, seqIds, output)
      ensures r.Err? ==> r.error == if old(nTokens) == I32_MAX then CountOverflow else InsufficientSpace(capacity)
      ensures r.Err? ==> Raw() == old(Raw()) && initializedLogits == old(initializedLogits)
    {
      if nTokens == I32_MAX {
        return Err(CountOverflow);
      }
      if capacity < nTokens + 1 {
        return Err(InsufficientSpace(capacity));
      }
      ghost var before := Raw();
      var offset := nTokens;
      token[offset] := id;
      pos[offset] := p;
      nSeqId[offset] := |seqIds|;
      WriteRow(offset, seqIds);
      logits[offset] := if output then 1 else 0;
      if output {
        initializedLogits := initializedLogits + [offset];
      } else {
        initializedLogits := Without(offset, initializedLogits);
      }
      nTokens := nTokens + 1;

      AppendedRaw(before, id, p, seqIds, output);
      OutputsAfterAppend(before, id, p, seqIds, output);
      RetainsAll(offset, old(initializedLogits));
      r := Ok(());
    }

    method WriteRow(offset: nat, ids: seq<int>)
      requires seqId != null && offset < seqId.Length0 && |ids| <= seqId.Length1
      modifies seqId
      ensures forall k | 0 <= k < |ids| :: seqId[offset, k] == ids[k]
      ensures forall j, k | 0 <= j < seqId.Length0 && j != offset && 0 <= k < seqId.Length1 ::
                seqId[j, k] == old(seqId[j, k])
    {
      for i := 0 to |ids|
        invariant forall k | 0 <= k < i :: seqId[offset, k] == ids[k]
        invariant forall j, k | 0 <= j < seqId.Length0 && j != offset && 0 <= k < seqId.Length1 ::
                    seqId[j, k] == old(seqId[j, k])
      {
        seqId[offset, i] := ids[i];
      }
    }

    // One more written cell in each array is one more token in the struct.
    lemma AppendedRaw(before: Batch, id: int, p: int, ids: seq<int>, output: bool)
      requires before.Exact() && !before.embd && nTokens == before.nTokens + 1
      requires Shaped() && Owned()
      requires token[..before.nTokens] == before.token.value && token[before.nTokens] == id
      requires pos[..before.nTokens] == before.pos.value && pos[before.nTokens] == p
      requires nSeqId[..before.nTokens] == before.nSeqId.value && nSeqId[before.nTokens] == |ids|
      requires logits[..before.nTokens] == before.logits.value
      requires logits[before.nTokens] == if output then 1 else 0
      requires forall i, k | 0 <= i < before.nTokens && 0 <= k < nSeqId[i] ::
                 seqId[i, k] == before.seqId.value[i].value[k]
      requires forall k | 0 <= k < |ids| :: seqId[before.nTokens, k] == ids[k]
      ensures Raw() == AppendToken(before, id, p, ids, output)
    {
      var n := before.nTokens;
      assert Row(n) == ids;
      forall i | 0 <= i < n ensures Rows()[i] == before.seqId.value[i] {
        assert nSeqId[i] == nSeqId[..n][i];
        assert Row(i) == before.seqId.value[i].value;
      }
      assert Rows() == before.seqId.value + [Some(ids)];
      assert token[..n + 1] == token[..n] + [token[n]];
      assert pos[..n + 1] == pos[..n] + [pos[n]];
      assert nSeqId[..n + 1] == nSeqId[..n] + [nSeqId[n]];
      assert logits[..n + 1] == logits[..n] + [logits[n]];
    }

    method AddSequence(tokens: seq<int>, id: int, all: bool) returns (r: Result<(), BatchAddError>)
      requires Valid()
      requires Owned() && tokens != [] && nTokens + |tokens| <= capacity ==> 0 < seqId.Length1
      modifies Repr
      ensures Valid() && Owned() == old(Owned())
      ensures r.Ok? <==> old(nTokens) + |tokens| <= capacity
      ensures r.Ok? ==> Raw() == if Owned() then AppendSequence(old(Raw()), tokens, id, all) else old(Raw())
      ensures r.Err? ==> r.error == InsufficientSpace(capacity)
      ensures r.Err? ==> Raw() == old(Raw()) && initializedLogits == old(initializedLogits)
    {
      if capacity < nTokens + |tokens| {
        return Err(InsufficientSpace(capacity));
      }
      ghost var before := Raw();
      for i := 0 to |tokens|
        invariant Valid() && Owned() == old(Owned())
        invariant nTokens == old(nTokens) + i
        invariant Raw() == if Owned() then AppendPrefix(before, tokens, id, all, i) else before
      {
        AddNth(tokens, id, all, i, before);
      }
      if Owned() {
        AppendPrefixDone(before, tokens, id, all);
      }
      r := Ok(());
    }

    // Token `i` of a sequence that is being laid out behind `before`.
    method AddNth(tokens: seq<int>, id: int, all: bool, i: nat, ghost before: Batch)
      requires Valid() && Owned() && i < |tokens| && nTokens < capacity && 0 < seqId.Length1
      requires before.Exact() && Raw() == AppendPrefix(before, tokens, id, all, i)
      modifies Repr
      ensures Valid() && Owned() && nTokens == old(nTokens) + 1
      ensures Raw() == AppendPrefix(before, tokens, id, all, i + 1)
    {
      var lastIndex := |tokens| - 1;
      var _ := Add(tokens[i], i, [id], all || i == lastIndex);
    }
  }

  // `retain(|l| l != x)`
  function Without(x: int, s: seq<int>): seq<int> {
    if s == [] then []
    else (if s[0] != x then [s[0]] else []) + Without(x, s[1..])
  }

  // The first `k` tokens of `AppendSequence`.
  ghost function AppendPrefix(r: Batch, tokens: seq<int>, id: int, all: bool, k: nat): (r': Batch)
    requires r.Exact() && k <= |tokens|
    ensures r'.Exact() && r'.nTokens == r.nTokens + k
    decreases k
  {
    if k == 0 then r
    else AppendToken(AppendPrefix(r, tokens, id, all, k - 1), tokens[k - 1], k - 1, [id],
                     all || k == |tokens|)
  }

  lemma {:induction false} AppendPrefixIs(r: Batch, tokens: seq<int>, id: int, all: bool, k: nat)
    requires r.Exact() && k <= |tokens|
    ensures AppendPrefix(r, tokens, id, all, k) ==
            RawBatch(r.nTokens + k, Some(r.token.value + tokens[..k]), r.embd,
                     Some(r.pos.value + Positions(k)),
                     Some(r.nSeqId.value + Repeat(1, k)),
                     Some(r.seqId.value + Repeat(Some([id]), k)),
                     Some(r.logits.value + Flags(k, |tokens|, all)))
  {
    if k == 0 {
      assert r.token.value + tokens[..0] == r.token.value;
      assert r.pos.value + Positions(0) == r.pos.value;
      assert r.nSeqId.value + Repeat(1, 0) == r.nSeqId.value;
      assert r.seqId.value + Repeat(Some([id]), 0) == r.seqId.value;
      assert r.logits.value + Flags(0, |tokens|, all) == r.logits.value;
    } else {
      AppendPrefixIs(r, tokens, id, all, k - 1);
      assert tokens[..k] == tokens[..k - 1] + [tokens[k - 1]];
      assert Positions(k) == Positions(k - 1) + [k - 1];
      assert Repeat(1, k) == Repeat(1, k - 1) + [1];
      assert Repeat(Some([id]), k) == Repeat(Some([id]), k - 1) + [Some([id])];
      var flag := if all || k == |tokens| then 1 else 0;
      assert Flags(k, |tokens|, all) == Flags(k - 1, |tokens|, all) + [flag];
      Concat(r.token.value, tokens[..k - 1], [tokens[k - 1]]);
      Concat(r.pos.value, Positions(k - 1), [k - 1]);
      Concat(r.nSeqId.value, Repeat(1, k - 1), [1]);
      Concat(r.seqId.value, Repeat(Some([id]), k - 1), [Some([id])]);
      Concat(r.logits.value, Flags(k - 1, |tokens|, all), [flag]);
    }
  }

  lemma Concat<T>(a: seq<T>, b: seq<T>, c: seq<T>)
    ensures a + b + c == a + (b + c)
  {
  }

  lemma AppendPrefixDone(r: Batch, tokens: seq<int>, id: int, all: bool)
    requires r.Exact()
    ensures AppendPrefix(r, tokens, id, all, |tokens|) == AppendSequence(r, tokens, id, all)
  {
    AppendPrefixIs(r, tokens, id, all, |tokens|);
    assert tokens[..|tokens|] == tokens;
  }

  lemma {:induction false} RetainsAll(offset: int, s: seq<int>)
    ensures offset !in s ==> Without(offset, s) == s
  {
    if s != [] && offset !in s {
      RetainsAll(offset, s[1..]);
    }
  }

  lemma OutputsAfterAppend(r: Batch, id: int, p: int, ids: seq<int>, output: bool)
    requires r.Exact()
    ensures r.nTokens !in r.Outputs()
    ensures AppendToken(r, id, p, ids, output).Outputs() == r.Outputs() + if output then [r.nTokens] else []
  {
    OutputsBelowExtends(r, AppendToken(r, id, p, ids, output), r.nTokens);
    OutputsBelowExact(r, r.nTokens);
  }

  lemma {:induction false} LastOnly(r: Batch, n: nat)
    requires n <= r.nTokens - 1 && r.logits.None?
    ensures r.OutputsBelow(n) == []
    ensures n == r.nTokens - 1 ==> r.OutputsBelow(n + 1) == [n]
  {
    if n > 0 {
      LastOnly(r, n - 1);
    }
  }
}

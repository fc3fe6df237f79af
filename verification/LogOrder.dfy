/** Exact conditions, over the messages themselves, for what log reassembly may get wrong. */
module LogOrder {
  import opened Wrappers
  import opened LogModel

  // ---- what is open ----------------------------------------------------------------------------------

  // What the messages leave open: nothing, or a text under the level of its first message. `orphaned`: it
  // began with a continuation. `ends`: it already ends a line.
  datatype Held = Nothing | Open(level: Level, orphaned: bool, ends: bool)

  // Whether a text that ended a line or not still does after a continuation.
  predicate EndsAfter(ends: bool, continuation: string) {
    if continuation == "" then ends else EndsLine(continuation)
  }

  function AfterContinuation(held: Held, level: Level, text: string): Held {
    match held
    case Nothing => Open(level, true, EndsLine(text))
    case Open(first, orphaned, ends) => if EndsAfter(ends, text) then Nothing else Open(first, orphaned, false)
  }

  // An orphaned text stays open across whole lines.
  function AfterStart(held: Held, level: Level, text: string): Held {
    if !EndsLine(text) then Open(level, false, false)
    else if held.Open? && held.orphaned then held
    else Nothing
  }

  function Leaves(messages: seq<Message>): Held {
    if messages == [] then Nothing
    else
      var last := |messages| - 1;
      var before, m := Leaves(messages[..last]), messages[last];
      if !Admitted(messages, last) then before
      else if m.level.Cont? then AfterContinuation(before, LatestLevel(messages[..last]), m.text)
      else AfterStart(before, m.level, m.text)
  }

  // The machine's buffer and flag are what the messages leave open.
  ghost predicate HoldsOpen(s: State, held: Held) {
    match held
    case Nothing => s.pending.None? && !s.isBuffering
    case Open(level, orphaned, ends) =>
      && s.pending.Some? && s.pending.value.0 == level
      && s.isBuffering == !orphaned && EndsLine(Text(s.pending.value.1)) == ends
  }

  lemma EndsSnoc(fragments: seq<Fragment>, f: Fragment)
    ensures EndsLine(Text(fragments + [f])) == EndsAfter(EndsLine(Text(fragments)), f.text)
  {
    assert (fragments + [f])[..|fragments|] == fragments;
  }

  lemma EndsOne(f: Fragment)
    ensures EndsLine(Text([f])) == EndsLine(f.text)
  {
    EndsSnoc([], f);
    assert [] + [f] == [f];
  }

  lemma ContinueHoldsOpen(s: State, f: Fragment, held: Held)
    requires HoldsOpen(s, held)
    ensures HoldsOpen(Continue(s, f), AfterContinuation(held, s.previousLevel, f.text))
  {
    if s.pending.Some? {
      EndsSnoc(s.pending.value.1, f);
    } else {
      EndsOne(f);
    }
  }

  lemma StartHoldsOpen(s: State, level: Level, f: Fragment, held: Held)
    requires HoldsOpen(s, held)
    ensures HoldsOpen(if EndsLine(f.text) then Line(s, level, f) else Buffer(s, level, f),
                      AfterStart(held, level, f.text))
  {
    EndsOne(f);
  }

  // On every run the machine holds what the messages leave open.
  lemma {:induction false} BufferIsLeft(messages: seq<Message>)
    requires Run(messages).Some?
    ensures HoldsOpen(Run(messages).value, Leaves(messages))
  {
    if messages != [] {
      var last := |messages| - 1;
      var before, m := messages[..last], messages[last];
      BufferIsLeft(before);
      AbortsExactly(before);
      EnabledIsAdmitted(messages);
      var s := Run(before).value;
      if m.level.Cont? {
        ContinueHoldsOpen(s, Fragment(last, m.text), Leaves(before));
      } else {
        StartHoldsOpen(s, m.level, Fragment(last, m.text), Leaves(before));
      }
    }
  }

  // ---- order -----------------------------------------------------------------------------------------

  // Message `i` is an enabled whole line that arrives while an orphaned text is open.
  predicate LineOverOrphan(messages: seq<Message>, i: int) {
    && 0 <= i < |messages| && !messages[i].level.Cont? && EndsLine(messages[i].text)
    && Admitted(messages, i) && Leaves(messages[..i]).Open? && Leaves(messages[..i]).orphaned
  }

  lemma LineOverOrphanPrefix(messages: seq<Message>, n: nat, i: int)
    requires i < n <= |messages|
    ensures LineOverOrphan(messages[..n], i) <==> LineOverOrphan(messages, i)
  {
    if 0 <= i {
      assert messages[..n][..i] == messages[..i] && messages[..n][..i + 1] == messages[..i + 1];
    }
  }

  lemma OvertakesHere(messages: seq<Message>)
    requires messages != [] && Run(messages).Some?
    ensures var last := |messages| - 1;
            Overtakes(Run(messages[..last]).value, messages[last]) <==> LineOverOrphan(messages, last)
  {
    BufferIsLeft(messages[..|messages| - 1]);
    EnabledIsAdmitted(messages);
  }

  lemma {:induction false} OvertakesExactly(messages: seq<Message>)
    requires Run(messages).Some?
    ensures EverOvertakes(messages) <==> exists i :: LineOverOrphan(messages, i)
  {
    if messages != [] {
      var last := |messages| - 1;
      OvertakesExactly(messages[..last]);
      OvertakesHere(messages);
      forall i | i < last ensures LineOverOrphan(messages[..last], i) <==> LineOverOrphan(messages, i) {
        LineOverOrphanPrefix(messages, last, i);
      }
      if i :| LineOverOrphan(messages[..last], i) {
        assert LineOverOrphan(messages, i);
      }
    }
  }

  // Arrival order survives a run exactly when no enabled whole line arrives while a text that began with
  // a continuation is open.
  lemma OrderKeptByMessages(messages: seq<Message>)
    requires Run(messages).Some?
    ensures Flat(Run(messages).value) == AdmittedFragments(messages)
            <==> forall i | 0 <= i < |messages| :: !LineOverOrphan(messages, i)
  {
    OrderKeptExactly(messages);
    OvertakesExactly(messages);
  }

  // A run without orphans has no such line.
  lemma OrphanFreeHasNoLineOverOrphan(messages: seq<Message>)
    requires Run(messages).Some? && OrphanFree(messages)
    ensures forall i | 0 <= i < |messages| :: !LineOverOrphan(messages, i)
  {
    OrderWithoutOrphans(messages);
    OrderKeptByMessages(messages);
  }

  // ---- levels ------------------------------------------------------------------------------------------

  // Some log, or the buffer, holds `f` under `level`.
  ghost predicate Holds(s: State, level: Level, f: Fragment) {
    || (exists r <- s.records :: r.level == level && f in r.fragments)
    || (s.pending.Some? && s.pending.value.0 == level && f in s.pending.value.1)
  }

  // The level under which a message is kept: a continuation joins whatever is buffered.
  function KeptLevel(s: State, m: Message): Level {
    if m.level.Cont? && s.pending.Some? then s.pending.value.0 else DecidingLevel(s, m.level)
  }

  lemma HoldsWithRecord(s: State, r: Record, level: Level, f: Fragment)
    ensures Holds(s.(records := s.records + [r]), level, f)
            <==> Holds(s, level, f) || (r.level == level && f in r.fragments)
  {
    var s' := s.(records := s.records + [r]);
    if Holds(s, level, f) && !(s.pending.Some? && s.pending.value.0 == level && f in s.pending.value.1) {
      var q :| q in s.records && q.level == level && f in q.fragments;
      assert q in s'.records;
    }
    if r.level == level && f in r.fragments {
      assert r in s'.records;
    }
  }

  lemma FlushHolds(s: State, level: Level, f: Fragment)
    ensures Holds(Flush(s), level, f) <==> Holds(s, level, f)
  {
    if s.pending.Some? {
      HoldsWithRecord(s, Record(s.pending.value.0, s.pending.value.1, false), level, f);
      HoldsWithRecord(s.(pending := None), Record(s.pending.value.0, s.pending.value.1, false), level, f);
    }
  }

  lemma ContinueHolds(s: State, new': Fragment, level: Level, f: Fragment)
    ensures Holds(Continue(s, new'), level, f) <==>
            Holds(s, level, f)
            || (f == new' && level == if s.pending.Some? then s.pending.value.0 else s.previousLevel)
  {
    if s.pending.Some? {
      var (l, fragments) := s.pending.value;
      HoldsWithRecord(s.(pending := None, isBuffering := false), Record(l, fragments + [new'], false), level, f);
    }
  }

  lemma LineHolds(s: State, line: Level, new': Fragment, level: Level, f: Fragment)
    ensures Holds(Line(s, line, new'), level, f) <==> Holds(s, level, f) || (f == new' && level == line)
  {
    FlushHolds(s, level, f);
    HoldsWithRecord(if s.isBuffering then Flush(s) else s, Record(line, [new'], true), level, f);
  }

  lemma BufferHolds(s: State, start: Level, new': Fragment, level: Level, f: Fragment)
    ensures Holds(Buffer(s, start, new'), level, f) <==> Holds(s, level, f) || (f == new' && level == start)
  {
    FlushHolds(s, level, f);
  }

  // A message moves no fragment to another level, and keeps its own under `KeptLevel`.
  lemma StepHolds(s: State, m: Message, level: Level, f: Fragment)
    ensures Holds(Step(s, m), level, f) <==>
            Holds(s, level, f)
            || (Enabled(s, m) && f == Fragment(s.clock, m.text) && level == KeptLevel(s, m))
  {
    var new' := Fragment(s.clock, m.text);
    if Enabled(s, m) {
      if m.level.Cont? {
        ContinueHolds(s, new', level, f);
      } else if EndsLine(m.text) {
        LineHolds(s, m.level, new', level, f);
      } else {
        BufferHolds(s, m.level, new', level, f);
      }
    }
  }

  // The level in force when message `id` arrived.
  function OwnLevel(messages: seq<Message>, id: nat): Level
    requires id < |messages|
  {
    LatestLevel(messages[..id + 1])
  }

  // Every fragment is kept under its own deciding level.
  ghost predicate OwnLevels(messages: seq<Message>, s: State) {
    forall level, f | Holds(s, level, f) :: f.id < |messages| && level == OwnLevel(messages, f.id)
  }

  // An enabled continuation joins a buffer of another level than the one it continues.
  predicate Mislevels(s: State, m: Message) {
    Enabled(s, m) && m.level.Cont? && s.pending.Some? && s.pending.value.0 != s.previousLevel
  }

  predicate EverMislevels(messages: seq<Message>)
    requires Run(messages).Some?
  {
    messages != [] &&
    var before, m := messages[..|messages| - 1], messages[|messages| - 1];
    EverMislevels(before) || Mislevels(Run(before).value, m)
  }

  lemma OwnLevelPrefix(messages: seq<Message>, n: nat, id: nat)
    requires id < n <= |messages|
    ensures OwnLevel(messages[..n], id) == OwnLevel(messages, id)
  {
    assert messages[..n][..id + 1] == messages[..id + 1];
  }

  lemma {:induction false} HeldFromPast(messages: seq<Message>, level: Level, f: Fragment)
    requires Run(messages).Some? && Holds(Run(messages).value, level, f)
    ensures f.id < |messages|
  {
    if messages != [] {
      var last := |messages| - 1;
      AbortsExactly(messages[..last]);
      StepHolds(Run(messages[..last]).value, messages[last], level, f);
      if Holds(Run(messages[..last]).value, level, f) {
        HeldFromPast(messages[..last], level, f);
      }
    }
  }

  // One more message keeps all levels right exactly when it does not join a buffer of another level.
  lemma StepOwnLevels(messages: seq<Message>)
    requires messages != [] && Run(messages).Some?
    ensures var before := messages[..|messages| - 1];
            var s := Run(before).value;
            OwnLevels(messages, Run(messages).value) <==>
            OwnLevels(before, s) && !Mislevels(s, messages[|messages| - 1])
  {
    var last := |messages| - 1;
    var before := messages[..last];
    var s, m := Run(before).value, messages[last];
    var own := Fragment(last, m.text);
    AbortsExactly(before);
    assert messages[..last + 1] == messages;
    assert OwnLevel(messages, last) == DecidingLevel(s, m.level);
    StepHolds(s, m, KeptLevel(s, m), own);
    forall level, f ensures Holds(Step(s, m), level, f) <==>
                            Holds(s, level, f) || (Enabled(s, m) && f == own && level == KeptLevel(s, m)) {
      StepHolds(s, m, level, f);
    }
    forall level, f | Holds(s, level, f)
      ensures f.id < last && OwnLevel(before, f.id) == OwnLevel(messages, f.id)
    {
      HeldFromPast(before, level, f);
      OwnLevelPrefix(messages, last, f.id);
    }
  }

  // Every fragment is logged under its own deciding level exactly on the runs in which no continuation
  // joins a buffer of another level.
  lemma {:induction false} LevelsKeptExactly(messages: seq<Message>)
    requires Run(messages).Some?
    ensures OwnLevels(messages, Run(messages).value) <==> !EverMislevels(messages)
  {
    if messages != [] {
      LevelsKeptExactly(messages[..|messages| - 1]);
      StepOwnLevels(messages);
    }
  }

  // Message `i` is an enabled continuation that joins an open text of another level than it continues.
  predicate ForeignContinuation(messages: seq<Message>, i: int) {
    && 0 <= i < |messages| && messages[i].level.Cont? && Admitted(messages, i)
    && Leaves(messages[..i]).Open? && Leaves(messages[..i]).level != LatestLevel(messages[..i])
  }

  lemma ForeignContinuationPrefix(messages: seq<Message>, n: nat, i: int)
    requires i < n <= |messages|
    ensures ForeignContinuation(messages[..n], i) <==> ForeignContinuation(messages, i)
  {
    if 0 <= i {
      assert messages[..n][..i] == messages[..i] && messages[..n][..i + 1] == messages[..i + 1];
    }
  }

  lemma MislevelsHere(messages: seq<Message>)
    requires messages != [] && Run(messages).Some?
    ensures var last := |messages| - 1;
            Mislevels(Run(messages[..last]).value, messages[last]) <==> ForeignContinuation(messages, last)
  {
    BufferIsLeft(messages[..|messages| - 1]);
    AbortsExactly(messages[..|messages| - 1]);
    EnabledIsAdmitted(messages);
  }

  lemma {:induction false} MislevelsExactly(messages: seq<Message>)
    requires Run(messages).Some?
    ensures EverMislevels(messages) <==> exists i :: ForeignContinuation(messages, i)
  {
    if messages != [] {
      var last := |messages| - 1;
      MislevelsExactly(messages[..last]);
      MislevelsHere(messages);
      forall i | i < last ensures ForeignContinuation(messages[..last], i) <==> ForeignContinuation(messages, i) {
        ForeignContinuationPrefix(messages, last, i);
      }
      if i :| ForeignContinuation(messages[..last], i) {
        assert ForeignContinuation(messages, i);
      }
    }
  }

  // Every fragment is logged under its own deciding level exactly when no enabled continuation arrives
  // while a text of another level than the latest is open.
  lemma LevelsKeptByMessages(messages: seq<Message>)
    requires Run(messages).Some?
    ensures OwnLevels(messages, Run(messages).value)
            <==> forall i | 0 <= i < |messages| :: !ForeignContinuation(messages, i)
  {
    LevelsKeptExactly(messages);
    MislevelsExactly(messages);
  }

  // The subscriber's enabled levels never change.
  predicate ConstantlyEnabled(messages: seq<Message>, enabled: set<Level>) {
    forall m <- messages :: m.enabled == enabled
  }

  // Without orphans and with constant enabled levels, every fragment keeps its own level.
  lemma {:induction false} NoMislevelWithoutOrphans(messages: seq<Message>, enabled: set<Level>)
    requires Run(messages).Some? && OrphanFree(messages) && ConstantlyEnabled(messages, enabled)
    ensures !EverMislevels(messages)
    ensures var s := Run(messages).value;
            s.pending.Some? ==> s.pending.value.0 == s.previousLevel || s.previousLevel !in enabled
  {
    if messages != [] {
      var before, m := messages[..|messages| - 1], messages[|messages| - 1];
      assert forall m <- before :: m in messages;
      NoMislevelWithoutOrphans(before, enabled);
      OrderWithoutOrphans(before);
      assert m in messages;
    }
  }

  lemma LevelsKeptWithoutOrphans(messages: seq<Message>, enabled: set<Level>)
    requires Run(messages).Some? && OrphanFree(messages) && ConstantlyEnabled(messages, enabled)
    ensures OwnLevels(messages, Run(messages).value)
  {
    NoMislevelWithoutOrphans(messages, enabled);
    LevelsKeptExactly(messages);
  }

  // A warning's continuation is logged as information when an orphan is still buffered.
  lemma ContinuationMislevelled()
    ensures var all := {Info, Warn};
            var messages := [Message(Info, "a\n", all), Message(Cont, "b", all), Message(Warn, "w\n", all),
                             Message(Cont, "c\n", all)];
            && Run(messages).Some? && OwnLevel(messages, 3) == Warn
            && Record(Info, [Fragment(1, "b"), Fragment(3, "c\n")], false) in Run(messages).value.records
            && !OwnLevels(messages, Run(messages).value)
  {
    var all := {Info, Warn};
    var a, b, w, c := Message(Info, "a\n", all), Message(Cont, "b", all), Message(Warn, "w\n", all),
                      Message(Cont, "c\n", all);
    var messages := [a, b, w, c];
    OrphanIsBuffered(all);
    RunSnoc([a, b], w);
    assert [a, b] + [w] == [a, b, w];
    RunSnoc([a, b, w], c);
    assert [a, b, w] + [c] == messages;
    EndsSnoc([Fragment(1, "b")], Fragment(3, "c\n"));
    assert [Fragment(1, "b")] + [Fragment(3, "c\n")] == [Fragment(1, "b"), Fragment(3, "c\n")];
    assert messages[..4] == messages && messages[..3] == [a, b, w];
    StepOwnLevels(messages);
  }
}

/**
 Reassembly of native log fragments into log records, on identified fragments: where every enabled
 fragment ends up, in what order, and which runs reach an illegal level.
 */
module LogModel {
  import opened Wrappers

  datatype Level = NoLevel | Debug | Info | Warn | Error | Cont | Unknown(code: int)

  // The levels that have event metadata; any other is an `unreachable!`.
  predicate Traceable(level: Level) {
    level.Debug? || level.Info? || level.Warn? || level.Error?
  }

  // A native log call, and the levels that the subscriber has enabled when it arrives.
  datatype Message = Message(level: Level, text: string, enabled: set<Level>)

  // The text of the message number `id`.
  datatype Fragment = Fragment(id: nat, text: string)

  // One generated log. `line`: a whole line, logged without its newline.
  datatype Record = Record(level: Level, fragments: seq<Fragment>, line: bool)

  datatype State = State(
    pending: Option<(Level, seq<Fragment>)>,
    previousLevel: Level,
    isBuffering: bool,
    records: seq<Record>,
    clock: nat)

  const INITIAL: State := State(None, NoLevel, false, [], 0)

  predicate EndsLine(text: string) {
    text != [] && text[|text| - 1] == '\n'
  }

  function Text(fragments: seq<Fragment>): string {
    if fragments == [] then [] else Text(fragments[..|fragments| - 1]) + fragments[|fragments| - 1].text
  }

  // ---- one message ---------------------------------------------------------------------------------

  // The level that decides whether a message is enabled: a continuation inherits the previous one.
  function DecidingLevel(s: State, level: Level): Level {
    if level.Cont? then s.previousLevel else level
  }

  function Disabled(s: State, level: Level): State {
    s.(previousLevel := DecidingLevel(s, level))
  }

  function Continue(s: State, f: Fragment): State {
    match s.pending
    case None => s.(pending := Some((s.previousLevel, [f])))
    case Some((level, fragments)) =>
      if EndsLine(Text(fragments + [f])) then
        s.(pending := None, isBuffering := false, records := s.records + [Record(level, fragments + [f], false)])
      else s.(pending := Some((level, fragments + [f])))
  }

  function Flush(s: State): State {
    match s.pending
    case None => s
    case Some((level, fragments)) =>
      s.(pending := None, records := s.records + [Record(level, fragments, false)])
  }

  function Buffer(s: State, level: Level, f: Fragment): State {
    Flush(s).(pending := Some((level, [f])), isBuffering := true, previousLevel := level)
  }

  function Line(s: State, level: Level, f: Fragment): State {
    var flushed := if s.isBuffering then Flush(s) else s;
    flushed.(isBuffering := false, previousLevel := level,
             records := flushed.records + [Record(level, [f], true)])
  }

  // A whole line at a level that makes no record.
  function DropLine(s: State, level: Level): State {
    (if s.isBuffering then Flush(s) else s).(isBuffering := false, previousLevel := level)
  }

  predicate Enabled(s: State, m: Message) {
    DecidingLevel(s, m.level) in m.enabled
  }

  // The state after a message whose deciding level is traceable.
  function Step(s: State, m: Message): State {
    var f := Fragment(s.clock, m.text);
    var next :=
      if !Enabled(s, m) then Disabled(s, m.level)
      else if m.level.Cont? then Continue(s, f)
      else if EndsLine(m.text) then Line(s, m.level, f)
      else Buffer(s, m.level, f);
    next.(clock := s.clock + 1)
  }

  // A run; none when some message reaches the `unreachable!` arm.
  function Run(messages: seq<Message>): Option<State> {
    if messages == [] then Some(INITIAL)
    else
      match Run(messages[..|messages| - 1])
      case None => None
      case Some(s) =>
        var m := messages[|messages| - 1];
        if Traceable(DecidingLevel(s, m.level)) then Some(Step(s, m)) else None
  }

  // ---- what the input says ---------------------------------------------------------------------------

  // The latest level that is not a continuation.
  function LatestLevel(messages: seq<Message>): Level {
    if messages == [] then NoLevel
    else if messages[|messages| - 1].level.Cont? then LatestLevel(messages[..|messages| - 1])
    else messages[|messages| - 1].level
  }

  predicate Admitted(messages: seq<Message>, i: nat)
    requires i < |messages|
  {
    LatestLevel(messages[..i + 1]) in messages[i].enabled
  }

  // The enabled fragments, in arrival order.
  function AdmittedFragments(messages: seq<Message>): seq<Fragment> {
    if messages == [] then []
    else
      var last := |messages| - 1;
      AdmittedFragments(messages[..last]) +
      if Admitted(messages, last) then [Fragment(last, messages[last].text)] else []
  }

  // A message that no level check survives: an untraceable level, or a continuation with nothing before it.
  predicate Illegal(messages: seq<Message>, i: nat)
    requires i < |messages|
  {
    if messages[i].level.Cont? then i == 0 else !Traceable(messages[i].level)
  }

  // ---- aborts --------------------------------------------------------------------------------------

  // A run is cut short exactly when it contains an illegal message.
  lemma {:induction false} AbortsExactly(messages: seq<Message>)
    ensures Run(messages).None? <==> exists i :: 0 <= i < |messages| && Illegal(messages, i)
    ensures Run(messages).Some? ==>
              && Run(messages).value.previousLevel == LatestLevel(messages)
              && Run(messages).value.clock == |messages|
              && (messages != [] ==> Traceable(LatestLevel(messages)))
  {
    if messages != [] {
      var last := |messages| - 1;
      var before := messages[..last];
      AbortsExactly(before);
      forall i | 0 <= i < last ensures Illegal(messages, i) <==> Illegal(before, i) {
        assert messages[i] == before[i];
      }
      if exists i :: 0 <= i < |before| && Illegal(before, i) {
        var i :| 0 <= i < |before| && Illegal(before, i);
        assert Illegal(messages, i);
      }
      if Run(before).Some? && Run(messages).None? {
        assert Illegal(messages, last);
      }
    }
  }

  predicate LegalAt(messages: seq<Message>, i: nat)
    requires i < |messages|
  {
    var level := messages[i].level;
    level == Debug || level == Info || level == Warn || level == Error || (level == Cont && i > 0)
  }

  lemma CompletesWhenLegal(messages: seq<Message>)
    ensures Run(messages).Some? <==> forall i: nat | i < |messages| :: LegalAt(messages, i)
  {
    AbortsExactly(messages);
    forall i: nat | i < |messages| ensures Illegal(messages, i) <==> !LegalAt(messages, i) {
    }
  }

  // A run completes exactly when every level is one of the four or a continuation, and the first is not a
  // continuation.
  lemma CompletesExactly(messages: seq<Message>)
    ensures Run(messages).Some? <==> forall i: nat | i < |messages| ::
              messages[i].level in {Debug, Info, Warn, Error} || (messages[i].level == Cont && i > 0)
  {
    CompletesWhenLegal(messages);
    forall i: nat | i < |messages|
      ensures LegalAt(messages, i) <==>
              messages[i].level in {Debug, Info, Warn, Error} || (messages[i].level == Cont && i > 0)
    {
    }
  }

  lemma AbortsLonger(messages: seq<Message>, n: nat)
    requires n <= |messages| && Run(messages[..n]).None?
    ensures Run(messages).None?
  {
    AbortsExactly(messages[..n]);
    AbortsExactly(messages);
    var i :| 0 <= i < n && Illegal(messages[..n], i);
    assert Illegal(messages, i);
  }

  // A line without a level aborts the run, whatever the subscriber has enabled.
  lemma NoLevelAborts()
    ensures Run([Message(NoLevel, "x\n", {Info})]).None?
  {
    AbortsExactly([Message(NoLevel, "x\n", {Info})]);
    assert Illegal([Message(NoLevel, "x\n", {Info})], 0);
  }

  // So does a continuation with nothing before it.
  lemma LeadingContinuationAborts()
    ensures Run([Message(Cont, "x\n", {Info})]).None?
  {
    AbortsExactly([Message(Cont, "x\n", {Info})]);
    assert Illegal([Message(Cont, "x\n", {Info})], 0);
  }

  // ---- conservation and order ------------------------------------------------------------------------

  function RecordFragments(records: seq<Record>): seq<Fragment> {
    if records == [] then []
    else RecordFragments(records[..|records| - 1]) + records[|records| - 1].fragments
  }

  function PendingFragments(s: State): seq<Fragment> {
    if s.pending.Some? then s.pending.value.1 else []
  }

  // Everything logged, then what is still buffered.
  function Flat(s: State): seq<Fragment> {
    RecordFragments(s.records) + PendingFragments(s)
  }

  // A line that is logged ahead of a fragment buffered by an orphan continuation.
  predicate Overtakes(s: State, m: Message) {
    && Enabled(s, m) && !m.level.Cont? && EndsLine(m.text)
    && s.pending.Some? && !s.isBuffering
  }

  ghost predicate Sound(s: State) {
    && (s.isBuffering ==> s.pending.Some?)
    && (s.pending.Some? ==> s.pending.value.1 != [])
    && forall f <- Flat(s) :: f.id < s.clock
  }

  lemma RecordsAppend(records: seq<Record>, r: Record)
    ensures RecordFragments(records + [r]) == RecordFragments(records) + r.fragments
  {
    assert (records + [r])[..|records|] == records;
  }

  lemma FlushFlat(s: State)
    ensures Flush(s).pending.None? && RecordFragments(Flush(s).records) == Flat(s)
    ensures Flush(s) == s.(pending := None, records := Flush(s).records)
  {
    if s.pending.Some? {
      RecordsAppend(s.records, Record(s.pending.value.0, s.pending.value.1, false));
    }
  }

  lemma ContinueFlat(s: State, f: Fragment)
    ensures Flat(Continue(s, f)) == Flat(s) + [f]
    ensures RecordFragments(s.records) <= RecordFragments(Continue(s, f).records)
    ensures Continue(s, f).isBuffering ==> s.isBuffering && (s.pending.Some? ==> Continue(s, f).pending.Some?)
  {
    if s.pending.Some? {
      RecordsAppend(s.records, Record(s.pending.value.0, s.pending.value.1 + [f], false));
    }
  }

  lemma BufferFlat(s: State, level: Level, f: Fragment)
    ensures Flat(Buffer(s, level, f)) == Flat(s) + [f]
    ensures RecordFragments(s.records) <= RecordFragments(Buffer(s, level, f).records)
  {
    FlushFlat(s);
  }

  lemma LineFlat(s: State, level: Level, f: Fragment)
    ensures RecordFragments(Line(s, level, f).records) ==
            (if s.isBuffering then Flat(s) else RecordFragments(s.records)) + [f]
    ensures PendingFragments(Line(s, level, f)) == if s.isBuffering then [] else PendingFragments(s)
    ensures !s.isBuffering ==> Line(s, level, f).pending == s.pending
  {
    FlushFlat(s);
    RecordsAppend((if s.isBuffering then Flush(s) else s).records, Record(level, [f], true));
  }

  // One step drops nothing, duplicates nothing, and appends at the end unless it overtakes.
  lemma StepFlat(s: State, m: Message)
    requires Sound(s)
    ensures Flat(Step(s, m)) ==
            var f := Fragment(s.clock, m.text);
            if !Enabled(s, m) then Flat(s)
            else if Overtakes(s, m) then RecordFragments(s.records) + [f] + PendingFragments(s)
            else Flat(s) + [f]
    ensures RecordFragments(s.records) <= RecordFragments(Step(s, m).records)
    ensures Overtakes(s, m) ==>
              RecordFragments(Step(s, m).records) == RecordFragments(s.records) + [Fragment(s.clock, m.text)]
  {
    var f := Fragment(s.clock, m.text);
    if Enabled(s, m) {
      if m.level.Cont? {
        ContinueFlat(s, f);
      } else if EndsLine(m.text) {
        LineFlat(s, m.level, f);
      } else {
        BufferFlat(s, m.level, f);
      }
    }
  }

  lemma FromThePast(fragments: seq<Fragment>, logged: seq<Fragment>, rest: seq<Fragment>, f: Fragment)
    requires fragments == logged + rest || fragments == logged + [f] + rest || fragments == logged + rest + [f]
    ensures forall g <- fragments :: g in logged + rest || g == f
  {
  }

  lemma StepSound(s: State, m: Message)
    requires Sound(s)
    ensures Sound(Step(s, m))
  {
    StepFlat(s, m);
    FromThePast(Flat(Step(s, m)), RecordFragments(s.records), PendingFragments(s), Fragment(s.clock, m.text));
  }

  lemma {:induction false} RunIsSound(messages: seq<Message>)
    requires Run(messages).Some?
    ensures Sound(Run(messages).value)
  {
    if messages != [] {
      var last := |messages| - 1;
      RunIsSound(messages[..last]);
      StepSound(Run(messages[..last]).value, messages[last]);
    }
  }

  lemma EnabledIsAdmitted(messages: seq<Message>)
    requires messages != [] && Run(messages).Some?
    ensures var last := |messages| - 1;
            var s := Run(messages[..last]).value;
            && Enabled(s, messages[last]) == Admitted(messages, last)
            && s.clock == last
  {
    AbortsExactly(messages[..|messages| - 1]);
    assert messages[..|messages|] == messages;
  }

  // On every completed run, orphans included, each enabled fragment is in exactly one record or in the
  // buffer, and nothing else is.
  lemma {:induction false} Conservation(messages: seq<Message>)
    requires Run(messages).Some?
    ensures multiset(Flat(Run(messages).value)) == multiset(AdmittedFragments(messages))
  {
    if messages != [] {
      var last := |messages| - 1;
      var s := Run(messages[..last]).value;
      Conservation(messages[..last]);
      EnabledIsAdmitted(messages);
      RunIsSound(messages[..last]);
      StepFlat(s, messages[last]);
    }
  }

  // The level of a log is the latest non-continuation level when its first fragment arrived.
  ghost predicate Levelled(messages: seq<Message>, level: Level, fragments: seq<Fragment>) {
    fragments != [] && fragments[0].id < |messages| && level == LatestLevel(messages[..fragments[0].id + 1])
  }

  ghost predicate AllLevelled(messages: seq<Message>, s: State) {
    && (forall r <- s.records :: Levelled(messages, r.level, r.fragments))
    && (s.pending.Some? ==> Levelled(messages, s.pending.value.0, s.pending.value.1))
  }

  lemma LevelledLonger(messages: seq<Message>, n: nat, level: Level, fragments: seq<Fragment>)
    requires n <= |messages| && Levelled(messages[..n], level, fragments)
    ensures Levelled(messages, level, fragments)
  {
    assert messages[..n][..fragments[0].id + 1] == messages[..fragments[0].id + 1];
  }

  lemma AllLevelledLonger(messages: seq<Message>, n: nat, s: State)
    requires n <= |messages| && AllLevelled(messages[..n], s)
    ensures AllLevelled(messages, s)
  {
    forall r <- s.records ensures Levelled(messages, r.level, r.fragments) {
      LevelledLonger(messages, n, r.level, r.fragments);
    }
    if s.pending.Some? {
      LevelledLonger(messages, n, s.pending.value.0, s.pending.value.1);
    }
  }

  lemma FlushLevelled(messages: seq<Message>, s: State)
    requires AllLevelled(messages, s)
    ensures AllLevelled(messages, Flush(s))
  {
  }

  lemma ContinueLevelled(messages: seq<Message>, s: State, f: Fragment)
    requires AllLevelled(messages, s) && Levelled(messages, s.previousLevel, [f])
    ensures AllLevelled(messages, Continue(s, f))
  {
    if s.pending.Some? {
      assert (s.pending.value.1 + [f])[0] == s.pending.value.1[0];
    }
  }

  // One message keeps every level right, if its own fragment is right.
  lemma StepLevelled(messages: seq<Message>, s: State, m: Message)
    requires AllLevelled(messages, s)
    requires Enabled(s, m) ==> Levelled(messages, DecidingLevel(s, m.level), [Fragment(s.clock, m.text)])
    ensures AllLevelled(messages, Step(s, m))
  {
    if Enabled(s, m) {
      if m.level.Cont? {
        ContinueLevelled(messages, s, Fragment(s.clock, m.text));
      } else {
        FlushLevelled(messages, s);
      }
    }
  }

  // Every log, and the buffer, carries the level under which its first fragment arrived.
  lemma {:induction false} LevelsFollowFirstFragment(messages: seq<Message>)
    requires Run(messages).Some?
    ensures AllLevelled(messages, Run(messages).value)
  {
    if messages != [] {
      var last := |messages| - 1;
      LevelsFollowFirstFragment(messages[..last]);
      AllLevelledLonger(messages, last, Run(messages[..last]).value);
      AbortsExactly(messages[..last]);
      assert messages[..last + 1] == messages;
      StepLevelled(messages, Run(messages[..last]).value, messages[last]);
    }
  }

  lemma {:induction false} AdmittedIncreasing(messages: seq<Message>)
    ensures forall i, j | 0 <= i < j < |AdmittedFragments(messages)| ::
              AdmittedFragments(messages)[i].id < AdmittedFragments(messages)[j].id
    ensures forall f <- AdmittedFragments(messages) :: f.id < |messages|
  {
    if messages != [] {
      AdmittedIncreasing(messages[..|messages| - 1]);
    }
  }

  // The fragment at `i` is logged and precedes the older one at `j`.
  predicate InvertedAt(s: State, i: nat, j: nat) {
    i < j < |Flat(s)| && i < |RecordFragments(s.records)| && Flat(s)[j].id < Flat(s)[i].id
  }

  ghost predicate Inverted(s: State) {
    exists i: nat, j: nat :: InvertedAt(s, i, j)
  }

  // Inserting `f` behind the logged part moves nothing that is logged.
  lemma InsertBehind(logged: seq<Fragment>, rest: seq<Fragment>, f: Fragment, j: nat)
    requires j < |logged + rest|
    ensures (logged + [f] + rest)[if j < |logged| then j else j + 1] == (logged + rest)[j]
    ensures (logged + rest + [f])[j] == (logged + rest)[j]
  {
  }

  lemma InversionPersists(s: State, m: Message)
    requires Sound(s) && Inverted(s)
    ensures Inverted(Step(s, m))
  {
    var i: nat, j: nat :| InvertedAt(s, i, j);
    var logged, rest, f := RecordFragments(s.records), PendingFragments(s), Fragment(s.clock, m.text);
    var j' := if Overtakes(s, m) && j >= |logged| then j + 1 else j;
    assert InvertedAt(Step(s, m), i, j') by {
      StepFlat(s, m);
      InsertBehind(logged, rest, f, i);
      InsertBehind(logged, rest, f, j);
    }
  }

  lemma OvertakingInverts(s: State, m: Message)
    requires Sound(s) && Overtakes(s, m)
    ensures Inverted(Step(s, m))
  {
    StepFlat(s, m);
    var n := |RecordFragments(s.records)|;
    assert Flat(s)[n] in Flat(s);
    assert Flat(Step(s, m))[n + 1] == Flat(s)[n];
    assert Flat(Step(s, m))[n].id == s.clock;
    assert InvertedAt(Step(s, m), n, n + 1);
  }

  // At some message of the run a line overtook a buffered fragment.
  predicate EverOvertakes(messages: seq<Message>)
    requires Run(messages).Some?
  {
    messages != [] &&
    var before, m := messages[..|messages| - 1], messages[|messages| - 1];
    EverOvertakes(before) || Overtakes(Run(before).value, m)
  }

  lemma {:induction false} OrderOrInversion(messages: seq<Message>)
    requires Run(messages).Some?
    ensures if EverOvertakes(messages) then Inverted(Run(messages).value)
            else Flat(Run(messages).value) == AdmittedFragments(messages)
  {
    if messages != [] {
      var last := |messages| - 1;
      var before, s, m := messages[..last], Run(messages[..last]).value, messages[last];
      OrderOrInversion(before);
      RunIsSound(before);
      if Overtakes(s, m) {
        OvertakingInverts(s, m);
      } else if EverOvertakes(before) {
        InversionPersists(s, m);
      } else {
        EnabledIsAdmitted(messages);
        StepFlat(s, m);
      }
    }
  }

  // Arrival order survives exactly on the runs in which no line overtakes an orphaned fragment.
  lemma OrderKeptExactly(messages: seq<Message>)
    requires Run(messages).Some?
    ensures Flat(Run(messages).value) == AdmittedFragments(messages) <==> !EverOvertakes(messages)
  {
    OrderOrInversion(messages);
    AdmittedIncreasing(messages);
  }

  // A continuation is an orphan when it is enabled and nothing is buffered.
  predicate Orphan(s: State, m: Message) {
    m.level.Cont? && s.pending.None? && Enabled(s, m)
  }

  // No message of the run is an orphan when it arrives.
  predicate OrphanFree(messages: seq<Message>)
    requires Run(messages).Some?
  {
    messages == [] ||
    var before, m := messages[..|messages| - 1], messages[|messages| - 1];
    OrphanFree(before) && !Orphan(Run(before).value, m)
  }

  // Without orphans the flag says exactly whether something is buffered, and arrival order is kept.
  lemma {:induction false} OrderWithoutOrphans(messages: seq<Message>)
    requires Run(messages).Some? && OrphanFree(messages)
    ensures Run(messages).value.isBuffering == Run(messages).value.pending.Some?
    ensures Flat(Run(messages).value) == AdmittedFragments(messages)
  {
    if messages != [] {
      var last := |messages| - 1;
      OrderWithoutOrphans(messages[..last]);
      RunIsSound(messages[..last]);
      EnabledIsAdmitted(messages);
      StepFlat(Run(messages[..last]).value, messages[last]);
    }
  }

  lemma RunSnoc(messages: seq<Message>, m: Message)
    requires Run(messages).Some? && Traceable(DecidingLevel(Run(messages).value, m.level))
    ensures Run(messages + [m]) == Some(Step(Run(messages).value, m))
  {
    assert (messages + [m])[..|messages|] == messages;
  }

  // A whole line and then an orphan: the orphan is buffered, and the flag stays down.
  lemma OrphanIsBuffered(enabled: set<Level>)
    requires Info in enabled
    ensures Run([Message(Info, "a\n", enabled), Message(Cont, "b", enabled)]) ==
            Some(State(Some((Info, [Fragment(1, "b")])), Info, false, [Record(Info, [Fragment(0, "a\n")], true)], 2))
  {
    var a, b := Message(Info, "a\n", enabled), Message(Cont, "b", enabled);
    RunSnoc([], a);
    assert [] + [a] == [a];
    assert Step(INITIAL, a) == State(None, Info, false, [Record(Info, [Fragment(0, "a\n")], true)], 1);
    RunSnoc([a], b);
    assert [a] + [b] == [a, b];
  }

  // Order is lost by an orphan followed by a whole line.
  lemma OrphanIsOvertaken()
    ensures var all := {Info};
            var messages := [Message(Info, "a\n", all), Message(Cont, "b", all), Message(Info, "c\n", all)];
            && Run(messages).Some?
            && Flat(Run(messages).value) == [Fragment(0, "a\n"), Fragment(2, "c\n"), Fragment(1, "b")]
  {
    var all := {Info};
    var a, b, c := Message(Info, "a\n", all), Message(Cont, "b", all), Message(Info, "c\n", all);
    OrphanIsBuffered(all);
    RunSnoc([a, b], c);
    assert [a, b] + [c] == [a, b, c];
    var records := [Record(Info, [Fragment(0, "a\n")], true)];
    RecordsAppend([], records[0]);
    assert [] + [records[0]] == records;
    RecordsAppend(records, Record(Info, [Fragment(2, "c\n")], true));
  }
}

/** What a run of log messages emits, over the messages themselves. */
module LogFacts {
  import opened Wrappers
  import opened LogModel
  import opened LogOrder
  import opened LogText

  // ---- which messages are enabled ------------------------------------------------------------------------

  // Message `j` gives message `i` its level: itself, or the message that a row of continuations follows.
  predicate GivesLevel(messages: seq<Message>, j: int, i: int) {
    && 0 <= j <= i < |messages| && messages[j].level != Cont
    && forall k | j < k <= i :: messages[k].level == Cont
  }

  lemma {:induction false} LevelGiver(messages: seq<Message>, i: nat) returns (j: nat)
    requires i < |messages| && messages[0].level != Cont
    ensures GivesLevel(messages, j, i) && LatestLevel(messages[..i + 1]) == messages[j].level
  {
    assert messages[..i + 1][..i] == messages[..i];
    if messages[i].level == Cont {
      j := LevelGiver(messages, i - 1);
    } else {
      j := i;
    }
  }

  lemma GiverUnique(messages: seq<Message>, j: int, k: int, i: int)
    requires GivesLevel(messages, j, i) && GivesLevel(messages, k, i)
    ensures j == k
  {
  }

  // A message is enabled exactly when the subscriber, as it is then, enables the level given to it.
  lemma AdmittedExactly(messages: seq<Message>, i: nat, j: nat)
    requires Run(messages).Some? && i < |messages| && GivesLevel(messages, j, i)
    ensures Admitted(messages, i) <==> messages[j].level in messages[i].enabled
  {
    CompletesExactly(messages);
    assert messages[0].level != Cont;
    var k := LevelGiver(messages, i);
    GiverUnique(messages, j, k, i);
  }

  // Disabled messages leave no trace.
  lemma {:induction false} DisabledAreSilent(target: string, messages: seq<Message>)
    requires Run(messages).Some? && forall i: nat | i < |messages| :: !Admitted(messages, i)
    ensures Sink(target, messages) == [] && Flat(Run(messages).value) == []
  {
    if messages != [] {
      var before := messages[..|messages| - 1];
      forall i: nat | i < |before| ensures !Admitted(before, i) {
        assert before[..i + 1] == messages[..i + 1] && !Admitted(messages, i);
      }
      DisabledAreSilent(target, before);
      EnabledIsAdmitted(messages);
    }
  }

  // ---- small runs ----------------------------------------------------------------------------------------

  lemma RunOfOne(target: string, m: Message)
    requires Traceable(m.level)
    ensures Run([m]) == Some(Step(INITIAL, m)) && Sink(target, [m]) == Emits(target, INITIAL, m)
  {
    RunSnoc([], m);
    assert [] + [m] == [m] && [m][..0] == [];
  }

  // One enabled line at any of the four levels is one log at that level, without its newline.
  lemma OneLine(target: string, level: Level, text: string, enabled: set<Level>)
    requires level == Debug || level == Info || level == Warn || level == Error
    requires level in enabled
    ensures var messages := [Message(level, text + "\n", enabled)];
            && Run(messages).Some?
            && Run(messages).value.records == [Record(level, [Fragment(0, text + "\n")], true)]
            && Sink(target, messages) == [LogEvent(target, level, text)]
            && LogEvent(target, level, text).level == level
  {
    var m := Message(level, text + "\n", enabled);
    RunOfOne(target, m);
    assert EndsLine(m.text) && Logged(m.text, true) == text;
  }

  lemma RunOfTwo(target: string, m: Message, c: Message)
    requires Traceable(m.level) && (c.level.Cont? || Traceable(c.level))
    ensures Run([m, c]) == Some(Step(Step(INITIAL, m), c))
    ensures Sink(target, [m, c]) == Emits(target, INITIAL, m) + Emits(target, Step(INITIAL, m), c)
  {
    RunOfOne(target, m);
    RunSnoc([m], c);
    assert [m] + [c] == [m, c] && [m, c][..1] == [m];
  }

  lemma TextOfTwo(x: Fragment, y: Fragment)
    ensures Text([x, y]) == x.text + y.text
  {
    TextOne(x);
    TextSnoc([x], y);
    assert [x] + [y] == [x, y];
  }

  // An unterminated message and the continuation that ends it are one log of the joined text.
  lemma ContinuedLine(target: string, level: Level, a: string, b: string, enabled: set<Level>)
    requires level == Debug || level == Info || level == Warn || level == Error
    requires level in enabled && (a == "" || a[|a| - 1] != '\n')
    ensures var messages := [Message(level, a, enabled), Message(Cont, b + "\n", enabled)];
            && Run(messages).Some? && Run(messages).value.pending == None
            && Sink(target, messages) == [LogEvent(target, level, a + (b + "\n"))]
  {
    var m, c := Message(level, a, enabled), Message(Cont, b + "\n", enabled);
    var x, y := Fragment(0, a), Fragment(1, b + "\n");
    RunOfTwo(target, m, c);
    assert Step(INITIAL, m) == State(Some((level, [x])), level, true, [], 1);
    TextOfTwo(x, y);
    assert [x] + [y] == [x, y];
    assert EndsLine(a + (b + "\n"));
  }

  // A line without a level is information, and one of an unknown level a warning; neither is a log.
  lemma UnloggableLines(target: string, s: State, code: int, text: string)
    requires !s.isBuffering
    ensures EmitsLine(target, s, NoLevel, text + "\n") == [UnlevelledInfo(text)]
    ensures EmitsLine(target, s, Unknown(code), text + "\n") == [UnknownLevelWarning(Unknown(code), text)]
  {
    assert (text + "\n")[..|text|] == text;
  }

  // A flush first warns, with the level and the text that it then logs.
  lemma FlushWarnsOfItsText(target: string, s: State)
    requires s.pending.Some?
    ensures var text := Text(s.pending.value.1);
            && EmitsSpurious(target, s) == [SpuriousWarning(s.pending.value.0, text), LogEvent(target, s.pending.value.0, text)]
            && EmitsBuffer(target, s) == [UnflushedWarning(s.pending.value.0, text), LogEvent(target, s.pending.value.0, text)]
  {
  }

  // ---- the outline of everything emitted -----------------------------------------------------------------

  // An event by its kind and level, with the text of an orphan.
  datatype Mark =
    | Logs(level: Level)
    | WarnsOrphan(level: Level, text: string)
    | WarnsUnflushed(level: Level)
    | WarnsSpurious(level: Level)
    | Other

  function MarkOf(e: Event): Mark {
    match e
    case Log(level, _, _) => Logs(level)
    case OrphanWarning(level, text) => WarnsOrphan(level, text)
    case UnflushedWarning(level, _) => WarnsUnflushed(level)
    case SpuriousWarning(level, _) => WarnsSpurious(level)
    case UnlevelledInfo(_) => Other
    case UnknownLevelWarning(_, _) => Other
  }

  function Marks(events: seq<Event>): (marks: seq<Mark>)
    ensures |marks| == |events| && forall i | 0 <= i < |events| :: marks[i] == MarkOf(events[i])
  {
    seq(|events|, i requires 0 <= i < |events| => MarkOf(events[i]))
  }

  function ContinuationMarks(held: Held, latest: Level, text: string): seq<Mark> {
    match held
    case Nothing => [WarnsOrphan(latest, text)]
    case Open(level, _, ends) => if EndsAfter(ends, text) then [Logs(level)] else []
  }

  function LineMarks(held: Held, level: Level): seq<Mark> {
    (if held.Open? && !held.orphaned then [WarnsSpurious(held.level), Logs(held.level)] else []) + [Logs(level)]
  }

  function StartMarks(held: Held): seq<Mark> {
    if held.Open? then [WarnsUnflushed(held.level), Logs(held.level)] else []
  }

  // What message `i` makes visible: an orphan is warned of; a continuation that ends an open text logs it; a
  // line first flushes an open text that is not orphaned; an unterminated message flushes any open text.
  function MarksAt(messages: seq<Message>, i: nat): seq<Mark>
    requires i < |messages|
  {
    var m, held := messages[i], Leaves(messages[..i]);
    if !Admitted(messages, i) then []
    else if m.level == Cont then ContinuationMarks(held, LatestLevel(messages[..i]), m.text)
    else if EndsLine(m.text) then LineMarks(held, m.level)
    else StartMarks(held)
  }

  function Outline(messages: seq<Message>): seq<Mark> {
    if messages == [] then [] else Outline(messages[..|messages| - 1]) + MarksAt(messages, |messages| - 1)
  }

  lemma ContinuationEmits(target: string, s: State, f: Fragment, held: Held)
    requires HoldsOpen(s, held)
    ensures Marks(EmitsContinue(target, s, f)) == ContinuationMarks(held, s.previousLevel, f.text)
  {
    if s.pending.Some? {
      EndsSnoc(s.pending.value.1, f);
    }
  }

  lemma LineEmits(target: string, s: State, level: Level, text: string, held: Held)
    requires HoldsOpen(s, held) && Traceable(level)
    ensures Marks(EmitsLine(target, s, level, text)) == LineMarks(held, level)
  {
  }

  lemma StartEmits(target: string, s: State, held: Held)
    requires HoldsOpen(s, held)
    ensures Marks(EmitsBuffer(target, s)) == StartMarks(held)
  {
  }

  lemma MarksEmitted(target: string, messages: seq<Message>)
    requires messages != [] && Run(messages).Some?
    ensures var last := |messages| - 1;
            Marks(Emits(target, Run(messages[..last]).value, messages[last])) == MarksAt(messages, last)
  {
    var last := |messages| - 1;
    var s, m, held := Run(messages[..last]).value, messages[last], Leaves(messages[..last]);
    BufferIsLeft(messages[..last]);
    AbortsExactly(messages[..last]);
    EnabledIsAdmitted(messages);
    if Enabled(s, m) {
      if m.level.Cont? {
        ContinuationEmits(target, s, Fragment(s.clock, m.text), held);
      } else if EndsLine(m.text) {
        LineEmits(target, s, m.level, m.text, held);
      } else {
        StartEmits(target, s, held);
      }
    }
  }

  lemma MarksConcat(a: seq<Event>, b: seq<Event>)
    ensures Marks(a + b) == Marks(a) + Marks(b)
  {
  }

  // A run emits exactly its outline: every warning and every log, in order, with its level.
  lemma {:induction false} OutlineIsEmitted(target: string, messages: seq<Message>)
    requires Run(messages).Some?
    ensures Marks(Sink(target, messages)) == Outline(messages)
  {
    if messages != [] {
      var last := |messages| - 1;
      OutlineIsEmitted(target, messages[..last]);
      MarksEmitted(target, messages);
      MarksConcat(Sink(target, messages[..last]), Emits(target, Run(messages[..last]).value, messages[last]));
    }
  }

  // The orphans of a run, by level and text, in order.
  function Orphans(messages: seq<Message>): seq<Mark>
    requires Run(messages).Some?
  {
    if messages == [] then []
    else
      var before, m := messages[..|messages| - 1], messages[|messages| - 1];
      Orphans(before) +
      if Orphan(Run(before).value, m) then [WarnsOrphan(LatestLevel(before), m.text)] else []
  }

  function OrphanMarks(marks: seq<Mark>): seq<Mark> {
    if marks == [] then []
    else
      var last := |marks| - 1;
      OrphanMarks(marks[..last]) + if marks[last].WarnsOrphan? then [marks[last]] else []
  }

  lemma {:induction false} OrphanMarksConcat(a: seq<Mark>, b: seq<Mark>)
    ensures OrphanMarks(a + b) == OrphanMarks(a) + OrphanMarks(b)
  {
    if b == [] {
      assert a + b == a;
    } else {
      var last := |b| - 1;
      OrphanMarksConcat(a, b[..last]);
      assert (a + b)[..|a| + last] == a + b[..last] && (a + b)[|a| + last] == b[last];
    }
  }

  lemma OrphanMarksOfOne(mark: Mark)
    ensures OrphanMarks([mark]) == if mark.WarnsOrphan? then [mark] else []
  {
    assert [mark][..0] == [];
  }

  lemma {:induction false} NoOrphanMarks(marks: seq<Mark>)
    requires forall mark <- marks :: !mark.WarnsOrphan?
    ensures OrphanMarks(marks) == []
  {
    if |marks| > 0 {
      assert marks[|marks| - 1] in marks;
      NoOrphanMarks(marks[..|marks| - 1]);
    }
  }

  lemma OrphanMarksHere(messages: seq<Message>)
    requires messages != [] && Run(messages).Some?
    ensures var last := |messages| - 1;
            var before := messages[..last];
            OrphanMarks(MarksAt(messages, last)) ==
            if Orphan(Run(before).value, messages[last]) then [WarnsOrphan(LatestLevel(before), messages[last].text)]
            else []
  {
    var last := |messages| - 1;
    BufferIsLeft(messages[..last]);
    EnabledIsAdmitted(messages);
    if Orphan(Run(messages[..last]).value, messages[last]) {
      OrphanMarksOfOne(WarnsOrphan(LatestLevel(messages[..last]), messages[last].text));
    } else {
      NoOrphanMarks(MarksAt(messages, last));
    }
  }

  // The orphan warnings of a run are exactly its orphans, in order.
  lemma {:induction false} OrphansAreWarned(target: string, messages: seq<Message>)
    requires Run(messages).Some?
    ensures OrphanMarks(Marks(Sink(target, messages))) == Orphans(messages)
    ensures OrphanFree(messages) <==> Orphans(messages) == []
  {
    OutlineIsEmitted(target, messages);
    if messages != [] {
      var last := |messages| - 1;
      OutlineIsEmitted(target, messages[..last]);
      OrphansAreWarned(target, messages[..last]);
      OrphanMarksConcat(Outline(messages[..last]), MarksAt(messages, last));
      OrphanMarksHere(messages);
    }
  }
}

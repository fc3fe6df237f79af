/** From records to the events handed to tracing and back: module prefixes and stripped newlines. */
module LogText {
  import opened Wrappers
  import opened LogModel
  import LogOrder

  datatype Event =
    | Log(level: Level, subModule: Option<string>, text: string)
    | OrphanWarning(level: Level, text: string)
    | UnflushedWarning(level: Level, text: string)
    | SpuriousWarning(level: Level, text: string)
    | UnlevelledInfo(text: string)
    | UnknownLevelWarning(level: Level, text: string)

  predicate PrefixChar(c: char) {
    'a' <= c <= 'z' || c == '_'
  }

  // The length of the leading run of lowercase letters and underscores.
  function PrefixLength(text: string): (n: nat)
    ensures n <= |text| && (forall i | 0 <= i < n :: PrefixChar(text[i]))
    ensures n < |text| ==> !PrefixChar(text[n])
  {
    if text == [] || !PrefixChar(text[0]) then 0 else 1 + PrefixLength(text[1..])
  }

  // The event for `text`: a leading "name: " becomes a module below `target`.
  function LogEvent(target: string, level: Level, text: string): Event {
    var n := PrefixLength(text);
    if n > 0 && n + 2 <= |text| && text[n..n + 2] == ": "
    then Log(level, Some(target + "::" + text[..n]), text[n + 2..])
    else Log(level, None, text)
  }

  // The text that an event was made from.
  function Rejoin(target: string, e: Event): string
    requires e.Log? && (e.subModule.Some? ==> |target| + 2 <= |e.subModule.value|)
  {
    match e.subModule
    case None => e.text
    case Some(name) => name[|target| + 2..] + ": " + e.text
  }

  predicate ModuleName(s: string) {
    s != [] && forall c <- s :: 'a' <= c <= 'z' || c == '_'
  }

  // A text is split exactly when it is a module name, ": " and a rest; nothing is lost.
  lemma SplitsExactly(target: string, level: Level, text: string)
    ensures var e := LogEvent(target, level, text);
            && e.Log? && e.level == level
            && (e.subModule.Some? ==> |target| + 2 <= |e.subModule.value|)
            && Rejoin(target, e) == text
    ensures forall name, rest | ModuleName(name) && text == name + ": " + rest ::
              LogEvent(target, level, text) == Log(level, Some(target + "::" + name), rest)
    ensures LogEvent(target, level, text).subModule.Some? ==>
              exists name, rest :: ModuleName(name) && text == name + ": " + rest
  {
    var n := PrefixLength(text);
    if n > 0 && n + 2 <= |text| && text[n..n + 2] == ": " {
      assert text == text[..n] + ": " + text[n + 2..];
      assert ModuleName(text[..n]);
      assert (target + "::" + text[..n])[|target| + 2..] == text[..n];
    }
    forall name, rest | ModuleName(name) && text == name + ": " + rest
      ensures LogEvent(target, level, text) == Log(level, Some(target + "::" + name), rest)
    {
      assert forall i | 0 <= i < |name| :: text[i] == name[i] && name[i] in name;
      assert text[|name|] == ':';
      assert n == |name|;
      assert text[..n] == name && text[n..n + 2] == ": " && text[n + 2..] == rest;
    }
  }

  function Logged(text: string, line: bool): string {
    if line && text != [] then text[..|text| - 1] else text
  }

  function RecordEvent(target: string, r: Record): Event {
    LogEvent(target, r.level, Logged(Text(r.fragments), r.line))
  }

  function Events(target: string, records: seq<Record>): seq<Event> {
    if records == [] then []
    else Events(target, records[..|records| - 1]) + [RecordEvent(target, records[|records| - 1])]
  }

  // The logged text with its module prefix and its newline put back.
  function Restored(target: string, r: Record): string {
    SplitsExactly(target, r.level, Logged(Text(r.fragments), r.line));
    Rejoin(target, RecordEvent(target, r)) + if r.line then "\n" else ""
  }

  function Transcript(target: string, records: seq<Record>): string {
    if records == [] then ""
    else Transcript(target, records[..|records| - 1]) + Restored(target, records[|records| - 1])
  }

  lemma {:induction false} TextConcat(a: seq<Fragment>, b: seq<Fragment>)
    ensures Text(a + b) == Text(a) + Text(b)
  {
    if b == [] {
      assert a + b == a;
    } else {
      var last := |b| - 1;
      TextConcat(a, b[..last]);
      assert (a + b)[..|a| + last] == a + b[..last] && (a + b)[|a| + last] == b[last];
      Assoc(Text(a), Text(b[..last]), b[last].text);
    }
  }

  // Only whole lines are logged without their newline.
  ghost predicate LinesEnd(s: State) {
    forall r <- s.records :: r.line ==> EndsLine(Text(r.fragments))
  }

  lemma {:induction false} RunLinesEnd(messages: seq<Message>)
    requires Run(messages).Some?
    ensures LinesEnd(Run(messages).value)
  {
    if messages != [] {
      var last := |messages| - 1;
      RunLinesEnd(messages[..last]);
      var f := Fragment(Run(messages[..last]).value.clock, messages[last].text);
      assert Text([f]) == Text([]) + f.text == f.text;
    }
  }

  lemma RestoredIsText(target: string, r: Record)
    requires r.line ==> EndsLine(Text(r.fragments))
    ensures Restored(target, r) == Text(r.fragments)
  {
    SplitsExactly(target, r.level, Logged(Text(r.fragments), r.line));
  }

  lemma {:induction false} TranscriptText(target: string, records: seq<Record>)
    requires forall r <- records :: r.line ==> EndsLine(Text(r.fragments))
    ensures Transcript(target, records) == Text(RecordFragments(records))
  {
    if records != [] {
      var last := |records| - 1;
      var r := records[last];
      TranscriptText(target, records[..last]);
      TextConcat(RecordFragments(records[..last]), r.fragments);
      RestoredIsText(target, r);
    }
  }

  // Unless a line overtakes an orphan, the logged texts in order, restored, and then the buffer, spell the
  // enabled input.
  lemma TranscriptIsInput(target: string, messages: seq<Message>)
    requires Run(messages).Some?
    requires forall i | 0 <= i < |messages| :: !LogOrder.LineOverOrphan(messages, i)
    ensures Transcript(target, Run(messages).value.records) + Text(PendingFragments(Run(messages).value))
            == Text(AdmittedFragments(messages))
  {
    var s := Run(messages).value;
    LogOrder.OrderKeptByMessages(messages);
    RunLinesEnd(messages);
    TranscriptText(target, s.records);
    TextConcat(RecordFragments(s.records), PendingFragments(s));
  }

  // ---- everything that is emitted, in order --------------------------------------------------------------

  function EmitsContinue(target: string, s: State, f: Fragment): seq<Event> {
    match s.pending
    case None => [OrphanWarning(s.previousLevel, f.text)]
    case Some((level, fragments)) =>
      if EndsLine(Text(fragments + [f])) then [RecordEvent(target, Record(level, fragments + [f], false))] else []
  }

  function EmitsBuffer(target: string, s: State): seq<Event> {
    match s.pending
    case None => []
    case Some((level, fragments)) =>
      [UnflushedWarning(level, Text(fragments)), RecordEvent(target, Record(level, fragments, false))]
  }

  function EmitsSpurious(target: string, s: State): seq<Event> {
    match s.pending
    case None => []
    case Some((level, fragments)) =>
      [SpuriousWarning(level, Text(fragments)), RecordEvent(target, Record(level, fragments, false))]
  }

  // The event for a whole line without its newline: a log, or a report of a level that cannot be logged.
  function LineEvent(target: string, level: Level, text: string): Event {
    if Traceable(level) then LogEvent(target, level, text)
    else if level.NoLevel? then UnlevelledInfo(text)
    else UnknownLevelWarning(level, text)
  }

  function EmitsLine(target: string, s: State, level: Level, text: string): seq<Event> {
    (if s.isBuffering then EmitsSpurious(target, s) else []) + [LineEvent(target, level, Logged(text, true))]
  }

  // The events of one message, warnings and logs in the order in which they are emitted.
  function Emits(target: string, s: State, m: Message): seq<Event> {
    if !Enabled(s, m) then []
    else if m.level.Cont? then EmitsContinue(target, s, Fragment(s.clock, m.text))
    else if EndsLine(m.text) then EmitsLine(target, s, m.level, m.text)
    else EmitsBuffer(target, s)
  }

  // The events of a run.
  function Sink(target: string, messages: seq<Message>): seq<Event>
    requires Run(messages).Some?
  {
    if messages == [] then []
    else
      var before, m := messages[..|messages| - 1], messages[|messages| - 1];
      Sink(target, before) + Emits(target, Run(before).value, m)
  }

  // The generated logs among the events.
  function Logs(events: seq<Event>): seq<Event> {
    if events == [] then []
    else (if events[0].Log? then [events[0]] else []) + Logs(events[1..])
  }

  lemma Assoc<T>(a: seq<T>, b: seq<T>, c: seq<T>)
    ensures a + b + c == a + (b + c)
  {
  }

  lemma {:induction false} LogsConcat(a: seq<Event>, b: seq<Event>)
    ensures Logs(a + b) == Logs(a) + Logs(b)
  {
    if a == [] {
      assert a + b == b;
    } else {
      var head := if a[0].Log? then [a[0]] else [];
      LogsConcat(a[1..], b);
      assert (a + b)[1..] == a[1..] + b && (a + b)[0] == a[0];
      Assoc(head, Logs(a[1..]), Logs(b));
    }
  }

  lemma EventsAppend(target: string, records: seq<Record>, r: Record)
    ensures Events(target, records + [r]) == Events(target, records) + [RecordEvent(target, r)]
  {
    assert (records + [r])[..|records|] == records;
  }

  lemma TextSnoc(fragments: seq<Fragment>, f: Fragment)
    ensures Text(fragments + [f]) == Text(fragments) + f.text
  {
    assert (fragments + [f])[..|fragments|] == fragments;
  }

  lemma TextOne(f: Fragment)
    ensures Text([f]) == f.text
  {
    TextSnoc([], f);
    assert [] + [f] == [f];
  }

  lemma LogsOfOne(e: Event)
    ensures Logs([e]) == if e.Log? then [e] else []
  {
    assert [e][1..] == [];
  }

  lemma FlushLogs(target: string, s: State, warning: Event, e: Event)
    requires !warning.Log? && s.pending.Some?
    requires e == RecordEvent(target, Record(s.pending.value.0, s.pending.value.1, false))
    ensures Events(target, Flush(s).records) == Events(target, s.records) + Logs([warning, e])
  {
    EventsAppend(target, s.records, Record(s.pending.value.0, s.pending.value.1, false));
    assert [warning, e][1..] == [e];
    LogsOfOne(e);
  }

  lemma SpuriousLogs(target: string, s: State)
    ensures Events(target, Flush(s).records) == Events(target, s.records) + Logs(EmitsSpurious(target, s))
  {
    if s.pending.Some? {
      FlushLogs(target, s, EmitsSpurious(target, s)[0], EmitsSpurious(target, s)[1]);
    }
  }

  lemma LineRecord(target: string, records: seq<Record>, level: Level, f: Fragment)
    requires Traceable(level)
    ensures Events(target, records + [Record(level, [f], true)])
            == Events(target, records) + [LineEvent(target, level, Logged(f.text, true))]
    ensures LineEvent(target, level, Logged(f.text, true)).Log?
  {
    TextOne(f);
    EventsAppend(target, records, Record(level, [f], true));
  }

  lemma LogsSnoc(events: seq<Event>, e: Event)
    requires e.Log?
    ensures Logs(events + [e]) == Logs(events) + [e]
  {
    LogsConcat(events, [e]);
    LogsOfOne(e);
  }

  lemma LineLogs(target: string, s: State, level: Level, f: Fragment)
    requires Traceable(level)
    ensures Events(target, Line(s, level, f).records)
            == Events(target, s.records) + Logs(EmitsLine(target, s, level, f.text))
  {
    hide Logs, Events, LineEvent, Text;
    var e := LineEvent(target, level, Logged(f.text, true));
    if s.isBuffering {
      SpuriousLogs(target, s);
      LineRecord(target, Flush(s).records, level, f);
      LogsSnoc(EmitsSpurious(target, s), e);
      Assoc(Events(target, s.records), Logs(EmitsSpurious(target, s)), [e]);
    } else {
      LineRecord(target, s.records, level, f);
      LogsOfOne(e);
      assert [] + [e] == [e];
    }
  }

  // The logs that a message emits are the records that it adds.
  lemma EmittedLogs(target: string, s: State, m: Message)
    requires Traceable(DecidingLevel(s, m.level))
    ensures Events(target, Step(s, m).records) == Events(target, s.records) + Logs(Emits(target, s, m))
  {
    var f := Fragment(s.clock, m.text);
    if Enabled(s, m) {
      if m.level.Cont? {
        if s.pending.Some? {
          var r := Record(s.pending.value.0, s.pending.value.1 + [f], false);
          EventsAppend(target, s.records, r);
          LogsOfOne(RecordEvent(target, r));
        } else {
          LogsOfOne(OrphanWarning(s.previousLevel, f.text));
        }
      } else if EndsLine(m.text) {
        LineLogs(target, s, m.level, f);
      } else if s.pending.Some? {
        FlushLogs(target, s, EmitsBuffer(target, s)[0], EmitsBuffer(target, s)[1]);
      }
    }
  }

  // Over a run, the logs among everything emitted are exactly the records, in order.
  lemma {:induction false} SinkHoldsRecords(target: string, messages: seq<Message>)
    requires Run(messages).Some?
    ensures Logs(Sink(target, messages)) == Events(target, Run(messages).value.records)
  {
    if messages != [] {
      var before, m := messages[..|messages| - 1], messages[|messages| - 1];
      SinkHoldsRecords(target, before);
      EmittedLogs(target, Run(before).value, m);
      LogsConcat(Sink(target, before), Emits(target, Run(before).value, m));
    }
  }
}

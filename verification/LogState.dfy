/** The log state behind the native log callback: a text buffer, a flag and the previous level. */
module LogStates {
  import opened Wrappers
  import opened LogText
  import Model = LogModel

  type Level = Model.Level

  class LogState {
    const disabled: bool
    const target: string
    var buffered: Option<(Level, string)>
    var previousLevel: Level
    var isBuffering: bool
    // What reaches the tracing dispatcher.
    var sink: seq<Event>
    // The same state on identified fragments.
    ghost var model: Model.State

    ghost predicate Valid()
      reads this
    {
      && buffered == (if model.pending.None? then None
                      else Some((model.pending.value.0, Model.Text(model.pending.value.1))))
      && previousLevel == model.previousLevel
      && isBuffering == model.isBuffering
    }

    // Whatever is buffered can be logged.
    predicate Loggable()
      reads this
    {
      buffered.Some? ==> Model.Traceable(buffered.value.0)
    }

    constructor (target: string, disabled: bool)
      ensures Valid() && model == Model.INITIAL && sink == []
      ensures this.target == target && this.disabled == disabled
    {
      this.disabled := disabled;
      this.target := target;
      buffered := None;
      previousLevel := Model.NoLevel;
      isBuffering := false;
      sink := [];
      model := Model.INITIAL;
    }

    method GenerateLog(level: Level, text: string)
      requires Model.Traceable(level)
      modifies `sink
      ensures sink == old(sink) + [LogEvent(target, level, text)]
    {
      sink := sink + [LogEvent(target, level, text)];
    }

    method ContBufferedLog(text: string)
      requires Valid() && Loggable()
      modifies this
      ensures Valid()
      ensures model == Model.Continue(old(model), Model.Fragment(old(model.clock), text))
      ensures sink == old(sink) + EmitsContinue(target, old(model), Model.Fragment(old(model.clock), text))
    {
      ghost var f := Model.Fragment(model.clock, text);
      if buffered.Some? {
        var (level, buffer) := buffered.value;
        buffered := None;
        buffer := buffer + text;
        TextSnoc(model.pending.value.1, f);
        if Model.EndsLine(buffer) {
          isBuffering := false;
          GenerateLog(level, buffer);
        } else {
          buffered := Some((level, buffer));
        }
      } else {
        sink := sink + [OrphanWarning(previousLevel, text)];
        buffered := Some((previousLevel, text));
        TextOne(f);
      }
      model := Model.Continue(model, f);
    }

    method BufferNonCont(level: Level, text: string)
      requires Valid() && Loggable() && !level.Cont? && !Model.EndsLine(text)
      modifies this
      ensures Valid()
      ensures model == Model.Buffer(old(model), level, Model.Fragment(old(model.clock), text))
      ensures sink == old(sink) + EmitsBuffer(target, old(model))
    {
      ghost var f := Model.Fragment(model.clock, text);
      TextOne(f);
      var replaced := buffered;
      buffered := Some((level, text));
      if replaced.Some? {
        var (previous, buffer) := replaced.value;
        sink := sink + [UnflushedWarning(previous, buffer)];
        GenerateLog(previous, buffer);
      }
      isBuffering := true;
      previousLevel := level;
      model := Model.Buffer(model, level, f);
    }

    method EmitNonContLine(level: Level, text: string)
      requires Valid() && Loggable() && !level.Cont? && Model.EndsLine(text)
      modifies this
      ensures Valid()
      ensures model == if Model.Traceable(level)
                       then Model.Line(old(model), level, Model.Fragment(old(model.clock), text))
                       else Model.DropLine(old(model), level)
      ensures sink == old(sink) + EmitsLine(target, old(model), level, text)
    {
      FlushUnderFlag();
      previousLevel := level;
      var line := text[..|text| - 1];
      match level {
        case NoLevel =>
          sink := sink + [UnlevelledInfo(line)];
        case Debug => GenerateLog(level, line);
        case Info => GenerateLog(level, line);
        case Warn => GenerateLog(level, line);
        case Error => GenerateLog(level, line);
        case Unknown(_) =>
          sink := sink + [UnknownLevelWarning(level, line)];
      }
      ghost var f := Model.Fragment(model.clock, text);
      model := model.(previousLevel := level, records := model.records +
        if Model.Traceable(level) then [Model.Record(level, [f], true)] else []);
    }

    // Clears the flag, and flushes the buffer if the flag was set.
    method FlushUnderFlag()
      requires Valid() && Loggable()
      modifies this
      ensures Valid()
      ensures model == (if old(isBuffering) then Model.Flush(old(model)) else old(model)).(isBuffering := false)
      ensures sink == old(sink) + if old(isBuffering) then EmitsSpurious(target, old(model)) else []
    {
      if isBuffering && buffered.Some? {
        var (level, text) := buffered.value;
        buffered := None;
        sink := sink + [SpuriousWarning(level, text)];
        GenerateLog(level, text);
        model := Model.Flush(model);
      }
      isBuffering := false;
      model := model.(isBuffering := false);
    }

    method UpdatePreviousLevelForDisabledLog(level: Level)
      requires Valid()
      modifies this
      ensures Valid() && model == Model.Disabled(old(model), level)
      ensures sink == old(sink)
    {
      if !level.Cont? {
        previousLevel := level;
      }
      model := Model.Disabled(model, level);
    }

    // The subscriber's answer for the deciding level; none when that level has no metadata.
    function IsEnabledForLevel(level: Level, enabled: set<Level>): (answer: Option<bool>)
      requires Valid()
      reads this
      ensures answer.Some? <==> Model.Traceable(Model.DecidingLevel(model, level))
      ensures answer.Some? ==> answer.value == (Model.DecidingLevel(model, level) in enabled)
    {
      var level := if level.Cont? then previousLevel else level;
      if Model.Traceable(level) then Some(level in enabled) else None
    }

    // One native log call. It does not complete when the level check reaches its `unreachable!`.
    method LogsToTrace(message: Model.Message) returns (completed: bool)
      requires Valid() && Loggable()
      modifies this
      ensures disabled ==> completed && sink == old(sink) && model == old(model)
      ensures !disabled ==> completed == Model.Traceable(Model.DecidingLevel(old(model), message.level))
      ensures !disabled && completed ==> model == Model.Step(old(model), message)
      ensures !disabled && completed ==> sink == old(sink) + Emits(target, old(model), message)
      ensures completed ==> Valid() && Loggable()
    {
      if disabled {
        return true;
      }
      var answer := IsEnabledForLevel(message.level, message.enabled);
      if answer.None? {
        return false;
      }
      if !answer.value {
        UpdatePreviousLevelForDisabledLog(message.level);
      } else {
        Dispatch(message);
      }
      model := model.(clock := model.clock + 1);
      completed := true;
    }

    // The enabled kinds of message: a continuation, a whole line, or the start of one.
    method Dispatch(message: Model.Message)
      requires Valid() && Loggable()
      requires Model.Traceable(Model.DecidingLevel(model, message.level)) && Model.Enabled(model, message)
      modifies this
      ensures Valid() && Loggable() && model == Model.Step(old(model), message).(clock := old(model.clock))
      ensures sink == old(sink) + Emits(target, old(model), message)
    {
      var level, text := message.level, message.text;
      if level.Cont? {
        ContBufferedLog(text);
      } else if Model.EndsLine(text) {
        EmitNonContLine(level, text);
      } else {
        BufferNonCont(level, text);
      }
    }

    // A whole run of calls is the run of the model, cut short at the same message.
    method Run(messages: seq<Model.Message>) returns (completed: bool)
      requires Valid() && model == Model.INITIAL && sink == [] && !disabled
      modifies this
      ensures completed == Model.Run(messages).Some?
      ensures completed ==> Valid() && model == Model.Run(messages).value && sink == Sink(target, messages)
    {
      for i := 0 to |messages|
        invariant Valid() && Loggable() && Model.Run(messages[..i]) == Some(model) && sink == Sink(target, messages[..i])
      {
        assert messages[..i + 1][..i] == messages[..i];
        completed := LogsToTrace(messages[i]);
        if !completed {
          Model.AbortsLonger(messages, i + 1);
          return;
        }
      }
      assert messages[..|messages|] == messages;
      completed := true;
    }
  }
}

/** Appenders, loggers and the logging macro. The spin locks that log.cpp takes inside each
    method are not part of this module: every method is one atomic step. */
module Loggers {
  import opened Wrappers
  import opened LogPattern
  import opened LogFormatters

  datatype AppenderKind = FileAppender | StdoutAppender

  /** What a caller can tell about an appender and a logger; formatters are known by their pattern. */
  datatype AppenderState = AppenderState(kind: AppenderKind, file: string, pattern: Option<string>)
  datatype LoggerState = LoggerState(level: LogLevel, pattern: string, appenders: seq<AppenderState>)

  /** What a logger hands to its appenders for one event, one text each, in order. */
  predicate HasPatterns(s: LoggerState) {
    forall i | 0 <= i < |s.appenders| :: s.appenders[i].pattern.Some?
  }

  function Printed(s: LoggerState, event: Event): seq<string>
    requires HasPatterns(s)
  {
    seq(|s.appenders|, i requires 0 <= i < |s.appenders| =>
      RenderAll(CompiledItems(s.appenders[i].pattern.value), s.level, event))
  }

  /** An appender without a formatter is given one with this pattern. */
  function WithPattern(s: AppenderState, pattern: string): AppenderState {
    if s.pattern.None? then s.(pattern := Some(pattern)) else s
  }

  class LogAppender {
    const kind: AppenderKind
    const file: string
    var formatter: LogFormatter?

    constructor (kind: AppenderKind, file: string)
      ensures View() == AppenderState(kind, file, None)
    {
      this.kind, this.file, formatter := kind, file, null;
    }

    function View(): AppenderState
      reads this
    {
      AppenderState(kind, file, if formatter == null then None else Some(formatter.pattern))
    }

    /** An invalid pattern leaves the formatter as it was. */
    method SetFormatter(pattern: string)
      modifies this`formatter
      ensures if HasError(EffectivePattern(pattern)) then formatter == old(formatter)
              else formatter != null && fresh(formatter) && formatter.Compiled()
                   && formatter.pattern == EffectivePattern(pattern)
    {
      var newFormatter := new LogFormatter(pattern);
      if newFormatter.error {
        return;
      }
      formatter := newFormatter;
    }

    method Log(loggerLevel: LogLevel, event: Event) returns (text: string)
      requires formatter != null && formatter.Compiled()
      ensures text == RenderAll(CompiledItems(formatter.pattern), loggerLevel, event)
    {
      text := formatter.Format(loggerLevel, event);
    }
  }

  function Views(appenders: seq<LogAppender>): (s: seq<AppenderState>)
    reads appenders
    ensures |s| == |appenders|
    ensures forall i | 0 <= i < |s| :: s[i] == appenders[i].View()
  {
    if appenders == [] then [] else [appenders[0].View()] + Views(appenders[1..])
  }

  lemma {:induction false} ViewsSnoc(appenders: seq<LogAppender>, a: LogAppender)
    ensures Views(appenders + [a]) == Views(appenders) + [a.View()]
  {
  }

  class Logger {
    const name: string
    var level: LogLevel
    var formatter: LogFormatter
    var appenders: seq<LogAppender>

    constructor (name: string)
      ensures this.name == name && fresh(formatter) && Ready()
      ensures View() == LoggerState(ALL, DEFAULT_PATTERN, [])
    {
      this.name, level, appenders := name, ALL, [];
      formatter := new LogFormatter("");
    }

    function View(): LoggerState
      reads this, appenders
    {
      LoggerState(level, formatter.pattern, Views(appenders))
    }

    /** Every formatter is compiled, and every appender has one, as `AddAppender` sees to. */
    ghost predicate Ready()
      reads this, formatter, appenders, set a | a in appenders && a.formatter != null :: a.formatter
    {
      formatter.Compiled() && forall a | a in appenders :: a.formatter != null && a.formatter.Compiled()
    }

    method SetLevel(level: LogLevel)
      modifies this`level
      ensures View() == old(View()).(level := level)
      ensures old(Ready()) ==> Ready()
    {
      this.level := level;
    }

    /** An invalid pattern leaves the formatter as it was. */
    method SetFormatter(pattern: string)
      modifies this`formatter
      ensures View() == if HasError(EffectivePattern(pattern)) then old(View())
                        else old(View()).(pattern := EffectivePattern(pattern))
      ensures old(Ready()) ==> Ready()
    {
      var newFormatter := new LogFormatter(pattern);
      if newFormatter.error {
        return;
      }
      formatter := newFormatter;
    }

    /** An appender without a formatter takes the logger's. */
    method AddAppender(appender: LogAppender)
      modifies this`appenders, appender`formatter
      ensures appenders == old(appenders) + [appender]
      ensures appender.formatter == if old(appender.formatter) == null then formatter else old(appender.formatter)
      ensures appender.View() == WithPattern(old(appender.View()), formatter.pattern)
      ensures old(Ready() && (appender.formatter != null ==> appender.formatter.Compiled())) ==> Ready()
    {
      if appender.formatter == null {
        appender.formatter := formatter;
      }
      appenders := appenders + [appender];
    }

    method ClearAppender()
      modifies this`appenders
      ensures View() == old(View()).(appenders := [])
      ensures old(Ready()) ==> Ready()
    {
      appenders := [];
    }

    /** The level is the logger's own, which is what `%p` prints. */
    method Log(level: LogLevel, event: Event) returns (out: seq<string>)
      requires Ready()
      ensures out == if this.level <= level then Printed(View(), event) else []
    {
      hide CompiledItems, RenderAll, Printed, Views, Ready;
      out := [];
      ReadyHasPatterns();
      if level >= this.level {
        ghost var all := Printed(View(), event);
        for i := 0 to |appenders|
          invariant out == all[..i]
        {
          PrintedAt(event, i);
          var text := appenders[i].Log(this.level, event);
          out := out + [text];
        }
      }
    }

    lemma ReadyHasPatterns()
      requires Ready()
      ensures HasPatterns(View()) && forall event :: |Printed(View(), event)| == |appenders|
    {
      hide LogFormatter.Compiled, RenderAll, CompiledItems;
    }

    lemma PrintedAt(event: Event, i: nat)
      requires Ready() && HasPatterns(View()) && i < |appenders|
      ensures |Printed(View(), event)| == |appenders|
      ensures appenders[i].formatter != null && appenders[i].formatter.Compiled()
      ensures Printed(View(), event)[i] == RenderAll(CompiledItems(appenders[i].formatter.pattern), level, event)
    {
      hide LogFormatter.Compiled, RenderAll, CompiledItems;
    }
  }

  // ---------- the logging macro ----------

  /** An attempt at level `attempt` passes a gate at `level`, and then raises the gate to its own level:
      building the event sets the logger's level. */
  predicate Passes(level: LogLevel, attempt: LogLevel) {
    level <= attempt
  }

  function Raised(level: LogLevel, attempt: LogLevel): LogLevel {
    if Passes(level, attempt) then attempt else level
  }

  function MacroState(s: LoggerState, attempt: LogLevel): LoggerState {
    s.(level := Raised(s.level, attempt))
  }

  function MacroOutput(s: LoggerState, attempt: LogLevel, event: Event): seq<string>
    requires HasPatterns(s)
  {
    if Passes(s.level, attempt) then Printed(MacroState(s, attempt), event) else []
  }

  /** The macro: test the level, build the event (which sets the level), log it on destruction. */
  method SylarLog(logger: Logger, level: LogLevel, event: Event) returns (out: seq<string>)
    requires logger.Ready()
    modifies logger`level
    ensures logger.Ready()
    ensures logger.level == Raised(old(logger.level), level)
    ensures logger.View() == MacroState(old(logger.View()), level)
    ensures HasPatterns(old(logger.View())) && out == MacroOutput(old(logger.View()), level, event)
  {
    out := [];
    if logger.level <= level {
      logger.SetLevel(level);
      out := logger.Log(level, event);
    }
  }
}

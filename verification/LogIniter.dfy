/** The logger manager, and the listener that drives it from one set of definitions to the next. */
module LogIniters {
  import opened Wrappers
  import opened LogPattern
  import opened LogFormatters
  import opened Loggers

  // ---------- definitions ----------

  /** `kind` is 1 for a file, 2 for standard output; any other value makes the listener dereference
      a null appender. */
  datatype AppenderDefinition = AppenderDefinition(kind: int, pattern: string, file: string)
  datatype LogDefinition = LogDefinition(name: string, level: LogLevel, pattern: string,
                                         appenders: seq<AppenderDefinition>)

  predicate ValidDefinition(d: LogDefinition) {
    forall a | a in d.appenders :: a.kind == 1 || a.kind == 2
  }

  /** A `std::set` of definitions, in iteration order: definitions are compared by name alone. */
  ghost predicate DefinitionSet(defs: seq<LogDefinition>) {
    && (forall i, j | 0 <= i < j < |defs| :: defs[i].name != defs[j].name)
    && (forall d | d in defs :: ValidDefinition(d))
  }

  /** `std::set::find`: by name. */
  function Find(defs: seq<LogDefinition>, name: string): (r: Option<LogDefinition>)
    ensures r.Some? ==> r.value in defs && r.value.name == name
    ensures r.None? ==> forall d | d in defs :: d.name != name
  {
    if defs == [] then None
    else if defs[0].name == name then Some(defs[0])
    else Find(defs[1..], name)
  }

  // ---------- what the update does to the states ----------

  type States = map<string, LoggerState>

  const NEW_LOGGER := LoggerState(ALL, DEFAULT_PATTERN, [])

  function StateOf(m: States, name: string): LoggerState {
    if name in m then m[name] else NEW_LOGGER
  }

  predicate Usable(pattern: string) {
    pattern != "" && !HasError(pattern)
  }

  function AppenderFor(a: AppenderDefinition, loggerPattern: string): AppenderState {
    AppenderState(if a.kind == 1 then FileAppender else StdoutAppender,
                  if a.kind == 1 then a.file else "",
                  Some(if Usable(a.pattern) then a.pattern else loggerPattern))
  }

  function AppendersFor(defs: seq<AppenderDefinition>, loggerPattern: string): seq<AppenderState> {
    seq(|defs|, i requires 0 <= i < |defs| => AppenderFor(defs[i], loggerPattern))
  }

  function Configured(s: LoggerState, d: LogDefinition): LoggerState {
    var pattern := if Usable(d.pattern) then d.pattern else s.pattern;
    LoggerState(d.level, pattern, AppendersFor(d.appenders, pattern))
  }

  function SwitchedOff(s: LoggerState): LoggerState {
    s.(level := OFF, appenders := [])
  }

  /** The inner loop: switch off the first `k` old loggers that the new set lacks. */
  function SwitchOffMissing(m: States, defs: seq<LogDefinition>, newDefs: seq<LogDefinition>): States {
    if defs == [] then m else
    var before := SwitchOffMissing(m, defs[..|defs| - 1], newDefs);
    var name := Last(defs).name;
    if Find(newDefs, name).None? then before[name := SwitchedOff(StateOf(before, name))] else before
  }

  predicate Unchanged(oldDefs: seq<LogDefinition>, d: LogDefinition) {
    Find(oldDefs, d.name) == Some(d)
  }

  /** The outer loop over a prefix `defs` of the new set; the inner loop is inside it. */
  function Reconcile(m: States, oldDefs: seq<LogDefinition>, defs: seq<LogDefinition>,
                     newDefs: seq<LogDefinition>): States {
    if defs == [] then m else
    var before := Reconcile(m, oldDefs, defs[..|defs| - 1], newDefs);
    var d := Last(defs);
    if Unchanged(oldDefs, d) then before
    else SwitchOffMissing(before[d.name := Configured(StateOf(before, d.name), d)], oldDefs, newDefs)
  }

  // ---------- one logger ----------

  /** The pattern of a file appender is set twice, to the same effect. */
  method BuildAppender(a: AppenderDefinition) returns (appender: LogAppender)
    requires a.kind == 1 || a.kind == 2
    ensures fresh(appender)
    ensures appender.formatter != null ==> fresh(appender.formatter) && appender.formatter.Compiled()
    ensures forall p :: WithPattern(appender.View(), p) == AppenderFor(a, p)
  {
    hide HasError;
    if a.kind == 1 {
      appender := new LogAppender(FileAppender, a.file);
      if a.pattern != "" {
        appender.SetFormatter(a.pattern);
      }
    } else {
      appender := new LogAppender(StdoutAppender, "");
    }
    if a.pattern != "" {
      appender.SetFormatter(a.pattern);
    }
  }

  method Configure(logger: Logger, d: LogDefinition)
    requires ValidDefinition(d)
    modifies logger
    ensures logger.View() == Configured(old(logger.View()), d)
    ensures old(logger.Ready()) ==> logger.Ready()
  {
    hide HasError, Views, AppendersFor, AppenderFor, WithPattern, LogFormatter.Compiled, Logger.Ready;
    logger.SetLevel(d.level);
    if d.pattern != "" {
      logger.SetFormatter(d.pattern);
    }
    logger.ClearAppender();
    ghost var formatter := logger.formatter;
    NoAppenders(formatter.pattern);
    for k := 0 to |d.appenders|
      invariant logger.level == d.level && logger.formatter == formatter
      invariant fresh(logger.appenders) && (old(logger.Ready()) ==> logger.Ready())
      invariant Views(logger.appenders) == AppendersFor(d.appenders[..k], formatter.pattern)
    {
      ghost var before := logger.appenders;
      var appender := BuildAppender(d.appenders[k]);
      logger.AddAppender(appender);
      ViewsSnoc(before, appender);
      AppendersForSnoc(d.appenders, k, formatter.pattern);
    }
    assert d.appenders[..|d.appenders|] == d.appenders;
  }

  method TurnOff(logger: Logger)
    modifies logger
    ensures logger.View() == SwitchedOff(old(logger.View()))
    ensures old(logger.Ready()) ==> logger.Ready()
  {
    hide Logger.Ready;
    logger.SetLevel(OFF);
    logger.ClearAppender();
  }

  lemma NoAppenders(pattern: string)
    ensures Views([]) == [] && AppendersFor([], pattern) == []
  {
  }

  lemma AppendersForSnoc(defs: seq<AppenderDefinition>, k: nat, pattern: string)
    requires k < |defs|
    ensures AppendersFor(defs[..k + 1], pattern) == AppendersFor(defs[..k], pattern) + [AppenderFor(defs[k], pattern)]
  {
  }

  // ---------- the manager ----------

  class LoggerManager {
    const root: Logger
    var loggers: map<string, Logger>

    /** The root logger starts with one console appender. */
    constructor ()
      ensures fresh(root) && loggers == map[] && Valid() && Ready()
      ensures root.View()
              == LoggerState(ALL, DEFAULT_PATTERN, [AppenderState(StdoutAppender, "", Some(DEFAULT_PATTERN))])
    {
      hide Views, WithPattern, LogFormatter.Compiled;
      root := new Logger("root");
      loggers := map[];
      new;
      var console := new LogAppender(StdoutAppender, "");
      root.AddAppender(console);
      ViewsSnoc([], console);
    }

    /** Each logger is registered under its own name, and the root logger under none. */
    ghost predicate Valid()
      reads this
    {
      root !in loggers.Values && forall n | n in loggers :: loggers[n].name == n
    }

    /** Every logger can be logged to. */
    ghost predicate Ready()
      reads *
    {
      root.Ready() && forall n | n in loggers :: loggers[n].Ready()
    }

    ghost function Parts(): set<object>
      reads this, set n | n in loggers :: loggers[n]
    {
      set n, a | n in loggers && a in loggers[n].appenders :: a
    }

    ghost function View(): States
      reads this, (set n | n in loggers :: loggers[n]), Parts()
    {
      map n | n in loggers :: (assert forall a | a in loggers[n].appenders :: a in Parts(); loggers[n].View())
    }

    /** If one logger changes or is added, and the others do not change, so does the view. */
    twostate lemma ViewAfter(name: string)
      requires name in loggers && loggers.Keys == old(loggers.Keys) + {name}
      requires forall n | n in old(loggers) && n != name ::
                 loggers[n] == old(loggers[n]) && loggers[n].View() == old(loggers[n].View())
      ensures View() == old(View())[name := loggers[name].View()]
    {
      hide Views, Logger.View;
    }

    twostate lemma ReadyAfter(name: string)
      requires name in loggers && loggers.Keys == old(loggers.Keys) + {name}
      requires forall n | n in old(loggers) && n != name ::
                 loggers[n] == old(loggers[n]) && (old(loggers[n].Ready()) ==> loggers[n].Ready())
      requires old(root.Ready()) ==> root.Ready()
      requires old(Ready()) ==> loggers[name].Ready()
      ensures old(Ready()) ==> Ready()
    {
      hide Logger.Ready;
    }

    twostate lemma ViewSame()
      requires loggers == old(loggers)
      requires forall n | n in loggers :: loggers[n].View() == old(loggers[n].View())
      ensures View() == old(View())
    {
      hide Views, Logger.View;
    }

    /** A logger that exists stays the same object, registered under the same name. */
    twostate predicate KeepsLoggers()
      reads this
    {
      forall n | n in old(loggers) :: n in loggers && loggers[n] == old(loggers[n])
    }

    method GetLogger(name: string) returns (logger: Logger)
      requires Valid()
      modifies this`loggers
      ensures Valid()
      ensures name in loggers && logger == loggers[name]
      ensures if name in old(loggers) then loggers == old(loggers)
              else fresh(logger) && loggers == old(loggers)[name := logger]
      ensures KeepsLoggers() && fresh(loggers.Values - old(loggers.Values))
      ensures logger.View() == StateOf(old(View()), name)
      ensures View() == old(View())[name := logger.View()]
      ensures old(Ready()) ==> Ready()
    {
      hide Logger.View, Logger.Ready, LoggerManager.Ready;
      if name in loggers {
        ReadyFinds(name);

        logger := loggers[name];
      } else {
        logger := new Logger(name);
        loggers := loggers[name := logger];
      }
      ViewAfter(name);
      ReadyAfter(name);
    }

    lemma ReadyFinds(name: string)
      requires name in loggers
      ensures Ready() ==> loggers[name].Ready()
    {
      hide Logger.Ready;
    }

    /** Brings one logger, created if need be, to its definition. */
    method ApplyDefinition(d: LogDefinition)
      requires Valid() && ValidDefinition(d)
      modifies this`loggers, loggers.Values
      ensures Valid() && fresh(loggers.Values - old(loggers.Values))
      ensures KeepsLoggers() && (old(Ready()) ==> Ready())
      ensures View() == old(View())[d.name := Configured(StateOf(old(View()), d.name), d)]
    {
      hide Configured, StateOf, LoggerManager.View, Logger.View, LoggerManager.Parts;
      hide Logger.Ready, LoggerManager.Ready;
      var logger := GetLogger(d.name);
      ReadyFinds(d.name);
      label found:
      Configure(logger, d);
      ViewAfter@found(d.name);
      ReadyAfter@found(d.name);
    }

    method SwitchOff(name: string)
      requires Valid()
      modifies this`loggers, loggers.Values
      ensures Valid() && fresh(loggers.Values - old(loggers.Values))
      ensures KeepsLoggers() && (old(Ready()) ==> Ready())
      ensures View() == old(View())[name := SwitchedOff(StateOf(old(View()), name))]
    {
      hide SwitchedOff, StateOf, LoggerManager.View, Logger.View, LoggerManager.Parts;
      hide Logger.Ready, LoggerManager.Ready;
      var logger := GetLogger(name);
      ReadyFinds(name);
      label found:
      TurnOff(logger);
      assert View() == old@found(View())[name := logger.View()] by {
        ViewAfter@found(name);
      }
      assert old@found(Ready()) ==> Ready() by {
        ReadyAfter@found(name);
      }
    }

    /** Logging a line to the root logger leaves every other logger alone. */
    method LogUpdate(event: Event)
      requires Valid() && root.Ready()
      modifies root`level
      ensures root.level == Raised(old(root.level), INFO) && root.Ready()
      ensures View() == old(View()) && (old(Ready()) ==> Ready())
    {
      hide LoggerManager.View, Logger.View, LoggerManager.Parts, MacroState, MacroOutput, HasPatterns, Logger.Ready;
      var _ := SylarLog(root, INFO, event);
      assert forall n | n in loggers :: loggers[n] in loggers.Values;
      ViewSame();
    }

    /** The listener on the "logs" variable. It first logs to the root logger. */
    method OnLoggersChanged(oldDefs: seq<LogDefinition>, newDefs: seq<LogDefinition>, event: Event)
      requires Valid() && root.Ready()
      requires DefinitionSet(oldDefs) && DefinitionSet(newDefs)
      modifies this`loggers, root`level, loggers.Values
      ensures Valid() && fresh(loggers.Values - old(loggers.Values))
      ensures KeepsLoggers() && (old(Ready()) ==> Ready())
      ensures View() == Reconcile(old(View()), oldDefs, newDefs, newDefs)
      ensures root.level == Raised(old(root.level), INFO)
    {
      hide Configured, SwitchedOff, StateOf, LoggerManager.View, Logger.View, LoggerManager.Parts;
      hide SwitchOffMissing, Logger.Ready, LoggerManager.Ready;
      LogUpdate(event);
      for i := 0 to |newDefs|
        invariant Valid() && fresh(loggers.Values - old(loggers.Values))
        invariant KeepsLoggers() && (old(Ready()) ==> Ready())
        invariant View() == Reconcile(old(View()), oldDefs, newDefs[..i], newDefs)
        invariant root.level == Raised(old(root.level), INFO)
      {
        assert newDefs[..i + 1][..i] == newDefs[..i];
        var d := newDefs[i];
        var previous := Find(oldDefs, d.name);
        if previous.Some? && d == previous.value {
          continue;
        }
        ApplyDefinition(d);
        SwitchOffAll(oldDefs, newDefs);
      }
      assert newDefs[..|newDefs|] == newDefs;
    }

    method SwitchOffAll(oldDefs: seq<LogDefinition>, newDefs: seq<LogDefinition>)
      requires Valid()
      modifies this`loggers, loggers.Values
      ensures Valid() && fresh(loggers.Values - old(loggers.Values))
      ensures KeepsLoggers() && (old(Ready()) ==> Ready())
      ensures View() == SwitchOffMissing(old(View()), oldDefs, newDefs)
    {
      hide SwitchedOff, StateOf, LoggerManager.View, Logger.View, LoggerManager.Parts;
      hide Logger.Ready, LoggerManager.Ready;
      ghost var start := View();
      for j := 0 to |oldDefs|
        invariant Valid() && fresh(loggers.Values - old(loggers.Values))
        invariant KeepsLoggers() && (old(Ready()) ==> Ready())
        invariant View() == SwitchOffMissing(start, oldDefs[..j], newDefs)
      {
        assert oldDefs[..j + 1][..j] == oldDefs[..j];
        if Find(newDefs, oldDefs[j].name).None? {
          SwitchOff(oldDefs[j].name);
        }
      }
      assert oldDefs[..|oldDefs|] == oldDefs;
    }
  }
}

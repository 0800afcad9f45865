/** One logger over a whole run of logging calls: its level, and what is printed. */
module LevelGate {
  import opened Wrappers
  import opened LogPattern
  import opened Loggers

  /** The logger's level after a run of attempts. */
  function LevelAfter(start: LogLevel, attempts: seq<LogLevel>): LogLevel {
    if attempts == [] then start
    else Raised(LevelAfter(start, attempts[..|attempts| - 1]), Last(attempts))
  }

  predicate IsMaximum(level: LogLevel, start: LogLevel, attempts: seq<LogLevel>) {
    && start <= level && (forall k | 0 <= k < |attempts| :: attempts[k] <= level)
    && (level == start || level in attempts)
  }

  /** The level is a ratchet: it ends at the highest of the start level and all attempts, also those
      that were turned away. */
  lemma {:induction false} LevelIsMaximum(start: LogLevel, attempts: seq<LogLevel>)
    ensures IsMaximum(LevelAfter(start, attempts), start, attempts)
  {
    if attempts != [] {
      var before := attempts[..|attempts| - 1];
      LevelIsMaximum(start, before);
      assert attempts == before + [Last(attempts)];
    }
  }

  // ---------- what a run of calls prints ----------

  datatype Attempt = Attempt(level: LogLevel, event: Event)

  /** The logger after a run of calls of the macro, and what the last call handed to the appenders, as
      the contract of `SylarLog` says for one call. */
  function StateAfter(s: LoggerState, run: seq<Attempt>): LoggerState {
    if run == [] then s else MacroState(StateAfter(s, run[..|run| - 1]), Last(run).level)
  }

  function LastOutput(s: LoggerState, run: seq<Attempt>): seq<string>
    requires run != [] && HasPatterns(s)
  {
    var before := StateAfter(s, run[..|run| - 1]);
    StateKeepsAppenders(s, run[..|run| - 1]);
    MacroOutput(before, Last(run).level, Last(run).event)
  }

  function Levels(run: seq<Attempt>): seq<LogLevel> {
    seq(|run|, k requires 0 <= k < |run| => run[k].level)
  }

  lemma {:induction false} StateKeepsAppenders(s: LoggerState, run: seq<Attempt>)
    ensures StateAfter(s, run) == s.(level := LevelAfter(s.level, Levels(run)))
  {
    if run != [] {
      StateKeepsAppenders(s, run[..|run| - 1]);
      assert Levels(run)[..|run| - 1] == Levels(run[..|run| - 1]);
    }
  }

  /** What one event prints to each appender, in order, by the appenders' patterns and at level `level`. */
  predicate PrintsTo(out: seq<string>, s: LoggerState, level: LogLevel, event: Event)
    requires HasPatterns(s)
  {
    |out| == |s.appenders| && forall i | 0 <= i < |out| ::
      out[i] == RenderAll(CompiledItems(s.appenders[i].pattern.value), level, event)
  }

  /** Over any run, a call is printed if and only if it is at least as severe as the start level and
      every earlier call; then every appender gets it once, in order, with the event's own level. */
  lemma {:induction false} RunOutput(s: LoggerState, run: seq<Attempt>)
    requires run != [] && HasPatterns(s)
    ensures var last := Last(run);
            if s.level <= last.level && forall j | 0 <= j < |run| - 1 :: run[j].level <= last.level
            then PrintsTo(LastOutput(s, run), s, last.level, last.event)
            else LastOutput(s, run) == []
  {
    hide CompiledItems, RenderAll, LevelAfter;
    var before := run[..|run| - 1];
    StateKeepsAppenders(s, before);
    LevelIsMaximum(s.level, Levels(before));
    assert forall j | 0 <= j < |before| :: Levels(before)[j] == run[j].level;
  }
}

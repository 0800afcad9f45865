/** Where the logger states end up after one update, and after any run of updates. */
module LogReconciler {
  import opened Wrappers
  import opened LogPattern
  import opened Loggers
  import opened LogIniters

  function Get(m: States, name: string): Option<LoggerState> {
    if name in m then Some(m[name]) else None
  }

  ghost predicate Names(defs: seq<LogDefinition>, name: string) {
    exists d :: d in defs && d.name == name
  }

  /** The update adds a definition or changes one. Dropping definitions alone does not count: the loop
      that switches loggers off is nested in the loop over new definitions, past its `continue`. */
  ghost predicate Acts(oldDefs: seq<LogDefinition>, newDefs: seq<LogDefinition>) {
    exists d :: d in newDefs && d !in oldDefs
  }

  // ---------- one update ----------

  lemma {:induction false} FindInSet(defs: seq<LogDefinition>, i: nat)
    requires i < |defs| && forall j, k | 0 <= j < k < |defs| :: defs[j].name != defs[k].name
    ensures Find(defs, defs[i].name) == Some(defs[i])
  {
    var found := Find(defs, defs[i].name);
    assert defs[i] in defs;
    var j :| 0 <= j < |defs| && defs[j] == found.value;
  }

  /** The definition found under a name is the only one. */
  lemma {:induction false} FindIs(defs: seq<LogDefinition>, d: LogDefinition)
    requires DefinitionSet(defs) && d in defs
    ensures Find(defs, d.name) == Some(d)
  {
    var i :| 0 <= i < |defs| && defs[i] == d;
    FindInSet(defs, i);
  }

  /** The listener's test, `find` and then `==`, comes down to membership. */
  lemma {:induction false} UnchangedIsMember(oldDefs: seq<LogDefinition>, d: LogDefinition)
    requires DefinitionSet(oldDefs)
    ensures Unchanged(oldDefs, d) <==> d in oldDefs
  {
    if d in oldDefs {
      FindIs(oldDefs, d);
    }
  }

  lemma FindNames(defs: seq<LogDefinition>, name: string)
    ensures Names(defs, name) <==> Find(defs, name).Some?
  {
  }

  lemma {:induction false} FindSnoc(defs: seq<LogDefinition>, name: string)
    requires defs != []
    ensures Find(defs[..|defs| - 1], name).Some? ==> Names(defs, name)
    ensures Find(defs, name).Some? <==> Find(defs[..|defs| - 1], name).Some? || Last(defs).name == name
  {
    var before := defs[..|defs| - 1];
    assert defs == before + [Last(defs)];
    assert Last(defs) in defs;
    assert forall d | d in before :: d in defs;
  }

  /** Switched off: exactly the old loggers the new set lacks. */
  lemma {:induction false} SwitchOffAt(m: States, defs: seq<LogDefinition>, newDefs: seq<LogDefinition>, name: string)
    ensures Get(SwitchOffMissing(m, defs, newDefs), name) ==
            if Names(defs, name) && !Names(newDefs, name) then Some(SwitchedOff(StateOf(m, name))) else Get(m, name)
  {
    if defs != [] {
      SwitchOffAt(m, defs[..|defs| - 1], newDefs, name);
      FindSnoc(defs, name);
    }
  }

  /** After the loop has met the definitions `defs`, a prefix of the new set. */
  lemma {:induction false} ReconcilePrefix(m: States, oldDefs: seq<LogDefinition>, defs: seq<LogDefinition>,
                                           newDefs: seq<LogDefinition>, name: string)
    requires defs <= newDefs && DefinitionSet(oldDefs) && DefinitionSet(newDefs)
    ensures Get(Reconcile(m, oldDefs, defs, newDefs), name) ==
            if Names(newDefs, name) then
              var d := Find(newDefs, name).value;
              if d in defs && d !in oldDefs then Some(Configured(StateOf(m, name), d)) else Get(m, name)
            else if Names(oldDefs, name) && Acts(oldDefs, defs) then Some(SwitchedOff(StateOf(m, name)))
            else Get(m, name)
  {
    hide Configured, Find, Unchanged, Names;
    FindNames(newDefs, name);
    if defs != [] {
      var before, d := defs[..|defs| - 1], Last(defs);
      assert defs == before + [d];
      ReconcilePrefix(m, oldDefs, before, newDefs, name);
      FindInSet(newDefs, |defs| - 1);
      assert d !in before;
      ActsSnoc(oldDefs, before, d);
      UnchangedIsMember(oldDefs, d);
      if !Unchanged(oldDefs, d) {
        var state := Reconcile(m, oldDefs, before, newDefs);
        SwitchOffAt(state[d.name := Configured(StateOf(state, d.name), d)], oldDefs, newDefs, name);
      }
    }
  }

  lemma ActsSnoc(oldDefs: seq<LogDefinition>, before: seq<LogDefinition>, d: LogDefinition)
    ensures Acts(oldDefs, before + [d]) <==> Acts(oldDefs, before) || d !in oldDefs
  {
    assert d in before + [d];
  }

  /** One logger after an update. */
  ghost function Outcome(m: States, oldDefs: seq<LogDefinition>, newDefs: seq<LogDefinition>,
                         name: string): Option<LoggerState> {
    FindNames(newDefs, name);
    if Names(newDefs, name) then
      var d := Find(newDefs, name).value;
      if d in oldDefs then Get(m, name) else Some(Configured(StateOf(m, name), d))
    else if Names(oldDefs, name) && Acts(oldDefs, newDefs) then Some(SwitchedOff(StateOf(m, name)))
    else Get(m, name)
  }

  lemma {:induction false} ReconcileAt(m: States, oldDefs: seq<LogDefinition>, newDefs: seq<LogDefinition>,
                                       name: string)
    requires DefinitionSet(oldDefs) && DefinitionSet(newDefs)
    ensures Get(Reconcile(m, oldDefs, newDefs, newDefs), name) == Outcome(m, oldDefs, newDefs, name)
  {
    ReconcilePrefix(m, oldDefs, newDefs, newDefs, name);
  }

  /** The logger is as its definition says: its level, its appenders in order, and for every formatter
      the pattern asked for, or the logger's own where none, or an invalid one, was given. */
  predicate Matches(s: LoggerState, d: LogDefinition) {
    && s.level == d.level
    && (Usable(d.pattern) ==> s.pattern == d.pattern)
    && |s.appenders| == |d.appenders|
    && forall i | 0 <= i < |s.appenders| ::
         var a, b := s.appenders[i], d.appenders[i];
         && a.kind == (if b.kind == 1 then FileAppender else StdoutAppender)
         && (b.kind == 1 ==> a.file == b.file)
         && a.pattern == Some(if Usable(b.pattern) then b.pattern else s.pattern)
  }

  predicate IsOff(s: LoggerState) {
    s.level == OFF && s.appenders == []
  }

  ghost predicate AllMatch(m: States, defs: seq<LogDefinition>) {
    forall d | d in defs :: d.name in m && Matches(m[d.name], d)
  }

  lemma ConfiguredMatches(s: LoggerState, d: LogDefinition)
    ensures Matches(Configured(s, d), d)
  {
    hide HasError;
  }

  /** Convergence: an update from loggers that match the old set leaves loggers that match the new. */
  lemma {:induction false} Converges(m: States, oldDefs: seq<LogDefinition>, newDefs: seq<LogDefinition>)
    requires DefinitionSet(oldDefs) && DefinitionSet(newDefs) && AllMatch(m, oldDefs)
    ensures AllMatch(Reconcile(m, oldDefs, newDefs, newDefs), newDefs)
  {
    hide Configured, Reconcile, Matches;
    var after := Reconcile(m, oldDefs, newDefs, newDefs);
    forall d | d in newDefs ensures d.name in after && Matches(after[d.name], d) {
      var i :| 0 <= i < |newDefs| && newDefs[i] == d;
      FindInSet(newDefs, i);
      ReconcileAt(m, oldDefs, newDefs, d.name);
      ConfiguredMatches(StateOf(m, d.name), d);
    }
  }

  /** A logger that the new set drops is off afterwards if the update adds or changes something, and
      keeps its state otherwise; a logger in neither set is never touched. */
  lemma {:induction false} Dropped(m: States, oldDefs: seq<LogDefinition>, newDefs: seq<LogDefinition>, name: string)
    requires DefinitionSet(oldDefs) && DefinitionSet(newDefs) && !Names(newDefs, name)
    ensures var after := Reconcile(m, oldDefs, newDefs, newDefs);
            if Names(oldDefs, name) && Acts(oldDefs, newDefs) then name in after && IsOff(after[name])
            else Get(after, name) == Get(m, name)
  {
    hide Reconcile, Find;
    ReconcileAt(m, oldDefs, newDefs, name);
  }

  /** An update that adds and changes nothing does nothing at all. */
  lemma {:induction false} IdleUpdate(m: States, oldDefs: seq<LogDefinition>, newDefs: seq<LogDefinition>)
    requires DefinitionSet(oldDefs) && DefinitionSet(newDefs) && forall d | d in newDefs :: d in oldDefs
    ensures Reconcile(m, oldDefs, newDefs, newDefs) == m
  {
    var after := Reconcile(m, oldDefs, newDefs, newDefs);
    hide Reconcile;
    forall name: string
      ensures Get(after, name) == Get(m, name)
    {
      ReconcileAt(m, oldDefs, newDefs, name);
    }
    SameGet(after, m);
  }

  lemma SameGet(a: States, b: States)
    requires forall name :: Get(a, name) == Get(b, name)
    ensures a == b
  {
    forall name ensures name in a <==> name in b {
      assert Get(a, name) == Get(b, name);
    }
    forall name | name in a ensures a[name] == b[name] {
      assert Get(a, name) == Get(b, name);
    }
  }

  // ---------- any run of updates ----------

  /** Definitions read from YAML never give the logger itself a pattern. */
  ghost predicate FromYaml(defs: seq<LogDefinition>) {
    DefinitionSet(defs) && forall d | d in defs :: d.pattern == ""
  }

  ghost predicate YamlRun(run: seq<seq<LogDefinition>>) {
    forall k | 0 <= k < |run| :: FromYaml(run[k])
  }

  /** The set in force before the last update of the run; at first it is empty. */
  function SetBefore(run: seq<seq<LogDefinition>>): seq<LogDefinition>
    requires run != []
  {
    if |run| == 1 then [] else run[|run| - 2]
  }

  /** The states after the sets of the run have been loaded one after the other, from loggers in any
      states; the program creates some before it loads anything. */
  function StatesAfter(start: States, run: seq<seq<LogDefinition>>): States {
    if run == [] then start
    else Reconcile(StatesAfter(start, run[..|run| - 1]), SetBefore(run), Last(run), Last(run))
  }

  /** What a run should leave of one logger: its definition in the last set, if it has one; off, if the
      update that dropped it added or changed something; and otherwise what it was before. Nothing but
      the logger's own pattern is left of the start. */
  ghost function Expected(start: States, run: seq<seq<LogDefinition>>, name: string): Option<LoggerState> {
    if run == [] then Get(start, name)
    else if Names(Last(run), name) then Some(Configured(StateOf(start, name), Find(Last(run), name).value))
    else if Names(SetBefore(run), name) && Acts(SetBefore(run), Last(run)) then Some(SwitchedOff(StateOf(start, name)))
    else Expected(start, run[..|run| - 1], name)
  }

  /** What `Configured` and `SwitchedOff` read of a state, for definitions from YAML. */
  lemma {:induction false} SamePattern(s: LoggerState, t: LoggerState, d: LogDefinition)
    requires s.pattern == t.pattern && d.pattern == ""
    ensures Configured(s, d) == Configured(t, d) && Configured(s, d).pattern == s.pattern
    ensures IsOff(SwitchedOff(s)) && SwitchedOff(s) == SwitchedOff(t)
  {
    hide AppendersFor;
  }

  /** Updates from YAML never change a logger's own pattern. */
  lemma {:induction false} ExpectedPattern(start: States, run: seq<seq<LogDefinition>>, name: string)
    requires YamlRun(run)
    ensures var e := Expected(start, run, name);
            (if e.Some? then e.value else NEW_LOGGER).pattern == StateOf(start, name).pattern
  {
    if run != [] {
      ExpectedPattern(start, run[..|run| - 1], name);
      assert FromYaml(run[|run| - 1]);
      hide Names, Acts, SetBefore, Configured, SwitchedOff;
      var s := StateOf(start, name);
      match Find(Last(run), name) {
        case Some(d) => SamePattern(s, s, d);
        case None => OffKeepsPattern(s);
      }
      FindNames(Last(run), name);
    }
  }

  lemma OffKeepsPattern(s: LoggerState)
    ensures SwitchedOff(s).pattern == s.pattern
  {
  }

  /** For every start and every run of updates: no trace of the way there, except the loggers that were
      dropped. */
  lemma {:induction false} RunOutcome(start: States, run: seq<seq<LogDefinition>>, name: string)
    requires YamlRun(run)
    ensures Get(StatesAfter(start, run), name) == Expected(start, run, name)
  {
    if run != [] {
      var before := run[..|run| - 1];
      RunOutcome(start, before, name);
      ExpectedPattern(start, before, name);
      var m := StatesAfter(start, before);
      ReconcileAt(m, SetBefore(run), Last(run), name);
      assert FromYaml(run[|run| - 1]);
      assert before != [] ==> Last(before) == SetBefore(run);
      FindNames(Last(run), name);
      hide Reconcile, Acts, Names, Configured, SwitchedOff;
      assert StateOf(m, name).pattern == StateOf(start, name).pattern;
      match Find(Last(run), name) {
        case Some(d) => SamePattern(StateOf(m, name), StateOf(start, name), d);
        case None => SameOff(StateOf(m, name), StateOf(start, name));
      }
    }
  }

  lemma SameOff(s: LoggerState, t: LoggerState)
    requires s.pattern == t.pattern
    ensures SwitchedOff(s) == SwitchedOff(t)
  {
  }

  /** Path independence: the loggers of the last set end as if that set had been loaded alone, from the
      same start. */
  lemma {:induction false} PathIndependence(start: States, run: seq<seq<LogDefinition>>, name: string)
    requires YamlRun(run) && run != [] && Names(Last(run), name)
    ensures Get(StatesAfter(start, run), name) == Get(StatesAfter(start, [Last(run)]), name) != None
  {
    hide StatesAfter, Names, Find;
    assert YamlRun([Last(run)]);
    RunOutcome(start, run, name);
    RunOutcome(start, [Last(run)], name);
  }

  ghost predicate AlwaysActs(run: seq<seq<LogDefinition>>) {
    forall k | 0 < k <= |run| :: Acts(SetBefore(run[..k]), run[k - 1])
  }

  /** If every update adds or changes something, each logger that was ever named and is not in the
      last set is off, with no appenders. */
  lemma {:induction false} DroppedStayOff(start: States, run: seq<seq<LogDefinition>>, k: nat, name: string)
    requires YamlRun(run) && AlwaysActs(run) && k < |run|
    requires Names(run[k], name) && !Names(Last(run), name)
    ensures name in StatesAfter(start, run) && IsOff(StatesAfter(start, run)[name])
  {
    RunOutcome(start, run, name);
    DroppedExpected(start, run, k, name);
  }

  lemma {:induction false} DroppedExpected(start: States, run: seq<seq<LogDefinition>>, k: nat, name: string)
    requires AlwaysActs(run) && k < |run|
    requires Names(run[k], name) && !Names(Last(run), name)
    ensures Expected(start, run, name) == Some(SwitchedOff(StateOf(start, name)))
  {
    hide Names, Acts, Find, Configured, SwitchedOff;
    var before := run[..|run| - 1];
    assert run[..|run|] == run;
    assert Acts(SetBefore(run[..|run|]), run[|run| - 1]);
    if !Names(SetBefore(run), name) {
      assert before[k] == run[k];
      assert Last(before) == SetBefore(run);
      forall j | 0 < j <= |before| ensures Acts(SetBefore(before[..j]), before[j - 1]) {
        assert before[..j] == run[..j];
      }
      DroppedExpected(start, before, k, name);
    }
  }

  /** Without that condition it fails: a set that only drops a logger leaves it running, and so does
      every later update, since by then the logger is in neither set. */
  lemma {:induction false} DroppedKeepsRunning(start: States, d: LogDefinition, e: LogDefinition)
    requires FromYaml([d]) && FromYaml([e]) && d.name != e.name
    ensures var running := Some(Configured(StateOf(start, d.name), d));
            && Get(StatesAfter(start, [[d], []]), d.name) == running
            && Get(StatesAfter(start, [[d], [], [e]]), d.name) == running
  {
    hide StatesAfter, Configured, SwitchedOff;
    var run := [[d], [], [e]];
    assert FromYaml([]);
    RunOutcome(start, run[..2], d.name);
    RunOutcome(start, run, d.name);
    assert run[..2] == [[d], []] && run[..2][..1] == [[d]];
    assert Last([[d], []]) == [] && Last([[d]]) == [d];
    assert Find([d], d.name) == Some(d);
    assert Expected(start, [[d]], d.name) == Some(Configured(StateOf(start, d.name), d));
    assert !Acts([d], []);
    assert Expected(start, [[d], []], d.name) == Expected(start, [[d]], d.name);
  }
}

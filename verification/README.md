# Verified models of sylar

sylar is a small C++ server framework. This project models four parts of it in Dafny and proves what
they promise, for all inputs, all runs and all interleavings:

- **The log-pattern compiler** (`LogPattern.dfy`, `LogFormatter.dfy`, `LogPatternLaws.dfy`,
  `LogPatternPrinting.dfy`, `LogPatternMeaning.dfy`). The nested index loops of `LogFormatter::parse` are methods with loop
  invariants. They are proved against a reference lexer that cuts a pattern into *pieces*: a literal
  character, a directive, or a `%` whose brace is never closed (`Broken`). The laws are about that lexer:
  it partitions every pattern, it is the inverse of printing, it composes exactly under a stated
  condition, and every directive prints its own field.
- **Loggers and their reconciler** (`Logger.dfy`, `LevelGate.dfy`, `LogIniter.dfy`, `LogReconciler.dfy`).
  Appenders, loggers and the manager are classes; the `LogIniter` listener is a method over them whose
  effect is stated on the loggers' states. The laws cover one update and any run of updates.
- **The configuration registry** (`Yaml.dfy`, `YamlPaths.dfy`, `ConfigVar.dfy`, `NotificationChain.dfy`,
  `Config.dfy`, `ConfigLaws.dfy`, `Codec.dfy`, `CodecLoops.dfy`, `CodecLaws.dfy`, `SetValueProtocol.dfy`,
  `SetValueAlone.dfy`). Flattening and loading a YAML tree, change listeners, the container conversions, and
  the methods of a variable as a protocol of steps.
- **Locks and thread start-up** (`CasLock.dfy`, `RwGuards.dfy`, `ThreadStart.dfy`). State machines
  whose schedules are arbitrary lists of steps; a step that is not enabled does nothing, so every list is an
  interleaving.

`dafny verify dfyconfig.toml` checks the whole project.

## Where the code and its promises part

- A brace that is never closed makes its error text overtake the text read before it
  (src/log.cpp:290-295), so printing need not compose: `LogPatternLaws.ErrorTextOvertakes`. It composes
  exactly under the condition of `LogPatternLaws.RenderCompose`.
- The loop that switches dropped loggers off is nested in the loop over new definitions
  (src/log.cpp:747-755), so an update that only drops definitions does nothing, and the dropped logger
  keeps running for good: `LogReconciler.DroppedKeepsRunning`. It is switched off exactly if some new
  definition is not in the old set: `LogReconciler.Dropped`.
- `setValue` stores after it has released the write lock (src/config.hpp:302-315), so two threads that
  set can leave listeners with a value that is not the variable's:
  `SetValueProtocol.ListenersCanBeLeftStale`. It cannot happen in any interleaving if and only if no two
  threads set: `SetValueProtocol.CurrentIffOneSetter`.
- A guard's `m_locked` is still true between clearing the flag and resetting it (src/threads.hpp:48-53),
  and only then is it not ownership: `CasLock.LockedIsOwnership`, `CasLock.BothGuardsSayLocked`.
- A dotted path cannot be taken apart into its keys if a key on the way to a listed node has a dot in it,
  is empty, or is given twice (src/config.cpp:30-32). Those are all the cases:
  `YamlPaths.LeadsBackIffGoodKeys`.
- `Semaphore::wait` throws when `sem_wait` fails, as a signal can make it (src/threads.cpp:39-41). The
  constructor then throws without a join or a detach, and `run` goes on with the destroyed object:
  `ThreadStart.InterruptedWait`. When exactly: `ThreadStart.StartHandshake` and
  `ThreadStart.HandleReclaimedOnce`.
- A comment in src/log.hpp:75-81 calls the event a plain carrier of information; building one sets the
  logger's level (src/log.cpp:69). The model follows the code: `LevelGate.LevelIsMaximum`.
- The name alphabet lacks J, K and L in upper case (src/config.cpp:20), and variables registered under a
  key with a capital letter can never be loaded (src/config.cpp:61-63): `ConfigLaws.CapitalsAreNeverLoaded`.

## Model

| member | source | states |
|---|---|---|
| `LogFormatters.ScanFrom` | src/log.cpp:247-279 | The inner two-index loop with its status machine stops exactly where the reference lexer ends the directive, with the same name and argument, and reports status 1 exactly for a brace that is never closed; it always moves past the `%`. |
| `LogFormatters.Tokenize` | src/log.cpp:230-301 | The outer loop, with its pending text, computes the tokens of the reference lexer on every pattern, terminates, and flags exactly the patterns with an unclosed brace. |
| `LogFormatters.LogFormatter.Parse` | src/log.cpp:228-344 | The items appended are those of the pattern's tokens, and `error` becomes true exactly if some directive has an unclosed brace or a name outside the table. |
| `LogFormatters.LogFormatter.constructor` | src/log.cpp:217-226 | An empty pattern stands for the default one; afterwards items and error flag are those of the pattern. |
| `LogFormatters.LogFormatter.Format` | src/log.cpp:346-353 | The text is the items' texts in order, at the logger's level. |
| `LogPatternMeaning.DirectivesPrint` | src/log.cpp:107-212 | For every level and event, `%m` prints the message, `%r` the elapsed time, `%t` the thread, `%f` the file, `%l` the line, `%n` a new line, `%T` a tab, and `%d` the date in the format "%Y-%m-%d %H:%M:%S". |
| `LogPatternMeaning.LevelsPrint` | src/log.cpp:8-29 | `%p` prints each of the seven levels, from 0 to 6, by its name. |
| `LogPatternMeaning.BracedPrints` | src/log.cpp:326-343 | For every name and argument: a braced directive is an error exactly if its name is not one of the nine, and then prints as `<<error_format %name>>`; the date uses the argument as its format, and the others print the same as without one. |
| `LogPatternMeaning.BareAtEndPrints` | src/log.cpp:266-269 | For every run of letters and closing braces, a bare directive that ends the pattern prints what its last character alone prints, and is an error exactly if that is not one of the nine. |
| `LogPatternMeaning.BareBeforePrints` | src/log.cpp:248-251 | A bare directive in front of any other character is named by its whole run, and the rest is read from that character on. |
| `LogPatternMeaning.RunChars` | src/log.cpp:248 | The characters that do not end a name are the letters, written out, and the closing brace. |
| `LogPatternMeaning.TextPrints` | src/log.cpp:232-244 | Text without a percent sign prints as it stands, and so does a percent sign in front of another one. |
| `LogPatternMeaning.PatternPrints` | src/log.cpp:346-353 | Every pattern without an error prints, in order, what the tokens it is read as print alone: a text itself, a directive what the pattern with nothing else prints. |
| `LogPattern.ErrorOfTokens` | src/log.cpp:326-341 | The error found in two places (while scanning, and in the table lookup) is one property of the pattern's pieces. |
| `LogPatternLaws.SpansOfPieces` | src/log.cpp:232-301 | For every pattern, also an erroneous one, the spans of the pieces put together are the pattern: every character is in exactly one piece. |
| `LogPatternLaws.PiecesOfSpans` | src/log.cpp:232-301 | A list of pieces is read back from its own text if and only if it is well formed, that is, no piece is drawn into what follows it. |
| `LogPatternLaws.PiecesCompose` | src/log.cpp:232-301 | `a + b` is read as `a` and then `b` if and only if `b` closes no brace left open in `a`, and does not extend, rename or escape a bare directive at the end of `a`. |
| `LogPatternLaws.RenderCompose` | src/log.cpp:228-353 | For patterns that are read independently: `a + b` prints what `a` prints and then what `b` prints if and only if `b` has no unclosed brace before its first directive, or the text left pending by `a` is itself nothing but error texts. |
| `LogPatternLaws.UnbrokenCompose` | src/log.cpp:228-353 | In particular printing composes, also for `a` with unclosed braces, whenever `b` has none. |
| `LogPatternLaws.ErrorCompose` | src/log.cpp:228-344 | Under that condition the error flag of `a + b` is the disjunction of the two flags. |
| `LogPatternLaws.ErrorTextOvertakes` | src/log.cpp:290-295 | The failing case of `RenderCompose` at its smallest: in "x%{" the error text is printed ahead of the "x" that was pending. |
| `LogPatternPrinting.PrintParse` | src/log.cpp:228-344 | A token list survives being printed as a pattern and parsed back without error if and only if it is normal. |
| `LogPatternPrinting.ParsePrint` | src/log.cpp:228-344 | Every error-free pattern compiles to a normal list, and printing that list gives a pattern with the same tokens. |
| `LogPatternPrinting.TokensPartition` | src/log.cpp:281-301 | With no unclosed brace, the stretches of the tokens put together are the pattern, text tokens are their stretches verbatim, and a directive's stretch shows its name and argument; only a bare directive that ends the pattern is named by the last character of its run. |
| `LogPatternPrinting.ReprintGivesPattern` | src/log.cpp:254-288 | Printing the pieces by looked-up name gives the pattern back if and only if it does not end in a bare run of several letters (which keeps only its last). |
| `Loggers.LogAppender.SetFormatter` | src/log.cpp:396-406 | A valid pattern installs a new compiled formatter with that pattern, an invalid one keeps the old. |
| `Loggers.Logger.SetFormatter` | src/log.cpp:516-526 | Same for the logger; level and appenders stay. |
| `Loggers.Logger.AddAppender` | src/log.cpp:469-476 | The appender goes to the end of the list, and takes the logger's formatter exactly if it had none. |
| `Loggers.Logger.Log` | src/log.cpp:491-504 | If the level reaches the logger's, every appender gets one text, in order, rendered from its own pattern at the logger's level; otherwise none does. |
| `Loggers.SylarLog` | src/log.hpp:27-29 | The macro: whether a call prints and the level it leaves behind both follow from the level found, since building the event raises the logger's level before the event is logged. |
| `LevelGate.LevelIsMaximum` | src/log.cpp:53-70 | Over any run of calls the logger's level is the maximum of its start level and all attempted levels, also the rejected ones. |
| `LevelGate.RunOutput` | src/log.cpp:491-504 | Over any run of calls, the last one prints if and only if its level is at least the start level and every earlier attempt's; then every appender gets it exactly once, in order, rendered by its own pattern at the event's own level, although the formatter reads the logger's. |
| `LogIniters.Configure` | src/log.cpp:714-745 | Brings one logger to its definition: level, formatter if a valid pattern is given, and exactly the defined appenders in order, each with its own pattern or the logger's; a logger that could be logged to still can. |
| `LogIniters.LoggerManager.GetLogger` | src/log.cpp:558-568 | Finds the logger of that name or adds a new one in its initial state; no other logger changes. |
| `LogIniters.LoggerManager.constructor` | src/log.cpp:544-548 | A new manager has no loggers but the root logger, which starts with one console appender and can be logged to. |
| `LogIniters.LoggerManager.OnLoggersChanged` | src/log.cpp:694-757 | On the heap, the listener's nested loops turn the states of all loggers into the reconciled ones. Every logger that existed stays the same object under its name, all loggers can still be logged to, and the root logger's level is raised by the line the listener logs. |
| `LogReconciler.ReconcileAt` | src/log.cpp:698-756 | One update, logger by logger and independent of iteration order: configured if its definition is not in the old set, off if dropped while some new definition is not in the old set, and otherwise untouched. |
| `LogReconciler.Converges` | src/log.cpp:694-757 | From loggers that match the old definitions, any update leaves all loggers of the new set matching theirs. |
| `LogReconciler.Dropped` | src/log.cpp:747-755 | A logger missing from the new set is off with no appenders if and only if it was in the old set and some new definition is not in the old set; otherwise it keeps its state. |
| `LogReconciler.IdleUpdate` | src/log.cpp:698-712 | An update whose definitions are all in the old set, also one that drops others, changes no logger at all. |
| `LogReconciler.RunOutcome` | src/log.cpp:691-759 | For every run of updates from YAML, from loggers in any states, and every logger, the final state in closed form; nothing of the start but the logger's own pattern is left in a logger that was configured or switched off. |
| `LogReconciler.PathIndependence` | src/log.cpp:691-759 | From any start, after any run of updates the loggers named in the last set are as if that set had been loaded alone. |
| `LogReconciler.DroppedStayOff` | src/log.cpp:747-755 | From any start, if every update adds or changes something, each logger ever named and absent from the last set is off and has no appenders. |
| `LogReconciler.DroppedKeepsRunning` | src/log.cpp:747-756 | Without that it fails: a logger dropped by a pure removal keeps running, also through later updates. |
| `Yaml.ListAllMember` | src/config.cpp:16-36 | The recursion with its shared output list appends exactly the flattened members. |
| `Yaml.AlphabetIs` | src/config.cpp:20 | The alphabet of names, written out: small letters, capitals but J, K and L, digits, dot and underscore. |
| `YamlPaths.VisitsEnumerate` | src/config.cpp:27-35 | The reference enumeration has every node of the tree exactly once, in preorder. |
| `YamlPaths.FlattenLists` | src/config.cpp:16-36 | The members listed are, in that preorder, exactly the nodes whose every key is in the alphabet, under their dotted paths. |
| `YamlPaths.PathLeadsBack` | src/config.cpp:30-32 | If all keys on the way to listed nodes are non-empty and dot-free, and siblings among them have different keys, splitting a listed node's path at the dots leads back to that very node. |
| `YamlPaths.LeadsBackIffGoodKeys` | src/config.cpp:16-36 | That condition is exact: the paths of all listed nodes lead back to them if and only if it holds. Keys outside the alphabet, and what is below them, do not matter. |
| `YamlPaths.ListingIsInvertible` | src/config.cpp:16-36 | Under that condition every listed path determines its node and no two listed paths are equal. |
| `YamlPaths.DottedKeysCollide` | src/config.cpp:30-32 | Without it even two listed paths can be equal, as a tree with a dot inside a key shows. For the paths to differ the condition is sufficient only. |
| `ConfigVars.ConfigVar.SetValue` | src/config.hpp:302-315 | An equal value is dropped; otherwise every listener is called once, in id order, with the old and the new value, and the new value is stored. |
| `ConfigVars.ConfigVar.FromString` | src/config.hpp:287-297 | Reports whether the text converts, sets the converted value if so, and changes nothing otherwise. |
| `ConfigVars.ConfigVar.AddListener` | src/config.hpp:320-326 | The id is the shared 64-bit counter's next value, wrap-around included. |
| `ConfigVars.ConfigVar.GetListener` | src/config.hpp:331-335 | Finds the callback registered under an id if and only if there is one. |
| `ConfigVars.InsertKeepsOrder` | src/config.hpp:324 | Registering changes nothing in the map but the entry of its id, and keeps iteration in id order. |
| `ConfigVars.EraseKeepsOrder` | src/config.hpp:327-330 | Removing a listener removes exactly the entry of its id. |
| `NotificationChain.HeardOnce` | src/config.hpp:308-311 | One pass calls a registered listener exactly once and an unregistered one never. |
| `NotificationChain.PassIsInOrder` | src/config.hpp:308-311 | A pass calls exactly the registered callbacks, in the order of their ids, all with the same two values. |
| `NotificationChain.Perform` | src/config.hpp:287-339 | Each call on the variable object does to it, and to the shared id counter, what one step of the sequential runs below does. |
| `NotificationChain.NewIdIsFresh` | src/config.hpp:320-326 | Below 2^64 additions a new id is not in use, so registering overwrites nothing. |
| `NotificationChain.ListenerHearsChain` | src/config.hpp:287-339 | Over any sequential run a listener registered throughout hears pairs that chain from the value at the start to the value at the end, and never a pair of equal values. |
| `Configs.Config.Lookup` | src/config.hpp:353-379 | A bound name gives its variable or, for another type, null; a new name is checked against the alphabet and bound to a new variable; nothing else in the registry changes; and `find` with the same name and type then agrees with the result. |
| `ConfigLaws.FindAfterRun` | src/config.hpp:381-391 | After any run of lookups, finds and loads, `find` gives a variable if and only if the name was bound to that type before, or an allowed unbound name was first looked up with that type; and it is the variable that this first lookup made. |
| `Configs.Config.LoadFromYaml` | src/config.cpp:49-75 | Each variable ends as if it alone had been offered the listed members one by one; bindings do not change. |
| `ConfigLaws.NoWriter` | src/config.cpp:55-74 | A variable with no addressed node that converts keeps its state and calls no listener. |
| `ConfigLaws.LastWriterWins` | src/config.cpp:55-74 | Otherwise it holds the conversion of the last node, in preorder, whose lower-cased path is its key and whose conversion succeeds. |
| `ConfigLaws.LoadOneNode` | src/config.cpp:55-74 | For every path in the alphabet, in any case, and every node: loading the tree with that node under that key offers the variable of the key in lower case a scalar's own text, or else the emitted node; the variable is set to what that converts to, and keeps its state if it does not. |
| `ConfigLaws.LowerByAlphabet` | src/config.cpp:61 | Lower case replaces each letter of the capital alphabet by the one at the same place in the small alphabet, and no other character. |
| `ConfigLaws.SecondLoad` | src/config.cpp:49-75 | Loading a tree again changes no value, and calls no listener if and only if none is registered or all values offered to the variable are equal. |
| `ConfigLaws.SecondLoadIsQuiet` | src/config.hpp:302-315 | In particular a variable with at most one convertible node is left exactly as it was. |
| `ConfigLaws.CapitalsAreNeverLoaded` | src/config.cpp:60-63 | Some YAML tree lists a node that is offered to the variable of a key if and only if the key is not empty, is spelled in the alphabet and has no capital letter. |
| `ConfigLaws.RunKeeps` | src/config.hpp:354-391 | Over any run of lookups, finds and loads a bound name keeps the very variable it is bound to, no two names come to share one, bound keys stay in the alphabet, each variable is named by its key in lower case, and a variable under the empty key or a key with a capital is never altered. |
| `Codec.RoundTrip` | src/config.hpp:59-253 | For every nesting of sequences, sets and string-keyed maps, empty ones included, whose scalars survive conversion and whose nodes load back, encoding does not fail and decoding undoes it, also for the text a value has as an element of a container. |
| `Codec.NestedSurvives` | src/config.hpp:59-253 | The hypothesis can be met: a map of vectors of sets, with strings converted to themselves, and a library under which it survives. |
| `Codec.ReloadIsQuiet` | src/config.hpp:277-315 | Under the same hypothesis on its value, a variable given its own text keeps its value and calls no listener. |
| `CodecLaws.SequenceConverts` | src/config.hpp:59-74 | A text that loads as a sequence converts to a vector, list or set if and only if every element converts, and then to exactly the converted elements, in order for a vector. |
| `CodecLaws.MappingConverts` | src/config.hpp:187-204 | A text that loads as a mapping converts to a map if and only if every value converts; the map has exactly the keys of the entries, each with the conversion of its first entry. |
| `CodecLaws.OtherConversions` | src/config.hpp:59-74 | A null or scalar node gives the empty container; a text that does not load, and a sequence in place of a mapping, are failures; a scalar is converted from the text itself. |
| `CodecLaws.SequenceEncodes` | src/config.hpp:76-89 | A vector or list becomes the text of the sequence of the nodes its elements' texts load as, in order, and of the null node if empty; this fails exactly if the text of some element does not load. |
| `CodecLaws.SetEncodes` | src/config.hpp:140-153 | A set becomes the text of the vector of its elements in iteration order. |
| `CodecLaws.MapEncodes` | src/config.hpp:206-219 | A map becomes the text of the mapping of its entries, in iteration order, and of the null node if empty; this fails exactly if the text of some value does not load. |
| `CodecLoops.ToText` | src/config.hpp:76-89 | For any library, the loops that fill a YAML node element by element produce the encoding, and fail exactly if the text of some element does not load. |
| `CodecLoops.FromText` | src/config.hpp:59-74 | The loops that fill a container produce the decoding, and fail exactly if some element does. |
| `SetValueProtocol.SectionsExclude` | src/config.hpp:277-345 | In every interleaving of the variable's methods, while one thread is in a write section no other is in a write or read section. |
| `SetValueProtocol.PassesAreComplete` | src/config.hpp:302-315 | In every interleaving each finished pass called every listener registered when it began exactly once, in id order, with one old value that did not change meanwhile and had been announced before. |
| `SetValueProtocol.ReadsAreAnnounced` | src/config.hpp:298-301 | In every interleaving `getValue` returns the initial value or one whose notification pass had ended. |
| `SetValueProtocol.OneSetterStaysCurrent` | src/config.hpp:302-315 | With one thread that calls `setValue`, and any number that call anything else, in every interleaving the passes chain without stutter from the first value, and the variable holds the value announced last unless that one is about to be stored. |
| `SetValueProtocol.StoresCanCross` | src/config.hpp:302-315 | For any two threads that set, any two new values and any listeners there is an interleaving of two calls in which both announce a change from the first value and the variable ends with the one announced first. |
| `SetValueProtocol.ListenersCanBeLeftStale` | src/config.hpp:302-315 | With as few as two values, any two threads that set can leave the variable for good, with no call running, at a value other than the one announced last. |
| `SetValueProtocol.CurrentIffOneSetter` | src/config.hpp:302-315 | In every interleaving the variable holds, or is about to hold, the value announced last, if and only if no two threads set (there being a value other than the first to set); and then the passes chain as well. |
| `SetValueAlone.SetAlone` | src/config.hpp:302-315 | With no other call in the way, the steps of `setValue` run to their end and have exactly the effect of the sequential method: value, calls of listeners, and nothing else. |
| `SetValueAlone.AddAlone` | src/config.hpp:320-326 | The same for `addListener`, with the next id of the counter. |
| `SetValueAlone.DelAlone` | src/config.hpp:327-330 | The same for `delListener`. |
| `SetValueAlone.ClearAlone` | src/config.hpp:336-339 | The same for `clearListener`. |
| `SetValueAlone.GetAlone` | src/config.hpp:298-301 | `getValue` returns the value of that moment and leaves the state as it was, beside any number of other readers. |
| `SetValueAlone.FindAlone` | src/config.hpp:331-335 | `getListener` finds a callback if and only if it is registered under the id, and leaves the state as it was. |
| `CasLock.MutualExclusion` | src/threads.hpp:31-57 | In every interleaving of guards and of extra lock and unlock calls, at most one thread owns the flag, the flag is set exactly while some thread owns it, and the counter is the number of increments done. |
| `CasLock.CounterEndsAtSum` | test/pthread_test.cpp:23-27 | When all threads have done their increments and destroyed their guards, the counter is the sum of their numbers and the lock is free. The loop there takes a pthread `Mutex`, which by specification has the same steps as the test-and-set lock. |
| `CasLock.LockedIsOwnership` | src/threads.hpp:48-53 | In every interleaving a guard that is not acquiring has `m_locked` true without owning the lock exactly between clearing the flag and resetting `m_locked`. |
| `CasLock.BothGuardsSayLocked` | src/threads.hpp:48-53 | At that moment another guard can have taken the lock, so that both say they are locked. |
| `CasLock.GuardLife` | src/threads.hpp:31-57 | A guard made while the flag is clear owns it, whatever `m_locked` was; any number of increments under it add exactly that number to the counter; its destruction gives the flag back and changes no other thread. |
| `CasLock.UnlockAndLock` | src/threads.hpp:40-54 | A guard's `unlock` clears the flag and its `lock` takes it again, back to the same state. |
| `CasLock.OwnerCanClear` | src/threads.hpp:31-57 | No deadlock: in every reachable state with the flag set, some thread owns it and can clear it by at most three steps of its own. |
| `RwGuards.WritersAreAlone` | src/threads.hpp:59-115 | In every interleaving of any number of read and write guards and of extra `lock` and `unlock` calls, two threads that hold the lock at once are both readers. |
| `RwGuards.LockIsFreed` | src/threads.hpp:158-179 | The one `unlock` that both kinds of guard share gives up exactly what its caller holds: once no guard is left, the lock has no reader and no writer. |
| `RwGuards.AcquireGoesThrough` | src/threads.hpp:158-179 | A reader gets the lock beside any number of readers, a writer when nobody holds it; otherwise both wait. |
| `RwGuards.GuardLife` | src/threads.hpp:59-115 | A guard of either kind that need not wait holds the lock once it is made, and its destruction leaves the lock as it was before. |
| `RwGuards.HolderCanRelease` | src/threads.hpp:59-115 | No deadlock: in every reachable state a holder can give up exactly its own hold by at most three steps of its own. |
| `ThreadStart.StartHandshake` | src/threads.cpp:67-116 | In every interleaving, failing calls included, the constructor returns only after `run` has set the id and taken the callback over; `run` touches a destroyed object if and only if the constructor's wait failed before the notify and `run` has gone on since; and otherwise the callback runs exactly once and only after the notify. |
| `ThreadStart.HandleReclaimedOnce` | src/threads.cpp:85-102 | In every interleaving a handle is given up at most once, by a join after the thread has finished or by the destructor's detach, failed joins included. When the object's life has ended, a created handle is left over if and only if the wait failed. |
| `ThreadStart.SafeUnlessWaitFails` | src/threads.cpp:67-116 | If no wait fails, `run` never touches a destroyed object and every created handle has been given up exactly once by the time the object is gone. |
| `ThreadStart.InterruptedWait` | src/threads.cpp:39-41 | Both failures do happen: a schedule in which the wait is interrupted, `run` goes on with the destroyed object and its handle is never given up. |
| `ThreadStart.ConstructorCanReturn` | src/threads.cpp:81 | From every reachable state in which the constructor waits, at most five steps of the started thread and the wait itself let it return. |
| `ThreadStart.RunnerFinishes` | src/threads.cpp:104-116 | From every reachable state in which the thread exists, at most six steps of its own bring it to its end, and its callback has then been called once. |
| `ThreadStart.JoinSucceedsAfterFinish` | src/threads.cpp:92-102 | From every reachable state between constructor and join, a join can succeed once the thread has finished, and then reclaims the handle; a second join does nothing, and a failed one changes nothing. |
| `ThreadStart.DestructorEnds` | src/threads.cpp:85-90 | From every reachable state with no call running, the destructor ends the object's life, with the handle detached if it was not joined. |

## Left out

- Files, console output, clocks and process ids: `FileLogAppender` opening and reopening, the error messages on `std::cout`, `strftime`, `vasprintf`. An event is the texts its fields print as; the `date` function stands for `strftime`.
- `LoggerManager::addLogger` (it takes its own spin lock twice through `getLogger`), `Logger::delAppender`, and the printing of loggers as YAML.
- `LogFormatter::setPattern`: formatters are compiled once, by the constructor. That a second `parse` appends to the items of the first is stated by `LogFormatters.LogFormatter.Parse`.
- Conversion of a log definition to and from YAML: its writer and its reader use different keys and type names (src/log.cpp:597-685).
- yaml-cpp and `boost::lexical_cast`: trees are finite, and loading, emitting and scalar conversion are parameters; what a round trip needs of them for one value is `Codec.Survives`.
- CodecLoops.FromText: a YAML mapping where a sequence is expected is taken as a failure; the code indexes it by integers, and what yaml-cpp gives for a missing key is not part of this model.
- ConfigVars.ConfigVar.SetValue: listeners do not throw. One that does would cut the pass short and leave the old value in place. That the calls come before the store is stated in module `SetValueProtocol`.
- ConfigVars.ConfigVar.FromString: for the same reason it does not turn an exception of a listener into false, as the code does.
- `sem_init` and `sem_post` do not fail; by specification they cannot for a semaphore that starts at 0 and is posted once.
- Floats that `==` does not compare by their bits: NaN and the negative zero.
- Spin locks around single logger and appender methods: each of those methods is one atomic step.
- Logging done inside the configuration code, and listeners that call back into their own variable.
- C++ memory orders: steps are atomic and sequentially consistent. The pthread and semaphore calls are taken by specification.
- `NullMutex`, `NullMutex_RW`, `Singleton`, fibers, back traces, `Config::Visit`, `Thread::SetName` and thread-local pointers.
- LogIniters.LoggerManager.OnLoggersChanged: an appender kind other than 1 or 2 is excluded, because the code would dereference a null appender (src/log.cpp:724-744); definitions read from YAML never have one.

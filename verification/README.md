# CounterStrikeSharp script callbacks, modelled in Dafny

This project models the registry and dispatcher for named script callbacks in
CounterStrikeSharp (`src/scripting/callback_manager.cpp`). It has three parts:

- **`ScriptCallback`** (`ScriptCallbacks` module, `script_callback.dfy`). A callback holds:
  - a name;
  - the profiling label `"ScriptCallback::Execute::" + name`;
  - an ordered list of listener handles. Duplicates are allowed and null handles can occur;
  - one call context.

  `AddListener` appends a handle. `RemoveListener` erases every occurrence of a handle. `Reset` resets the context.

  `Execute(bResetContext)` first probes the context. If the probe fails, it raises a native error and logs two warnings. Otherwise it calls every non-null listener in index order, logs a console line for each one slower than 5 ms, and then resets the context if asked.
- **`CallbackManager`** (`CallbackManagers` module, `callback_manager.dfy`). This is the ordered list of owned callbacks. Its operations are:
  - `CreateCallback` appends a callback;
  - `FindCallback` returns the first callback with an exact name match;
  - `ReleaseCallback` removes a callback by identity;
  - `TryAddFunction` and `TryRemoveFunction` look a callback up by name and then delegate to it.
- **`CallbackPair`** (`CallbackPairs` module, `callback_pair.dfy`). Its constructor creates a `pre` and then a `post` callback, both named `""`. With `bNoCallbacks` set, it touches nothing. Its destructor releases both halves.

`sequences.dfy` (`Sequences` module) defines `Filter`, the erase-remove idiom the source uses in two places. It also proves that the survivors are exactly the passing elements, each taken from its own position and kept in its original relative order (`FilterPositions`), and how many copies of each value survive.

## How the model works

- Everything is an immutable value, and every operation is a pure function that returns the new state.
- The process-wide `globals::callbackManager` becomes an explicit `CallbackManager` value that is passed in and returned.
- Heap identity is a natural number issued by the counter `nextId`. A pointer is `Ref(id)` and `nullptr` is `Null`. The `deleted` multiset counts the `delete` calls made on each identity.
- A listener handle is `Fn(id)`, or `NullFn` for the null pointer.
- The call context is external. It is modelled by three things:
  - a `valid` flag, which is what `IsContextSafe` reports;
  - a count of resets;
  - the list of native errors raised on it.

  A freshly constructed context is taken to be valid.
- Calling a listener is a foreign call. `Execute` instead returns `effects`, the ordered list of what it does to the context: `Invoke(index, fn)`, `ResetContext` or `RaiseNativeError(msg)`. It also returns `log`, the diagnostic lines it writes.
- Wall-clock time is an input, `elapsedUs : nat -> int`, which gives the measured microseconds of the invocation of listener `i`.
  - The source warns when `count / 1000.0 > 5`. For a whole number of microseconds this holds exactly when `count > 5000`, which is the constant `SlowThresholdUs`.
- The dispatch loop tests `fnMethodToCall`, but that name is bound outside the code shown. The model takes it to be `m_functions[nI]`, so a null handle is skipped.
- `ScriptCallbacks.InvokesInOrder` is an independent reference definition of a correct dispatch. It holds when:
  - every entry invokes a non-null listener at its own index;
  - the indices strictly increase;
  - every non-null index appears.

  Together these say each non-null listener is invoked exactly once, in index order.
- `CallbackManagers.Valid` is the ownership discipline. It holds when:
  - owned identities are distinct and were issued by the counter;
  - every deleted identity was deleted once and is no longer owned.

  The operations, and the lemmas about them, show that it is preserved.
- `RemoveListener` removes every occurrence of the handle, not only the first, because line 69 uses `std::ranges::remove`. It returns true exactly when the handle occurred at least once.
- An aborted `Execute` writes two warning lines. One comes from the context probe (line 83) and one names the callback (line 93).

## Model

| member | source | states |
|---|---|---|
| `Sequences.Filter` | src/scripting/callback_manager.cpp:69 | erase-remove keeps exactly the elements that pass the test and drops the others (positions and order are proved by `Sequences.FilterPositions`) |
| `Sequences.FilterPositions` | src/scripting/callback_manager.cpp:158-162 | the result of an erase-remove is the subsequence of the original vector at exactly the positions whose element passes the test: each survivor comes from its own position and the survivors keep their relative order |
| `Sequences.FilterFilter` | src/scripting/callback_manager.cpp:158-162 | two erase-removes in a row, as a pair's destructor performs, are one erase-remove by both tests |
| `ScriptCallbacks.AddListener` | src/scripting/callback_manager.cpp:64 | the new list is the old list followed by exactly one entry, `fn`, even if `fn` is already present; nothing else about the callback changes |
| `ScriptCallbacks.AddListeners` | src/scripting/callback_manager.cpp:64 | a run of `AddListener` calls leaves the earlier listeners in place and appends the added handles in call order |
| `ScriptCallbacks.NewCallbackListeners` | src/scripting/callback_manager.cpp:64 | a new callback given handles one by one holds exactly those handles, in call order |
| `ScriptCallbacks.RemoveListener` | src/scripting/callback_manager.cpp:66-71 | returns true iff `fn` occurred; afterwards `fn` does not occur; every other handle is kept; nothing else is added; on false the callback is unchanged |
| `ScriptCallbacks.RemoveListenerCount` | src/scripting/callback_manager.cpp:69 | every handle other than `fn` keeps all its duplicates, and `fn` keeps none |
| `ScriptCallbacks.RemoveListenerKeepsOrder` | src/scripting/callback_manager.cpp:69 | the list after removal is the subsequence of the old list at exactly the positions not holding `fn`, so the remaining listeners keep their relative order, duplicates included |
| `ScriptCallbacks.RemoveListenerIdempotent` | src/scripting/callback_manager.cpp:66-71 | removing the same handle a second time returns false and changes nothing |
| `ScriptCallbacks.RemoveAfterAdd` | src/scripting/callback_manager.cpp:64-71 | removing a handle just added returns true and gives the same list as removing it before the add; if the handle was absent before the add, the callback is restored |
| `ScriptCallbacks.Reset` | src/scripting/callback_manager.cpp:130 | resets the owned context once and changes nothing else |
| `ScriptCallbacks.Invocations` | src/scripting/callback_manager.cpp:99-107 | after the first n iterations of the loop, the trace has invoked each non-null listener below n exactly once, in index order, and nothing else |
| `ScriptCallbacks.SlowLog` | src/scripting/callback_manager.cpp:102-120 | after the first n iterations of the loop, there is exactly one console line per non-null listener below n slower than 5 ms, in index order, each naming the callback and reporting that listener's measured time, and no other line |
| `ScriptCallbacks.InvocationsAllNonNull` | src/scripting/callback_manager.cpp:99-107 | when no handle is null, the k-th invocation is listener k |
| `ScriptCallbacks.Execute` | src/scripting/callback_manager.cpp:88-128 | with an invalid context it raises one native error, invokes no listener, does not reset even when asked, and logs exactly two lines, the probe's warning and the abort naming the callback; with a valid context it invokes each non-null listener exactly once in index order, resets iff `bResetContext` (as the last effect, even with no listeners), and logs one line per slow listener, in index order, with that listener's measured time; the listener list never changes |
| `ScriptCallbacks.ExecuteResetComesLast` | src/scripting/callback_manager.cpp:124-127 | on a valid context, executing with a reset equals executing without one followed by one `Reset`, with the reset after every invocation; on an invalid context the flag makes no difference |
| `ScriptCallbacks.ListenersRunInInsertionOrder` | src/scripting/callback_manager.cpp:99-107 | on a new callback, listeners added one by one are invoked in insertion order, each exactly once, and the callback is left unchanged |
| `CallbackManagers.EmptyManagerValid` | src/scripting/callback_manager.cpp:132 | the default-constructed registry owns nothing and satisfies the ownership discipline |
| `CallbackManagers.CreateCallback` | src/scripting/callback_manager.cpp:134-141 | appends one callback with a fresh identity, the given name, the label `"ScriptCallback::Execute::" + name` and no listeners; earlier entries are unchanged; the ownership discipline is preserved. The new record is `ScriptCallbacks.NewScriptCallback`, the constructor at lines 55-60: the name, the label and a fresh context |
| `CallbackManagers.FindIndex` | src/scripting/callback_manager.cpp:145-153 | the scan misses iff no owned callback has the name; otherwise it stops at the first match in creation order |
| `CallbackManagers.FindCallback` | src/scripting/callback_manager.cpp:143-154 | returns null iff no owned callback has the name; otherwise returns the first callback in creation order with that name |
| `CallbackManagers.FindNeverReturnsShadowed` | src/scripting/callback_manager.cpp:143-154 | a callback created after another with the same name is never returned by lookup by name |
| `CallbackManagers.CreateThenFind` | src/scripting/callback_manager.cpp:134-154 | looking a name up right after creating a callback under it returns the new callback iff no earlier callback had that name; otherwise it returns the earlier one |
| `CallbackManagers.ReleaseCallbackAsWritten` | src/scripting/callback_manager.cpp:156-164 | the source's release erases every entry identical to the handle, keeps every other entry, and then deletes the handle even when it is not owned; an unowned non-null handle leaves the owned list as it was but is still deleted; releasing null changes nothing |
| `CallbackManagers.ReleaseCallback` | src/scripting/callback_manager.cpp:156-164 | erases every entry identical to the handle and keeps every other entry; the handle is no longer owned; an owned handle is deleted once; a null or unowned handle changes nothing |
| `CallbackManagers.ReleaseKeepsOrder` | src/scripting/callback_manager.cpp:158-162 | after either release, the owned list is the subsequence of the old one at exactly the positions of callbacks not identical to the handle, in creation order |
| `CallbackManagers.ReleaseIsFilter` | src/scripting/callback_manager.cpp:158-162 | the guarded release leaves the owned list exactly as the erase-remove leaves it, owned handle or not |
| `CallbackManagers.ReleaseCallbackPreservesValid` | src/scripting/callback_manager.cpp:156-164 | release keeps the ownership discipline, so no callback is deleted twice |
| `CallbackManagers.ReleaseCutsOut` | src/scripting/callback_manager.cpp:158-162 | releasing a callback owned once cuts it out and leaves the entries before and after it in place and in order |
| `CallbackManagers.ReleaseAfterCreate` | src/scripting/callback_manager.cpp:134-164 | releasing the callback just created restores the owned list and records one delete of it |
| `CallbackManagers.ReleaseCallbackIdempotent` | src/scripting/callback_manager.cpp:156-164 | with the delete guarded, a second release of the same handle changes nothing |
| `CallbackManagers.ReleaseAgreesWhenOwned` | src/scripting/callback_manager.cpp:156-164 | for an owned or null handle, the guarded release and the source's release agree |
| `CallbackManagers.ReleaseAsWrittenDeletesTwice` | src/scripting/callback_manager.cpp:163 | the source's release of an already deleted callback deletes it a second time and breaks the ownership discipline |
| `CallbackManagers.DoubleReleaseCounterexample` | src/scripting/callback_manager.cpp:156-164 | concrete run: create one callback and release it twice with the source's release; its object is deleted twice |
| `CallbackManagers.TryAddFunction` | src/scripting/callback_manager.cpp:166-175 | returns true iff some callback has the name; on a miss the registry is unchanged; on a hit only the first match gets `fn` appended |
| `CallbackManagers.TryRemoveFunction` | src/scripting/callback_manager.cpp:177-185 | on a miss it returns false and the registry is unchanged; on a hit it returns exactly `RemoveListener`'s result on the first match (true iff `fn` was there), and only that callback changes |
| `CallbackManagers.ByNameKeepsLookup` | src/scripting/callback_manager.cpp:166-185 | adding or removing listeners by name keeps the owned identities, every lookup by name and the ownership discipline |
| `CallbackPairs.NewCallbackPair` | src/scripting/callback_manager.cpp:195-199 | appends two fresh, distinct callbacks named `""`, `pre` before `post`; earlier entries are unchanged; both are owned afterwards |
| `CallbackPairs.NewCallbackPairWith` | src/scripting/callback_manager.cpp:201-208 | with `bNoCallbacks` set, both halves are null and the registry is untouched; otherwise it behaves like the default constructor |
| `CallbackPairs.DestroyCallbackPair` | src/scripting/callback_manager.cpp:210-214 | afterwards neither half is owned, every other callback is still owned with its record untouched, and nothing is added; each owned half is deleted once and an unowned half is not deleted (the survivors' creation order is stated by `CallbackPairs.DestroyKeepsOrder`); a pair of nulls leaves the registry unchanged |
| `CallbackPairs.DestroyKeepsOrder` | src/scripting/callback_manager.cpp:210-214 | after destroying a pair, the owned list is the subsequence of the old one at exactly the positions of callbacks identical to neither half, so the survivors stay in creation order and lookup by name still finds the first-created match |
| `CallbackPairs.DestroyAgreesWithSource` | src/scripting/callback_manager.cpp:210-214 | for distinct halves that are each null or owned, destroying the pair equals the source's two unguarded releases, `pre` then `post` |
| `CallbackPairs.DestroyCallbackPairPreservesValid` | src/scripting/callback_manager.cpp:210-214 | destroying a pair keeps the ownership discipline |
| `CallbackPairs.PairRoundTrip` | src/scripting/callback_manager.cpp:195-214 | creating a populated pair and destroying it restores the owned list and deletes each half exactly once |
| `CallbackPairs.DisabledPairLeavesRegistry` | src/scripting/callback_manager.cpp:201-214 | a pair built with `bNoCallbacks` set never touches the registry, neither when built nor when destroyed |

## Findings

| source | as written | input that shows it | evidently intended | confidence | as-written member | corrected member |
|---|---|---|---|---|---|---|
| src/scripting/callback_manager.cpp:156-164 | `delete pCallback` runs whether or not the handle was found among the owned callbacks | create one callback, then call `ReleaseCallback` on its handle twice: the second call deletes an object that was already deleted | delete only a callback the registry owns; a release of an unowned handle does nothing | medium; not executed | `CallbackManagers.ReleaseCallbackAsWritten` (shown by `CallbackManagers.DoubleReleaseCounterexample` and `CallbackManagers.ReleaseAsWrittenDeletesTwice`) | `CallbackManagers.ReleaseCallback` (proved by `CallbackManagers.ReleaseCallbackPreservesValid` and `CallbackManagers.ReleaseCallbackIdempotent`; used by `CallbackPairs.DestroyCallbackPair`) |

## Left out

- `RegisterCallbackTrace` (lines 26-51) is left out. It only computes a hash into a volatile variable to keep the function from being optimised away, and has no observable output.
- Profiling and trace logging are left out: `VPROF_BUDGET`, the trace line in `CreateCallback`, and `PrintCallbackDebug` (lines 187-194). They are diagnostics with no functional effect.
- The internals of `IsContextSafe` (lines 73-86) are left out. The exception-based probe of the external context is abstracted to the context's `valid` flag; its warning line is kept as `ContextInvalid`.
- The actual call of the managed function pointer and the marshalled argument layout (line 107) are foreign code. An invocation is recorded as an `Invoke` effect.
- Wall-clock timing is an input (`elapsedUs`). The `double` conversion is replaced by the equivalent integer comparison.
- Memory itself is not modelled. `new`/`delete` and the destructor's `m_functions.clear()` (line 62) become identities issued by a counter and a count of deletes.
- `globals::callbackManager` is not modelled as a global. The registry is passed in and returned explicitly.
- Re-entrancy during dispatch is not modelled. The source re-reads `m_functions.size()` on every iteration, so a listener that adds or removes listeners on the same callback while it runs would change the iterations. Listeners are opaque here, so the list is fixed for the whole of an `Execute`.
- The initial null values of `CallbackPair::pre` and `post` come from the class declaration in the header, and the header is not part of this model. `NewCallbackPairWith` takes them to be null.
- Names are compared with `strcmp` on C strings. The model compares whole strings, so a name cannot contain a NUL character.
- A slow-listener line carries whole microseconds where the source prints `count / 1000.0` milliseconds; the text of the line is not modelled.
- `ScriptCallbacks.Execute`: the `Context` fields record only what `Execute` and `Reset` themselves do to the context. Each listener receives the context itself (line 107) and may write its result, raise errors or reset it; those writes are not modelled, and neither is any effect they have on a later `IsContextSafe` probe.
- `CallbackPairs.DestroyCallbackPair` uses the guarded release, so it matches the source only while each half is null or still owned (`CallbackPairs.DestroyAgreesWithSource`). On a half that was already released elsewhere, the source deletes it again; that is the release finding above, not a separate behaviour of the pair.
- `ScriptCallbacks.Reset` counts resets. What a reset does to the external context's contents is not modelled, so it is not shown to be idempotent.

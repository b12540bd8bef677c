/**
 One named callback (`ScriptCallback` in src/scripting/callback_manager.cpp):
 a name, a profiling label derived from it, an ordered list of listener
 handles and the call context the listeners are invoked with.

 The context is external. The model keeps only what `Execute` and `Reset`
 observe or change of it: whether probing its result slot succeeds
 (`IsContextSafe`), how many times it has been reset, and the native errors
 raised on it. Invoking a listener is a foreign call; the model records it as
 an `Invoke` effect instead.
 */
module ScriptCallbacks {
  import opened Sequences

  /** A listener handle (`CallbackT`): an opaque plugin function pointer,
      compared by identity. `NullFn` is the null pointer. */
  datatype Listener = NullFn | Fn(id: nat)

  /** The call context a callback owns. */
  datatype Context = Context(valid: bool, resets: nat, errors: seq<string>)

  datatype ScriptCallback = ScriptCallback(
    id: nat,
    name: string,
    profileName: string,
    listeners: seq<Listener>,
    context: Context)

  /** What one `Execute` does to the context, in order. */
  datatype Effect =
    | Invoke(index: nat, fn: nat)         // listener `index` of the list, handle `fn`, called with the context
    | ResetContext                        // `ScriptContext().Reset()`
    | RaiseNativeError(message: string)   // `ScriptContext().ThrowNativeError(message)`

  /** Diagnostic lines written during one `Execute`. */
  datatype Diagnostic =
    | ContextInvalid                                  // warning from the context probe
    | ExecuteAborted(callback: string)                // warning naming the aborted callback
    | SlowListener(callback: string, elapsedUs: int)  // console line for a listener over 5 ms

  datatype Execution = Execution(callback: ScriptCallback, effects: seq<Effect>, log: seq<Diagnostic>)

  datatype Removal = Removal(callback: ScriptCallback, removed: bool)

  const ProfilePrefix: string := "ScriptCallback::Execute::"
  const AbortMessage: string := "ScriptCallback::Execute aborted due to invalid context"

  /** The source measures whole microseconds and warns when `us / 1000.0 > 5`,
      which holds exactly when `us > 5000`. */
  const SlowThresholdUs: int := 5000

  /** A freshly constructed callback: the given name, its profiling label, no
      listeners, and a new context. The new context is taken to be valid; its
      construction is external. */
  function NewScriptCallback(id: nat, name: string): ScriptCallback
  {
    ScriptCallback(id, name, ProfilePrefix + name, [], Context(true, 0, []))
  }

  /** `AddListener`: append, duplicates allowed. */
  function AddListener(cb: ScriptCallback, fn: Listener): (r: ScriptCallback)
    ensures |r.listeners| == |cb.listeners| + 1
    ensures r.listeners[..|cb.listeners|] == cb.listeners
    ensures r.listeners[|cb.listeners|] == fn
    ensures r == cb.(listeners := r.listeners)
  {
    cb.(listeners := cb.listeners + [fn])
  }

  /** The survivors of `RemoveListener(fn)`: every handle other than `fn`. */
  function Other(fn: Listener): Listener -> bool
  {
    l => l != fn
  }

  /** `RemoveListener`: erase every occurrence of `fn` and report whether the
      list got shorter. */
  function RemoveListener(cb: ScriptCallback, fn: Listener): (r: Removal)
    ensures r.removed <==> fn in cb.listeners
    ensures fn !in r.callback.listeners
    ensures forall i :: 0 <= i < |cb.listeners| && cb.listeners[i] != fn ==> cb.listeners[i] in r.callback.listeners
    ensures forall i :: 0 <= i < |r.callback.listeners| ==> r.callback.listeners[i] in cb.listeners
    ensures !r.removed ==> r.callback == cb
    ensures r.callback == cb.(listeners := r.callback.listeners)
  {
    var kept := Filter(cb.listeners, Other(fn));
    FilterShrinks(cb.listeners, Other(fn));
    FilterAllKept(cb.listeners, Other(fn));
    assert fn in cb.listeners <==> exists i :: 0 <= i < |cb.listeners| && !Other(fn)(cb.listeners[i]);
    Removal(cb.(listeners := kept), |kept| != |cb.listeners|)
  }

  /** `Reset`: reset the owned context once; nothing else changes. */
  function Reset(cb: ScriptCallback): (r: ScriptCallback)
    ensures r.context.resets == cb.context.resets + 1
    ensures r.context.valid == cb.context.valid && r.context.errors == cb.context.errors
    ensures r == cb.(context := r.context)
  {
    cb.(context := cb.context.(resets := cb.context.resets + 1))
  }

  /** The effects trace `calls` invokes exactly the non-null handles among
      the first `n` listeners, each index once, in increasing index order. */
  ghost predicate InvokesInOrder(ls: seq<Listener>, n: nat, calls: seq<Effect>)
    requires n <= |ls|
  {
    && (forall k :: 0 <= k < |calls| ==>
          calls[k].Invoke? && calls[k].index < n && ls[calls[k].index] == Fn(calls[k].fn))
    && (forall k, k' :: 0 <= k < k' < |calls| ==> calls[k].index < calls[k'].index)
    && (forall i :: 0 <= i < n && ls[i].Fn? ==> exists k :: 0 <= k < |calls| && calls[k].index == i)
  }

  /** Indices below `n` of non-null listeners whose invocation took longer
      than the threshold. */
  ghost function SlowIndices(ls: seq<Listener>, elapsedUs: nat -> int, n: nat): set<nat>
    requires n <= |ls|
  {
    set i: nat | i < n && ls[i].Fn? && elapsedUs(i) > SlowThresholdUs
  }

  /** `g` lists, in increasing order, the slow indices the lines of `log`
      report: line `k` names the callback and carries the measured time of
      listener `g[k]`, and every slow index has its line. */
  ghost predicate SlowLinesAt(cb: ScriptCallback, elapsedUs: nat -> int, n: nat, log: seq<Diagnostic>, g: seq<nat>)
    requires n <= |cb.listeners|
  {
    && |g| == |log|
    && (forall k, k' :: 0 <= k < k' < |g| ==> g[k] < g[k'])
    && (forall k :: 0 <= k < |g| ==>
          g[k] in SlowIndices(cb.listeners, elapsedUs, n) && log[k] == SlowListener(cb.name, elapsedUs(g[k])))
    && (forall i :: i in SlowIndices(cb.listeners, elapsedUs, n) ==> i in g)
  }

  /** The log holds one slow-listener line per slow index, in index order,
      and nothing else. */
  ghost predicate WarnsSlow(cb: ScriptCallback, elapsedUs: nat -> int, n: nat, log: seq<Diagnostic>)
    requires n <= |cb.listeners|
  {
    && |log| == |SlowIndices(cb.listeners, elapsedUs, n)|
    && exists g :: SlowLinesAt(cb, elapsedUs, n, log, g)
  }

  /** One more loop iteration extends an in-order trace: a non-null handle
      is appended, a null one adds nothing. */
  lemma InvokesInOrderStep(ls: seq<Listener>, n: nat, calls: seq<Effect>)
    requires n < |ls| && InvokesInOrder(ls, n, calls)
    ensures ls[n].NullFn? ==> InvokesInOrder(ls, n + 1, calls)
    ensures ls[n].Fn? ==> InvokesInOrder(ls, n + 1, calls + [Invoke(n, ls[n].id)])
  {
    if ls[n].Fn? {
      var calls' := calls + [Invoke(n, ls[n].id)];
      assert calls'[|calls|].index == n;
      forall i | 0 <= i < n + 1 && ls[i].Fn?
        ensures exists k :: 0 <= k < |calls'| && calls'[k].index == i
      {
        if i < n {
          var k :| 0 <= k < |calls| && calls[k].index == i;
          assert calls'[k] == calls[k];
        }
      }
    }
  }

  /** The console line iteration `i` writes: one when listener `i` is non-null
      and took longer than the threshold. */
  function SlowWarning(cb: ScriptCallback, elapsedUs: nat -> int, i: nat): seq<Diagnostic>
  {
    if elapsedUs(i) > SlowThresholdUs then [SlowListener(cb.name, elapsedUs(i))] else []
  }

  /** Iteration `n` adds index `n` to the slow indices exactly when its
      handle is non-null and it was slow. */
  lemma SlowIndicesStep(ls: seq<Listener>, elapsedUs: nat -> int, n: nat)
    requires n < |ls|
    ensures n !in SlowIndices(ls, elapsedUs, n)
    ensures SlowIndices(ls, elapsedUs, n + 1) ==
      SlowIndices(ls, elapsedUs, n) + (if ls[n].Fn? && elapsedUs(n) > SlowThresholdUs then {n} else {})
    ensures |SlowIndices(ls, elapsedUs, n + 1)| ==
      |SlowIndices(ls, elapsedUs, n)| + (if ls[n].Fn? && elapsedUs(n) > SlowThresholdUs then 1 else 0)
  {
    var extra := if ls[n].Fn? && elapsedUs(n) > SlowThresholdUs then {n} else {};
    assert SlowIndices(ls, elapsedUs, n + 1) == SlowIndices(ls, elapsedUs, n) + extra;
  }

  /** One more loop iteration adds exactly the line for its own index. */
  lemma WarnsSlowStep(cb: ScriptCallback, elapsedUs: nat -> int, n: nat, log: seq<Diagnostic>)
    requires n < |cb.listeners| && WarnsSlow(cb, elapsedUs, n, log)
    ensures cb.listeners[n].NullFn? ==> WarnsSlow(cb, elapsedUs, n + 1, log)
    ensures cb.listeners[n].Fn? ==> WarnsSlow(cb, elapsedUs, n + 1, log + SlowWarning(cb, elapsedUs, n))
  {
    SlowIndicesStep(cb.listeners, elapsedUs, n);
    var g :| SlowLinesAt(cb, elapsedUs, n, log, g);
    if cb.listeners[n].Fn? {
      SlowLinesStep(cb, elapsedUs, n, log, g);
      var g' := g + (if elapsedUs(n) > SlowThresholdUs then [n] else []);
      assert SlowLinesAt(cb, elapsedUs, n + 1, log + SlowWarning(cb, elapsedUs, n), g');
    } else {
      SlowLinesSkip(cb, elapsedUs, n, log, g);
    }
  }

  /** A null handle writes no line and leaves the index map as it was. */
  lemma SlowLinesSkip(cb: ScriptCallback, elapsedUs: nat -> int, n: nat, log: seq<Diagnostic>, g: seq<nat>)
    requires n < |cb.listeners| && cb.listeners[n].NullFn?
    requires SlowLinesAt(cb, elapsedUs, n, log, g)
    ensures SlowLinesAt(cb, elapsedUs, n + 1, log, g)
  {
    SlowIndicesStep(cb.listeners, elapsedUs, n);
  }

  /** The index map of iteration `n`'s lines extends the earlier one by `n`
      exactly when iteration `n` writes a line. */
  lemma SlowLinesStep(cb: ScriptCallback, elapsedUs: nat -> int, n: nat, log: seq<Diagnostic>, g: seq<nat>)
    requires n < |cb.listeners| && cb.listeners[n].Fn?
    requires SlowLinesAt(cb, elapsedUs, n, log, g)
    ensures SlowLinesAt(cb, elapsedUs, n + 1, log + SlowWarning(cb, elapsedUs, n),
      g + (if elapsedUs(n) > SlowThresholdUs then [n] else []))
  {
    var ls := cb.listeners;
    SlowIndicesStep(ls, elapsedUs, n);
    var g' := g + (if elapsedUs(n) > SlowThresholdUs then [n] else []);
    var log' := log + SlowWarning(cb, elapsedUs, n);
    forall k | 0 <= k < |g|
      ensures g[k] < n
    {
      assert g[k] in SlowIndices(ls, elapsedUs, n);
    }
    forall k | 0 <= k < |g'|
      ensures g'[k] in SlowIndices(ls, elapsedUs, n + 1) && log'[k] == SlowListener(cb.name, elapsedUs(g'[k]))
    {
      if k < |g| {
        assert g'[k] == g[k] && log'[k] == log[k];
      }
    }
    forall i | i in SlowIndices(ls, elapsedUs, n + 1)
      ensures i in g'
    {
      if i < n {
        assert i in SlowIndices(ls, elapsedUs, n);
        var k :| 0 <= k < |g| && g[k] == i;
        assert g'[k] == i;
      } else {
        assert g'[|g|] == n;
      }
    }
  }

  /** The invocations made by iterations 0 .. n-1 of the dispatch loop. The
      loop header in the source tests a name bound outside the shown code;
      the model takes it to be the handle `m_functions[nI]`, so a null handle
      is skipped. */
  function Invocations(ls: seq<Listener>, n: nat): (calls: seq<Effect>)
    requires n <= |ls|
    ensures InvokesInOrder(ls, n, calls)
    decreases n
  {
    if n == 0 then []
    else
      var prev := Invocations(ls, n - 1);
      InvokesInOrderStep(ls, n - 1, prev);
      if ls[n - 1].Fn? then prev + [Invoke(n - 1, ls[n - 1].id)] else prev
  }

  /** The console lines written by iterations 0 .. n-1 of the dispatch loop;
      `elapsedUs(i)` is the measured wall-clock time of invocation `i`. */
  function SlowLog(cb: ScriptCallback, elapsedUs: nat -> int, n: nat): (log: seq<Diagnostic>)
    requires n <= |cb.listeners|
    ensures WarnsSlow(cb, elapsedUs, n, log)
    decreases n
  {
    if n == 0 then
      assert SlowIndices(cb.listeners, elapsedUs, 0) == {};
      assert SlowLinesAt(cb, elapsedUs, 0, [], []);
      []
    else
      var prev := SlowLog(cb, elapsedUs, n - 1);
      WarnsSlowStep(cb, elapsedUs, n - 1, prev);
      if cb.listeners[n - 1].Fn? then prev + SlowWarning(cb, elapsedUs, n - 1) else prev
  }

  /** `Execute(bResetContext)` with the measured time of each invocation
      supplied by `elapsedUs`. */
  function Execute(cb: ScriptCallback, resetContext: bool, elapsedUs: nat -> int): (r: Execution)
    ensures r.callback.listeners == cb.listeners
    ensures r.callback.id == cb.id && r.callback.name == cb.name && r.callback.profileName == cb.profileName
    ensures r.callback.context.valid == cb.context.valid
    // Invalid context: one native error, no listener, no reset.
    ensures !cb.context.valid ==>
      && r.effects == [RaiseNativeError(AbortMessage)]
      && r.callback.context.resets == cb.context.resets
      && r.callback.context.errors == cb.context.errors + [AbortMessage]
      && r.log == [ContextInvalid, ExecuteAborted(cb.name)]
    // Valid context: every non-null listener once in index order, then a reset iff asked.
    ensures cb.context.valid && !resetContext ==>
      && InvokesInOrder(cb.listeners, |cb.listeners|, r.effects)
      && r.callback == cb
    ensures cb.context.valid && resetContext ==>
      && |r.effects| > 0
      && InvokesInOrder(cb.listeners, |cb.listeners|, r.effects[..|r.effects| - 1])
      && r.effects[|r.effects| - 1] == ResetContext
      && r.callback.context.resets == cb.context.resets + 1
      && r.callback.context.errors == cb.context.errors
    ensures cb.context.valid ==> WarnsSlow(cb, elapsedUs, |cb.listeners|, r.log)
  {
    if !cb.context.valid then
      var aborted := cb.(context := cb.context.(errors := cb.context.errors + [AbortMessage]));
      Execution(aborted, [RaiseNativeError(AbortMessage)], [ContextInvalid, ExecuteAborted(cb.name)])
    else
      var calls := Invocations(cb.listeners, |cb.listeners|);
      var log := SlowLog(cb, elapsedUs, |cb.listeners|);
      if resetContext then
        var effects := calls + [ResetContext];
        assert effects[..|effects| - 1] == calls;
        Execution(Reset(cb), effects, log)
      else
        Execution(cb, calls, log)
  }

  /** A run of `AddListener` calls, one per handle of `fns`, in order. */
  function AddListeners(cb: ScriptCallback, fns: seq<nat>): (r: ScriptCallback)
    ensures r == cb.(listeners := r.listeners)
    ensures |r.listeners| == |cb.listeners| + |fns|
    ensures r.listeners[..|cb.listeners|] == cb.listeners
    ensures forall k :: 0 <= k < |fns| ==> r.listeners[|cb.listeners| + k] == Fn(fns[k])
    decreases |fns|
  {
    if fns == [] then cb
    else
      var next := AddListener(cb, Fn(fns[0]));
      AddListeners(next, fns[1..])
  }

  /** `RemoveListener(fn)` drops every occurrence of `fn` and keeps every other
      handle with all its duplicates. */
  lemma RemoveListenerCount(cb: ScriptCallback, fn: Listener, l: Listener)
    ensures multiset(RemoveListener(cb, fn).callback.listeners)[l] ==
      if l == fn then 0 else multiset(cb.listeners)[l]
  {
    FilterCount(cb.listeners, Other(fn), l);
  }

  /** `RemoveListener(fn)` leaves exactly the handles other than `fn`, each
      at the position it had, in their original relative order: the result
      is the subsequence of the old list at the positions not holding `fn`. */
  lemma RemoveListenerKeepsOrder(cb: ScriptCallback, fn: Listener)
    ensures exists f :: Selects(cb.listeners, Other(fn), RemoveListener(cb, fn).callback.listeners, f)
  {
    var f := FilterPositions(cb.listeners, Other(fn));
    assert Selects(cb.listeners, Other(fn), RemoveListener(cb, fn).callback.listeners, f);
  }

  /** A second removal of the same handle finds nothing and changes nothing. */
  lemma RemoveListenerIdempotent(cb: ScriptCallback, fn: Listener)
    ensures var once := RemoveListener(cb, fn).callback;
      RemoveListener(once, fn) == Removal(once, false)
  {
  }

  /** Removing a handle right after adding it reports success and removes it
      together with any earlier occurrences; when it was not there before,
      the callback is back where it started. */
  lemma RemoveAfterAdd(cb: ScriptCallback, fn: Listener)
    ensures RemoveListener(AddListener(cb, fn), fn) == Removal(RemoveListener(cb, fn).callback, true)
    ensures fn !in cb.listeners ==> RemoveListener(AddListener(cb, fn), fn) == Removal(cb, true)
  {
    FilterAppend(cb.listeners, [fn], Other(fn));
    assert Filter([fn], Other(fn)) == [];
  }

  /** Asking `Execute` for a reset is the same as executing without one and
      then calling `Reset`, with the reset effect after every invocation; on
      an invalid context the flag makes no difference. */
  lemma ExecuteResetComesLast(cb: ScriptCallback, elapsedUs: nat -> int)
    ensures cb.context.valid ==>
      && Execute(cb, true, elapsedUs).callback == Reset(Execute(cb, false, elapsedUs).callback)
      && Execute(cb, true, elapsedUs).effects == Execute(cb, false, elapsedUs).effects + [ResetContext]
      && Execute(cb, true, elapsedUs).log == Execute(cb, false, elapsedUs).log
    ensures !cb.context.valid ==> Execute(cb, true, elapsedUs) == Execute(cb, false, elapsedUs)
  {
  }

  /** When every handle among the first `n` is non-null, the loop invokes
      listener `k` as its `k`-th call. */
  lemma {:induction false} InvocationsAllNonNull(ls: seq<Listener>, n: nat)
    requires n <= |ls|
    requires forall i :: 0 <= i < n ==> ls[i].Fn?
    ensures |Invocations(ls, n)| == n
    ensures forall k :: 0 <= k < n ==> Invocations(ls, n)[k] == Invoke(k, ls[k].id)
    decreases n
  {
    if n == 0 {
      assert Invocations(ls, 0) == [];
    } else {
      InvocationsAllNonNull(ls, n - 1);
      var prev := Invocations(ls, n - 1);
      var calls := Invocations(ls, n);
      assert calls == prev + [Invoke(n - 1, ls[n - 1].id)];
      forall k | 0 <= k < n
        ensures calls[k] == Invoke(k, ls[k].id)
      {
        if k < n - 1 {
          assert calls[k] == prev[k];
        }
      }
    }
  }

  /** Listeners added one by one to a new callback are invoked by `Execute`
      exactly in insertion order, one call each, and the callback is left as
      it was. */
  lemma ListenersRunInInsertionOrder(id: nat, name: string, fns: seq<nat>, elapsedUs: nat -> int)
    ensures var cb := AddListeners(NewScriptCallback(id, name), fns);
      var run := Execute(cb, false, elapsedUs);
      && run.callback == cb
      && |run.effects| == |fns|
      && forall k :: 0 <= k < |fns| ==> run.effects[k] == Invoke(k, fns[k])
  {
    var cb := AddListeners(NewScriptCallback(id, name), fns);
    NewCallbackListeners(id, name, fns);
    InvocationsAllNonNull(cb.listeners, |fns|);
  }

  /** A new callback given the handles `fns` one by one holds exactly those
      handles, in that order. */
  lemma NewCallbackListeners(id: nat, name: string, fns: seq<nat>)
    ensures AddListeners(NewScriptCallback(id, name), fns).listeners == seq(|fns|, k requires 0 <= k < |fns| => Fn(fns[k]))
  {
  }
}

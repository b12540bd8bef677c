/**
 The registry of named callbacks (`CallbackManager` in
 src/scripting/callback_manager.cpp).

 The source keeps a vector of heap pointers. The model keeps the callback
 records themselves, in creation order, and gives each the identity `id` a
 counter hands out: `new` becomes "take `nextId`, bump the counter", a
 pointer becomes `Ref(id)` and `nullptr` becomes `Null`. `deleted` counts
 the `delete` calls per identity, so that a second `delete` of one object
 shows up as a count of two.
 */
module CallbackManagers {
  import opened Sequences
  import opened ScriptCallbacks

  datatype CallbackRef = Null | Ref(id: nat)

  datatype CallbackManager = CallbackManager(
    managed: seq<ScriptCallback>,
    nextId: nat,
    deleted: multiset<nat>)

  datatype Created = Created(manager: CallbackManager, handle: CallbackRef)

  /** Result of a by-name operation: the new registry and the returned flag. */
  datatype Attempt = Attempt(manager: CallbackManager, ok: bool)

  datatype Lookup = Miss | Hit(index: nat)

  /** The registry as the default constructor leaves it. */
  function EmptyManager(): CallbackManager
  {
    CallbackManager([], 0, multiset{})
  }

  /** Identities of the callbacks the registry currently owns. */
  function Handles(m: CallbackManager): set<nat>
  {
    set c | c in m.managed :: c.id
  }

  /** The registry's ownership discipline: every owned callback has its own
      identity, issued by the counter; every deleted identity was issued,
      deleted once, and is no longer owned. */
  ghost predicate Valid(m: CallbackManager)
  {
    && (forall i, j :: 0 <= i < j < |m.managed| ==> m.managed[i].id != m.managed[j].id)
    && (forall i :: 0 <= i < |m.managed| ==> m.managed[i].id < m.nextId)
    && (forall id :: id in m.deleted ==> id < m.nextId && m.deleted[id] == 1 && id !in Handles(m))
  }

  /** `i` is the first position whose callback is called `name`. */
  ghost predicate FirstMatch(managed: seq<ScriptCallback>, name: string, i: int)
  {
    && 0 <= i < |managed|
    && managed[i].name == name
    && forall k :: 0 <= k < i ==> managed[k].name != name
  }

  lemma EmptyManagerValid()
    ensures Valid(EmptyManager())
    ensures Handles(EmptyManager()) == {}
  {
  }

  /** `CreateCallback`: construct a callback with a fresh identity and append
      it to the owned list. */
  function CreateCallback(m: CallbackManager, name: string): (r: Created)
    ensures r.handle == Ref(m.nextId)
    ensures |r.manager.managed| == |m.managed| + 1
    ensures r.manager.managed[..|m.managed|] == m.managed
    ensures var c := r.manager.managed[|m.managed|];
      && c == NewScriptCallback(m.nextId, name)
      && c.id == m.nextId && c.name == name
      && c.profileName == "ScriptCallback::Execute::" + name
      && c.listeners == []
    ensures r.manager.nextId > m.nextId && r.manager.deleted == m.deleted
    ensures Handles(r.manager) == Handles(m) + {m.nextId}
    ensures Valid(m) ==> Valid(r.manager) && m.nextId !in Handles(m) && m.nextId !in m.deleted
  {
    var cb := NewScriptCallback(m.nextId, name);
    var m' := CallbackManager(m.managed + [cb], m.nextId + 1, m.deleted);
    assert forall c :: c in m'.managed <==> c in m.managed || c == cb;
    Created(m', Ref(m.nextId))
  }

  /** Position of the first callback called `name`, scanning in creation order. */
  function FindIndex(managed: seq<ScriptCallback>, name: string): (r: Lookup)
    ensures r.Miss? <==> forall i :: 0 <= i < |managed| ==> managed[i].name != name
    ensures r.Hit? ==> FirstMatch(managed, name, r.index)
    decreases |managed|
  {
    if managed == [] then Miss
    else if managed[0].name == name then Hit(0)
    else
      match FindIndex(managed[1..], name)
      case Miss => Miss
      case Hit(i) => Hit(i + 1)
  }

  /** `FindCallback`: the first callback in creation order whose name equals
      `name` exactly, or `Null` when there is none. */
  function FindCallback(m: CallbackManager, name: string): (r: CallbackRef)
    ensures r.Null? <==> forall i :: 0 <= i < |m.managed| ==> m.managed[i].name != name
    ensures r.Ref? ==> exists i :: FirstMatch(m.managed, name, i) && m.managed[i].id == r.id
  {
    match FindIndex(m.managed, name)
    case Miss => Null
    case Hit(i) => Ref(m.managed[i].id)
  }

  /** The callbacks `ReleaseCallback(h)` leaves owned: those not identical to `h`. */
  function Survives(h: CallbackRef): ScriptCallback -> bool
  {
    (c: ScriptCallback) => !(h.Ref? && c.id == h.id)
  }

  /** Erasing entries from a list of distinct identities leaves distinct identities. */
  lemma FilterKeepsDistinctIds(s: seq<ScriptCallback>, keep: ScriptCallback -> bool)
    ensures (forall i, j :: 0 <= i < j < |s| ==> s[i].id != s[j].id) ==>
      var r := Filter(s, keep);
      forall i, j :: 0 <= i < j < |r| ==> r[i].id != r[j].id
  {
  }

  /** `ReleaseCallback` as the source has it: erase every owned entry
      identical to `h`, then `delete h` whether or not it was owned
      (`delete nullptr` does nothing). */
  function ReleaseCallbackAsWritten(m: CallbackManager, h: CallbackRef): (r: CallbackManager)
    ensures forall i :: 0 <= i < |r.managed| ==> r.managed[i] in m.managed && Survives(h)(r.managed[i])
    ensures forall i :: 0 <= i < |m.managed| && Survives(h)(m.managed[i]) ==> m.managed[i] in r.managed
    ensures r.nextId == m.nextId
    ensures h.Ref? ==> h.id !in Handles(r) && r.deleted == m.deleted + multiset{h.id}
    ensures h.Ref? && h.id !in Handles(m) ==> r == m.(deleted := m.deleted + multiset{h.id})
    ensures h.Null? ==> r == m
  {
    var kept := Filter(m.managed, Survives(h));
    FilterAllKept(m.managed, Survives(h));
    CallbackManager(kept, m.nextId, if h.Ref? then m.deleted + multiset{h.id} else m.deleted)
  }

  /** `ReleaseCallback` with the delete guarded by ownership: erase every owned
      entry identical to `h` and delete it once; a handle the registry does
      not own, `Null` included, changes nothing. */
  function ReleaseCallback(m: CallbackManager, h: CallbackRef): (r: CallbackManager)
    ensures forall i :: 0 <= i < |r.managed| ==> r.managed[i] in m.managed && Survives(h)(r.managed[i])
    ensures forall i :: 0 <= i < |m.managed| && Survives(h)(m.managed[i]) ==> m.managed[i] in r.managed
    ensures h.Ref? ==> h.id !in Handles(r)
    ensures Handles(r) == Handles(m) - (if h.Ref? then {h.id} else {})
    ensures r.nextId == m.nextId
    ensures h.Ref? && h.id in Handles(m) ==> r.deleted == m.deleted + multiset{h.id}
    ensures (h.Null? || h.id !in Handles(m)) ==> r == m
  {
    if h.Ref? && h.id in Handles(m) then
      var r := CallbackManager(Filter(m.managed, Survives(h)), m.nextId, m.deleted + multiset{h.id});
      assert Handles(r) == Handles(m) - {h.id};
      r
    else
      m
  }

  /** `TryAddFunction`: add `fn` to the first callback called `name`, if any. */
  function TryAddFunction(m: CallbackManager, name: string, fn: Listener): (r: Attempt)
    ensures r.ok <==> exists i :: 0 <= i < |m.managed| && m.managed[i].name == name
    ensures !r.ok ==> r.manager == m
    ensures r.ok ==> exists i ::
      && FirstMatch(m.managed, name, i)
      && r.manager == m.(managed := m.managed[i := AddListener(m.managed[i], fn)])
  {
    match FindIndex(m.managed, name)
    case Miss => Attempt(m, false)
    case Hit(i) => Attempt(m.(managed := m.managed[i := AddListener(m.managed[i], fn)]), true)
  }

  /** `TryRemoveFunction`: remove `fn` from the first callback called `name`,
      if any, and pass on whether anything was removed. */
  function TryRemoveFunction(m: CallbackManager, name: string, fn: Listener): (r: Attempt)
    ensures (forall i :: 0 <= i < |m.managed| ==> m.managed[i].name != name) ==> r == Attempt(m, false)
    ensures forall i :: FirstMatch(m.managed, name, i) ==>
      && r.ok == RemoveListener(m.managed[i], fn).removed
      && r.ok == (fn in m.managed[i].listeners)
      && r.manager == m.(managed := m.managed[i := RemoveListener(m.managed[i], fn).callback])
  {
    match FindIndex(m.managed, name)
    case Miss => Attempt(m, false)
    case Hit(i) =>
      var removal := RemoveListener(m.managed[i], fn);
      Attempt(m.(managed := m.managed[i := removal.callback]), removal.removed)
  }

  /** Releasing keeps the ownership discipline: in particular a callback is
      deleted at most once. */
  lemma ReleaseCallbackPreservesValid(m: CallbackManager, h: CallbackRef)
    requires Valid(m)
    ensures Valid(ReleaseCallback(m, h))
  {
    if h.Ref? && h.id in Handles(m) {
      FilterKeepsDistinctIds(m.managed, Survives(h));
      var r := ReleaseCallback(m, h);
      assert r.managed == Filter(m.managed, Survives(h));
      forall id | id in r.deleted
        ensures id < r.nextId && r.deleted[id] == 1 && id !in Handles(r)
      {
        if id != h.id {
          assert id in m.deleted;
        }
      }
    }
  }

  /** Both releases leave the owned list as erase-remove leaves it: exactly
      the callbacks not identical to `h`, at the positions they had, in
      creation order. */
  lemma ReleaseKeepsOrder(m: CallbackManager, h: CallbackRef)
    ensures exists f :: Selects(m.managed, Survives(h), ReleaseCallbackAsWritten(m, h).managed, f)
    ensures exists f :: Selects(m.managed, Survives(h), ReleaseCallback(m, h).managed, f)
  {
    var kept := Filter(m.managed, Survives(h));
    var f := FilterPositions(m.managed, Survives(h));
    assert Selects(m.managed, Survives(h), ReleaseCallbackAsWritten(m, h).managed, f);
    if !(h.Ref? && h.id in Handles(m)) {
      assert forall i :: 0 <= i < |m.managed| ==> Survives(h)(m.managed[i]);
      FilterAllKept(m.managed, Survives(h));
    }
    assert Selects(m.managed, Survives(h), ReleaseCallback(m, h).managed, f);
  }

  /** The guarded release leaves the owned list exactly as erase-remove
      leaves it, whether or not the handle was owned. */
  lemma ReleaseIsFilter(m: CallbackManager, h: CallbackRef)
    ensures ReleaseCallback(m, h).managed == Filter(m.managed, Survives(h))
  {
    if !(h.Ref? && h.id in Handles(m)) {
      assert forall i :: 0 <= i < |m.managed| ==> Survives(h)(m.managed[i]);
      FilterAllKept(m.managed, Survives(h));
    }
  }

  /** Looking a name up right after creating a callback under it finds the new
      callback exactly when no earlier callback has that name; otherwise it
      still finds the earlier one. */
  lemma CreateThenFind(m: CallbackManager, name: string)
    ensures var c := CreateCallback(m, name);
      FindCallback(c.manager, name) == if FindCallback(m, name).Ref? then FindCallback(m, name) else c.handle
  {
  }

  /** A callback created after another of the same name is never returned by
      lookup by name. */
  lemma FindNeverReturnsShadowed(m: CallbackManager, i: nat, j: nat)
    requires Valid(m)
    requires i < j < |m.managed| && m.managed[i].name == m.managed[j].name
    ensures FindCallback(m, m.managed[j].name) != Ref(m.managed[j].id)
  {
  }

  /** Releasing a callback owned exactly once cuts it out of the list and
      leaves everything before and after it as it was. */
  lemma ReleaseCutsOut(m: CallbackManager, a: seq<ScriptCallback>, x: ScriptCallback, b: seq<ScriptCallback>)
    requires m.managed == a + [x] + b
    requires forall i :: 0 <= i < |a| ==> a[i].id != x.id
    requires forall i :: 0 <= i < |b| ==> b[i].id != x.id
    ensures ReleaseCallback(m, Ref(x.id)).managed == a + b
    ensures ReleaseCallback(m, Ref(x.id)).deleted == m.deleted + multiset{x.id}
  {
    var keep := Survives(Ref(x.id));
    assert x.id in Handles(m) by {
      assert m.managed[|a|] == x;
    }
    var r := ReleaseCallback(m, Ref(x.id));
    assert r.managed == Filter(a + [x] + b, keep);
    assert Filter(a, keep) == a by {
      assert forall i :: 0 <= i < |a| ==> keep(a[i]);
      FilterAllKept(a, keep);
    }
    assert Filter(b, keep) == b by {
      assert forall i :: 0 <= i < |b| ==> keep(b[i]);
      FilterAllKept(b, keep);
    }
    assert Filter([x], keep) == [] by {
      assert [x][1..] == [];
    }
    FilterAppend(a, [x], keep);
    assert Filter(a + [x], keep) == a;
    FilterAppend(a + [x], b, keep);
    assert Filter(a + [x] + b, keep) == a + b;
  }

  /** Releasing the callback just created restores the owned list and records
      exactly one delete of it. */
  lemma ReleaseAfterCreate(m: CallbackManager, name: string)
    requires Valid(m)
    ensures var c := CreateCallback(m, name);
      var r := ReleaseCallback(c.manager, c.handle);
      && r.managed == m.managed
      && r.deleted == m.deleted + multiset{m.nextId}
      && c.handle.id !in Handles(r)
  {
    var c := CreateCallback(m, name);
    var x := NewScriptCallback(m.nextId, name);
    assert c.manager.managed == m.managed + [x] + [];
    ReleaseCutsOut(c.manager, m.managed, x, []);
  }

  /** Releasing twice is releasing once: the second call finds nothing owned
      and deletes nothing. */
  lemma ReleaseCallbackIdempotent(m: CallbackManager, h: CallbackRef)
    ensures ReleaseCallback(ReleaseCallback(m, h), h) == ReleaseCallback(m, h)
  {
  }

  /** On an owned or null handle the guarded release does what the source does. */
  lemma ReleaseAgreesWhenOwned(m: CallbackManager, h: CallbackRef)
    requires h.Null? || h.id in Handles(m)
    ensures ReleaseCallbackAsWritten(m, h) == ReleaseCallback(m, h)
  {
  }

  /** The source's release deletes an already released callback a second
      time, which breaks the ownership discipline. */
  lemma ReleaseAsWrittenDeletesTwice(m: CallbackManager, h: CallbackRef)
    requires Valid(m) && h.Ref? && h.id in m.deleted
    ensures ReleaseCallbackAsWritten(m, h).deleted[h.id] == 2
    ensures !Valid(ReleaseCallbackAsWritten(m, h))
  {
  }

  /** A concrete run of the source's release: create one callback, release it
      twice; its single object is deleted twice. */
  lemma DoubleReleaseCounterexample()
    ensures var c := CreateCallback(EmptyManager(), "");
      var once := ReleaseCallbackAsWritten(c.manager, c.handle);
      var twice := ReleaseCallbackAsWritten(once, c.handle);
      && Valid(once)
      && twice.deleted[c.handle.id] == 2
      && !Valid(twice)
  {
  }

  /** Two owned lists with the same identities and names, position by position. */
  ghost predicate SameShape(a: seq<ScriptCallback>, b: seq<ScriptCallback>)
  {
    && |a| == |b|
    && forall i :: 0 <= i < |a| ==> a[i].id == b[i].id && a[i].name == b[i].name
  }

  lemma SameShapeKeepsLookup(a: CallbackManager, b: CallbackManager, name: string)
    requires SameShape(a.managed, b.managed) && a.nextId == b.nextId && a.deleted == b.deleted
    ensures Handles(a) == Handles(b)
    ensures FindCallback(a, name) == FindCallback(b, name)
    ensures Valid(a) <==> Valid(b)
  {
  }

  /** Adding or removing a listener by name keeps the owned identities, every
      name, and therefore every later lookup by name. */
  lemma ByNameKeepsLookup(m: CallbackManager, name: string, fn: Listener, other: string)
    ensures var added := TryAddFunction(m, name, fn).manager;
      Handles(added) == Handles(m) && FindCallback(added, other) == FindCallback(m, other)
      && (Valid(m) ==> Valid(added))
    ensures var removed := TryRemoveFunction(m, name, fn).manager;
      Handles(removed) == Handles(m) && FindCallback(removed, other) == FindCallback(m, other)
      && (Valid(m) ==> Valid(removed))
  {
    var added := TryAddFunction(m, name, fn).manager;
    assert SameShape(m.managed, added.managed);
    SameShapeKeepsLookup(m, added, other);
    var removed := TryRemoveFunction(m, name, fn).manager;
    assert SameShape(m.managed, removed.managed);
    SameShapeKeepsLookup(m, removed, other);
  }
}

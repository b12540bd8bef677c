/**
 `CallbackPair` in src/scripting/callback_manager.cpp: a `pre` and a `post`
 callback of one hooked operation, created together through the registry
 under the empty name and released together.

 The registry is the process-wide `globals::callbackManager` in the source;
 here it is passed in and returned.
 */
module CallbackPairs {
  import opened Sequences
  import opened ScriptCallbacks
  import opened CallbackManagers

  datatype CallbackPair = CallbackPair(pre: CallbackRef, post: CallbackRef)

  datatype PairCreated = PairCreated(manager: CallbackManager, pair: CallbackPair)

  /** The default constructor: create `pre`, then `post`, both named "". */
  function NewCallbackPair(m: CallbackManager): (r: PairCreated)
    ensures r.pair.pre.Ref? && r.pair.post.Ref? && r.pair.pre.id != r.pair.post.id
    ensures |r.manager.managed| == |m.managed| + 2
    ensures r.manager.managed[..|m.managed|] == m.managed
    ensures r.manager.managed[|m.managed|] == NewScriptCallback(r.pair.pre.id, "")
    ensures r.manager.managed[|m.managed| + 1] == NewScriptCallback(r.pair.post.id, "")
    ensures r.manager.deleted == m.deleted
    ensures Handles(r.manager) == Handles(m) + {r.pair.pre.id, r.pair.post.id}
    ensures Valid(m) ==>
      && Valid(r.manager)
      && r.pair.pre.id !in Handles(m) && r.pair.pre.id !in m.deleted
      && r.pair.post.id !in Handles(m) && r.pair.post.id !in m.deleted
  {
    var first := CreateCallback(m, "");
    var second := CreateCallback(first.manager, "");
    PairCreated(second.manager, CallbackPair(first.handle, second.handle))
  }

  /** The constructor taking `bNoCallbacks`: with the flag set it leaves both
      halves null and does not touch the registry (the null initial values
      come from the class declaration, which is not part of this model). */
  function NewCallbackPairWith(m: CallbackManager, noCallbacks: bool): (r: PairCreated)
    ensures noCallbacks ==> r == PairCreated(m, CallbackPair(Null, Null))
    ensures !noCallbacks ==> r == NewCallbackPair(m)
  {
    if noCallbacks then PairCreated(m, CallbackPair(Null, Null))
    else NewCallbackPair(m)
  }

  /** The delete a release of `h` performs on `m`: one of `h` when the
      registry owns it, none otherwise. */
  function OwnedDelete(m: CallbackManager, h: CallbackRef): multiset<nat>
  {
    if h.Ref? && h.id in Handles(m) then multiset{h.id} else multiset{}
  }

  /** The destructor: release `pre`, then `post`, through the guarded
      release. */
  function DestroyCallbackPair(m: CallbackManager, p: CallbackPair): (r: CallbackManager)
    ensures Handles(r) ==
      Handles(m) - (if p.pre.Ref? then {p.pre.id} else {}) - (if p.post.Ref? then {p.post.id} else {})
    ensures p == CallbackPair(Null, Null) ==> r == m
    ensures r.nextId == m.nextId
    // The surviving callbacks' records are untouched.
    ensures forall c :: c in r.managed <==> c in m.managed && Survives(p.pre)(c) && Survives(p.post)(c)
    // Each owned half is deleted once; a half the registry does not own is not deleted.
    ensures !(p.pre.Ref? && p.post.Ref? && p.pre.id == p.post.id) ==>
      r.deleted == m.deleted + OwnedDelete(m, p.pre) + OwnedDelete(m, p.post)
    ensures p.pre.Ref? && p.pre == p.post ==> r.deleted == m.deleted + OwnedDelete(m, p.pre)
  {
    ReleaseCallback(ReleaseCallback(m, p.pre), p.post)
  }

  /** While both halves are distinct and each is null or owned by the
      registry, destroying the pair does exactly what the source's two
      unguarded releases do. */
  lemma DestroyAgreesWithSource(m: CallbackManager, p: CallbackPair)
    requires p.pre.Null? || p.pre.id in Handles(m)
    requires p.post.Null? || p.post.id in Handles(m)
    requires !(p.pre.Ref? && p.post.Ref? && p.pre.id == p.post.id)
    ensures DestroyCallbackPair(m, p) ==
      ReleaseCallbackAsWritten(ReleaseCallbackAsWritten(m, p.pre), p.post)
  {
    ReleaseAgreesWhenOwned(m, p.pre);
    ReleaseAgreesWhenOwned(ReleaseCallback(m, p.pre), p.post);
  }

  /** Destroying a pair leaves the owned list as one erase-remove of both
      halves leaves it: exactly the other callbacks, at the positions they
      had, in creation order. */
  lemma DestroyKeepsOrder(m: CallbackManager, p: CallbackPair)
    ensures exists f :: Selects(m.managed, Both(Survives(p.pre), Survives(p.post)), DestroyCallbackPair(m, p).managed, f)
  {
    var mid := ReleaseCallback(m, p.pre);
    ReleaseIsFilter(m, p.pre);
    ReleaseIsFilter(mid, p.post);
    FilterFilter(m.managed, Survives(p.pre), Survives(p.post));
    var keep := Both(Survives(p.pre), Survives(p.post));
    assert DestroyCallbackPair(m, p).managed == Filter(m.managed, keep);
    assert Selects(m.managed, keep, DestroyCallbackPair(m, p).managed, FilterPositions(m.managed, keep));
  }

  lemma DestroyCallbackPairPreservesValid(m: CallbackManager, p: CallbackPair)
    requires Valid(m)
    ensures Valid(DestroyCallbackPair(m, p))
  {
    ReleaseCallbackPreservesValid(m, p.pre);
    ReleaseCallbackPreservesValid(ReleaseCallback(m, p.pre), p.post);
  }

  /** Releasing the two halves of a new pair, `pre` then `post`, cuts each
      out of the owned list in turn. */
  lemma PairReleasesCutOut(m: CallbackManager)
    requires Valid(m)
    ensures var c := NewCallbackPair(m);
      var r := ReleaseCallback(ReleaseCallback(c.manager, c.pair.pre), c.pair.post);
      && r.managed == m.managed
      && r.deleted == m.deleted + multiset{c.pair.pre.id} + multiset{c.pair.post.id}
  {
    var c := NewCallbackPair(m);
    var pre := NewScriptCallback(c.pair.pre.id, "");
    var post := NewScriptCallback(c.pair.post.id, "");
    assert c.manager.managed == m.managed + [pre] + [post];
    ReleaseCutsOut(c.manager, m.managed, pre, [post]);
    var mid := ReleaseCallback(c.manager, c.pair.pre);
    assert mid.managed == m.managed + [post] + [];
    ReleaseCutsOut(mid, m.managed, post, []);
  }

  /** Constructing a populated pair and destroying it restores the owned list,
      with each half deleted exactly once. */
  lemma PairRoundTrip(m: CallbackManager)
    requires Valid(m)
    ensures var c := NewCallbackPair(m);
      var r := DestroyCallbackPair(c.manager, c.pair);
      && r.managed == m.managed
      && r.deleted == m.deleted + multiset{c.pair.pre.id, c.pair.post.id}
      && Valid(r)
  {
    var c := NewCallbackPair(m);
    PairReleasesCutOut(m);
    assert DestroyCallbackPair(c.manager, c.pair) ==
      ReleaseCallback(ReleaseCallback(c.manager, c.pair.pre), c.pair.post);
    DestroyCallbackPairPreservesValid(c.manager, c.pair);
  }

  /** A pair built with `bNoCallbacks` set never touches the registry, neither
      when it is built nor when it is destroyed. */
  lemma DisabledPairLeavesRegistry(m: CallbackManager)
    ensures var c := NewCallbackPairWith(m, true);
      c.manager == m && DestroyCallbackPair(c.manager, c.pair) == m
  {
  }
}

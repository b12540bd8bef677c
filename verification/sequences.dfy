/**
 The erase-remove idiom over a vector, as a pure function on sequences.

 `Filter(s, keep)` is what remains of `s` after
 `s.erase(std::ranges::remove_if(s, not keep).begin(), s.end())`: every
 element that fails `keep` is dropped, every other element stays, and the
 survivors keep their relative order.
 */
module Sequences {

  /** The elements of `s` that satisfy `keep`, in their original order. */
  function Filter<T(==)>(s: seq<T>, keep: T -> bool): (r: seq<T>)
    ensures |r| <= |s|
    ensures forall i :: 0 <= i < |r| ==> r[i] in s && keep(r[i])
    ensures forall i :: 0 <= i < |s| && keep(s[i]) ==> s[i] in r
    decreases |s|
  {
    if s == [] then []
    else (if keep(s[0]) then [s[0]] else []) + Filter(s[1..], keep)
  }

  /** Filtering a concatenation filters each part: the survivors of an
      earlier part all come before the survivors of a later part. */
  lemma {:induction false} FilterAppend<T>(a: seq<T>, b: seq<T>, keep: T -> bool)
    ensures Filter(a + b, keep) == Filter(a, keep) + Filter(b, keep)
    decreases |a|
  {
    if a == [] {
      assert a + b == b;
    } else {
      assert (a + b)[0] == a[0];
      assert (a + b)[1..] == a[1..] + b;
      FilterAppend(a[1..], b, keep);
    }
  }

  /** Nothing is removed exactly when every element passes. */
  lemma {:induction false} FilterAllKept<T>(s: seq<T>, keep: T -> bool)
    ensures Filter(s, keep) == s <==> forall i :: 0 <= i < |s| ==> keep(s[i])
    decreases |s|
  {
    if forall i :: 0 <= i < |s| ==> keep(s[i]) {
      if s != [] {
        assert forall i :: 0 <= i < |s[1..]| ==> keep(s[1..][i]) by {
          forall i | 0 <= i < |s[1..]|
            ensures keep(s[1..][i])
          {
            assert s[1..][i] == s[i + 1];
          }
        }
        FilterAllKept(s[1..], keep);
        assert [s[0]] + s[1..] == s;
      }
    } else {
      var i :| 0 <= i < |s| && !keep(s[i]);
      assert s[i] in s;
      assert s[i] !in Filter(s, keep);
    }
  }

  /** The result is strictly shorter exactly when some element fails `keep`. */
  lemma {:induction false} FilterShrinks<T>(s: seq<T>, keep: T -> bool)
    ensures |Filter(s, keep)| < |s| <==> exists i :: 0 <= i < |s| && !keep(s[i])
    decreases |s|
  {
    if s != [] {
      FilterShrinks(s[1..], keep);
      if exists i :: 0 <= i < |s[1..]| && !keep(s[1..][i]) {
        var i :| 0 <= i < |s[1..]| && !keep(s[1..][i]);
        assert s[i + 1] == s[1..][i];
      }
      if exists i :: 0 <= i < |s| && !keep(s[i]) {
        var i :| 0 <= i < |s| && !keep(s[i]);
        if i > 0 {
          assert s[1..][i - 1] == s[i];
        }
      }
    }
  }

  /** Every surviving value keeps all its occurrences; a removed value keeps none. */
  lemma {:induction false} FilterCount<T>(s: seq<T>, keep: T -> bool, x: T)
    ensures multiset(Filter(s, keep))[x] == if keep(x) then multiset(s)[x] else 0
    decreases |s|
  {
    if s != [] {
      FilterCount(s[1..], keep, x);
      assert s == [s[0]] + s[1..];
      assert multiset(s) == multiset{s[0]} + multiset(s[1..]);
      var head := if keep(s[0]) then [s[0]] else [];
      assert multiset(Filter(s, keep)) == multiset(head) + multiset(Filter(s[1..], keep));
    }
  }

  /** The test passed by exactly the elements that pass both `a` and `b`. */
  function Both<T>(a: T -> bool, b: T -> bool): T -> bool
  {
    x => a(x) && b(x)
  }

  /** Two erase-removes in a row are one erase-remove with both tests. */
  lemma {:induction false} FilterFilter<T>(s: seq<T>, a: T -> bool, b: T -> bool)
    ensures Filter(Filter(s, a), b) == Filter(s, Both(a, b))
    decreases |s|
  {
    if s != [] {
      FilterFilter(s[1..], a, b);
      var head := if a(s[0]) then [s[0]] else [];
      assert Filter(s, a) == head + Filter(s[1..], a);
      FilterAppend(head, Filter(s[1..], a), b);
      if a(s[0]) {
        assert head[1..] == [];
      }
    }
  }

  /** `f` lists, in increasing order, the positions of `s` whose elements
      make up `r`: `r` is a subsequence of `s` through `f`. */
  ghost predicate Embeds<T>(s: seq<T>, r: seq<T>, f: seq<nat>)
  {
    && |f| == |r|
    && (forall k :: 0 <= k < |f| ==> f[k] < |s| && s[f[k]] == r[k])
    && (forall k, k' :: 0 <= k < k' < |f| ==> f[k] < f[k'])
  }

  /** `r` is what erase-remove leaves of `s`: it embeds into `s` through `f`,
      and `f` hits exactly the positions whose element passes `keep`. */
  ghost predicate Selects<T>(s: seq<T>, keep: T -> bool, r: seq<T>, f: seq<nat>)
  {
    && Embeds(s, r, f)
    && (forall i :: 0 <= i < |s| ==> (i in f <==> keep(s[i])))
  }

  /** Every position moved one place to the right. */
  function Shift(f: seq<nat>): (g: seq<nat>)
    ensures |g| == |f|
    ensures forall k :: 0 <= k < |f| ==> g[k] == f[k] + 1
  {
    seq(|f|, k requires 0 <= k < |f| => f[k] + 1)
  }

  /** The positions of the survivors of `Filter(s, keep)` in `s`: the
      survivors are the passing elements of `s`, each at its own position,
      in their original order. */
  ghost function FilterPositions<T>(s: seq<T>, keep: T -> bool): (f: seq<nat>)
    ensures Selects(s, keep, Filter(s, keep), f)
    decreases |s|
  {
    if s == [] then []
    else
      var rest := FilterPositions(s[1..], keep);
      EmbedsStep(s, keep, rest);
      HitsStep(s, keep, rest);
      (if keep(s[0]) then [0] else []) + Shift(rest)
  }

  /** Prepending the head's position (when it passes) to the tail's shifted
      positions embeds the survivors of `s`. */
  lemma {:induction false} EmbedsStep<T>(s: seq<T>, keep: T -> bool, rest: seq<nat>)
    requires s != []
    requires Embeds(s[1..], Filter(s[1..], keep), rest)
    ensures Embeds(s, Filter(s, keep), (if keep(s[0]) then [0] else []) + Shift(rest))
  {
  }

  /** The same positions are exactly those whose element passes `keep`. */
  lemma {:induction false} HitsStep<T>(s: seq<T>, keep: T -> bool, rest: seq<nat>)
    requires s != []
    requires forall i :: 0 <= i < |s[1..]| ==> (i in rest <==> keep(s[1..][i]))
    ensures var f := (if keep(s[0]) then [0] else []) + Shift(rest);
      forall i :: 0 <= i < |s| ==> (i in f <==> keep(s[i]))
  {
    var head: seq<nat> := if keep(s[0]) then [0] else [];
    var f := head + Shift(rest);
    forall i | 0 <= i < |s|
      ensures i in f <==> keep(s[i])
    {
      if i == 0 {
        assert forall k :: 0 <= k < |rest| ==> Shift(rest)[k] != 0;
      } else {
        assert s[i] == s[1..][i - 1];
        if i - 1 in rest {
          var k :| 0 <= k < |rest| && rest[k] == i - 1;
          assert f[|head| + k] == i;
        }
        if i in f {
          var k :| 0 <= k < |f| && f[k] == i;
          assert rest[k - |head|] == i - 1;
        }
      }
    }
  }
}

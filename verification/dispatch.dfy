/**
 * The ordered dispatch table. Types are opaque ids with a declared
 * proper-ancestor relation `anc` (a Python class's `mro()[1:]`). Encoders
 * are registered as (type, rule) pairs; `SortMro` orders them so that a type
 * comes before every registered ancestor of it, and `FirstMatch` is the scan
 * that picks the first entry the value's type is an instance of.
 */
module Dispatch {
  import opened Wrappers

  /** A well-formed ancestor relation: no type is its own ancestor, and ancestors of ancestors are ancestors. */
  ghost predicate StrictHierarchy<T(!new)>(anc: T -> set<T>) {
    && (forall t :: t !in anc(t))
    && (forall t, a, b :: a in anc(t) && b in anc(a) ==> b in anc(t))
  }

  /** `isinstance`: a value whose runtime type is `x` is an instance of `t`. */
  predicate IsInstance<T(==)>(x: T, t: T, anc: T -> set<T>) {
    x == t || t in anc(x)
  }

  /** No entry is an ancestor of a later entry: subclasses are tried first. */
  ghost predicate DescendantsFirst<T, R>(order: seq<(T, R)>, anc: T -> set<T>) {
    forall i, j | 0 <= i < j < |order| :: order[i].0 !in anc(order[j].0)
  }

  predicate Distinct<T(==)>(s: seq<T>) {
    forall i, j | 0 <= i < j < |s| :: s[i] != s[j]
  }

  function TypesOf<T, R>(regs: seq<(T, R)>): (ts: seq<T>)
    ensures |ts| == |regs|
    ensures forall i | 0 <= i < |regs| :: ts[i] == regs[i].0
  {
    if |regs| == 0 then [] else [regs[0].0] + TypesOf(regs[1..])
  }

  /** The first occurrence of each element, in order. */
  function Dedup<T(==)>(s: seq<T>): (r: seq<T>)
    ensures Distinct(r)
    ensures forall x | x in r :: x in s
    ensures forall x | x in s :: x in r
  {
    if |s| == 0 then []
    else
      var rest := Dedup(s[..|s| - 1]);
      if s[|s| - 1] in rest then rest else rest + [s[|s| - 1]]
  }

  /** How many elements of `s` lie in `pool`. */
  function CountIn<T>(s: seq<T>, pool: set<T>): nat {
    if |s| == 0 then 0 else (if s[0] in pool then 1 else 0) + CountIn(s[1..], pool)
  }

  lemma {:induction false} CountInStrictlyGrows<T>(s: seq<T>, small: set<T>, big: set<T>, x: T)
    requires small <= big
    requires x in s && x in big && x !in small
    ensures CountIn(s, small) < CountIn(s, big)
  {
    if s[0] != x {
      CountInStrictlyGrows(s[1..], small, big, x);
    } else {
      CountInGrows(s[1..], small, big);
    }
  }

  lemma {:induction false} CountInGrows<T>(s: seq<T>, small: set<T>, big: set<T>)
    requires small <= big
    ensures CountIn(s, small) <= CountIn(s, big)
  {
    if |s| > 0 {
      CountInGrows(s[1..], small, big);
    }
  }

  /** How many of the types in `all` are ancestors of `t`. */
  function Depth<T>(t: T, all: seq<T>, anc: T -> set<T>): nat {
    CountIn(all, anc(t))
  }

  /** Every type of `all` is shallower than each of its descendants. */
  ghost predicate Graded<T(!new)>(all: seq<T>, anc: T -> set<T>) {
    forall t, d | t in all && t in anc(d) :: Depth(t, all, anc) < Depth(d, all, anc)
  }

  /** A proper descendant is deeper than its ancestor. */
  lemma StrictHierarchyIsGraded<T(!new)>(all: seq<T>, anc: T -> set<T>)
    requires StrictHierarchy(anc)
    ensures Graded(all, anc)
  {
    forall t, d | t in all && t in anc(d)
      ensures Depth(t, all, anc) < Depth(d, all, anc)
    {
      assert anc(t) <= anc(d);
      CountInStrictlyGrows(all, anc(t), anc(d), t);
    }
  }

  /** The index of the first deepest element of `pending`. */
  function Deepest<T>(pending: seq<T>, all: seq<T>, anc: T -> set<T>): (k: nat)
    requires |pending| > 0
    ensures k < |pending|
    ensures forall j | 0 <= j < |pending| :: Depth(pending[j], all, anc) <= Depth(pending[k], all, anc)
  {
    if |pending| == 1 then 0
    else
      var k := Deepest(pending[1..], all, anc);
      if Depth(pending[0], all, anc) >= Depth(pending[k + 1], all, anc) then 0 else k + 1
  }

  /**
   * A linearization of `pending` in which no element precedes one of its
   * descendants: repeatedly take a deepest remaining type.
   */
  function Linearize<T>(pending: seq<T>, all: seq<T>, anc: T -> set<T>): (r: seq<T>)
    ensures multiset(r) == multiset(pending)
    decreases |pending|
  {
    if |pending| == 0 then []
    else
      var k := Deepest(pending, all, anc);
      var rest := pending[..k] + pending[k + 1..];
      assert pending == pending[..k] + [pending[k]] + pending[k + 1..];
      [pending[k]] + Linearize(rest, all, anc)
  }

  /** The deepest pending type is no ancestor of any other pending type. */
  lemma DeepestIsNoAncestor<T(!new)>(pending: seq<T>, all: seq<T>, anc: T -> set<T>)
    requires Graded(all, anc)
    requires |pending| > 0
    requires forall x | x in pending :: x in all
    ensures var head := pending[Deepest(pending, all, anc)];
            forall x | x in pending :: head !in anc(x)
  {
    var head := pending[Deepest(pending, all, anc)];
    forall x | x in pending
      ensures head !in anc(x)
    {
    }
  }

  /** Each element is no ancestor of any element after it. */
  ghost predicate AncestorsLast<T>(r: seq<T>, anc: T -> set<T>) {
    forall i, j | 0 <= i < j < |r| :: r[i] !in anc(r[j])
  }

  lemma ConsAncestorsLast<T>(head: T, tail: seq<T>, anc: T -> set<T>)
    requires AncestorsLast(tail, anc)
    requires forall x | x in tail :: head !in anc(x)
    ensures AncestorsLast([head] + tail, anc)
  {
    var r := [head] + tail;
    forall i, j | 0 <= i < j < |r|
      ensures r[i] !in anc(r[j])
    {
      assert r[j] == tail[j - 1];
      if i > 0 {
        assert r[i] == tail[i - 1];
      }
    }
  }

  lemma {:induction false} LinearizeOrdered<T(!new)>(pending: seq<T>, all: seq<T>, anc: T -> set<T>)
    requires Graded(all, anc)
    requires forall x | x in pending :: x in all
    ensures AncestorsLast(Linearize(pending, all, anc), anc)
    decreases |pending|
  {
    if |pending| > 0 {
      var k := Deepest(pending, all, anc);
      var head := pending[k];
      var rest := pending[..k] + pending[k + 1..];
      assert forall x | x in rest :: x in pending;
      LinearizeOrdered(rest, all, anc);
      DeepestIsNoAncestor(pending, all, anc);
      var tail := Linearize(rest, all, anc);
      assert forall x | x in tail :: x in pending by {
        assert forall x | x in tail :: x in multiset(rest);
      }
      ConsAncestorsLast(head, tail, anc);
    }
  }

  /** The index of the last registration of `t`, the one `dict(...)` keeps. */
  function LastIndexOf<T(==), R>(regs: seq<(T, R)>, t: T): (j: nat)
    requires t in TypesOf(regs)
    ensures j < |regs| && regs[j].0 == t
    ensures forall k | j < k < |regs| :: regs[k].0 != t
  {
    if regs[|regs| - 1].0 == t then |regs| - 1
    else
      assert TypesOf(regs) == TypesOf(regs[..|regs| - 1]) + [regs[|regs| - 1].0];
      LastIndexOf(regs[..|regs| - 1], t)
  }

  /** Pairs each type with the rule of its last registration. */
  function Attach<T(==), R>(ts: seq<T>, regs: seq<(T, R)>): (order: seq<(T, R)>)
    requires forall t | t in ts :: t in TypesOf(regs)
    ensures TypesOf(order) == ts
    ensures forall i | 0 <= i < |ts| :: order[i] == regs[LastIndexOf(regs, ts[i])]
  {
    if |ts| == 0 then []
    else [regs[LastIndexOf(regs, ts[0])]] + Attach(ts[1..], regs)
  }

  /**
   * `sort_mro`: every registered type exactly once, each with the rule it was
   * registered with last, and no type after a registered descendant of it.
   */
  function SortMro<T(!new), R>(regs: seq<(T, R)>, anc: T -> set<T>): (order: seq<(T, R)>)
    requires StrictHierarchy(anc)
    ensures Distinct(TypesOf(order))
    ensures forall p | p in regs :: p.0 in TypesOf(order)
    ensures forall i | 0 <= i < |order| ::
              order[i] in regs && order[i] == regs[LastIndexOf(regs, order[i].0)]
    ensures DescendantsFirst(order, anc)
  {
    var all := Dedup(TypesOf(regs));
    var ts := Linearize(all, all, anc);
    StrictHierarchyIsGraded(all, anc);
    LinearizeOrdered(all, all, anc);
    LinearizedTypes(regs, all, ts);
    AttachOrdered(ts, regs, anc);
    Attach(ts, regs)
  }

  /** Attaching rules to an ordering of the registered types keeps its order and takes each rule from `regs`. */
  lemma AttachOrdered<T(!new), R>(ts: seq<T>, regs: seq<(T, R)>, anc: T -> set<T>)
    requires Distinct(ts) && AncestorsLast(ts, anc)
    requires forall t | t in ts :: t in TypesOf(regs)
    requires forall p | p in regs :: p.0 in ts
    ensures var order := Attach(ts, regs);
            && Distinct(TypesOf(order))
            && (forall p | p in regs :: p.0 in TypesOf(order))
            && (forall i | 0 <= i < |order| ::
                  order[i] in regs && order[i] == regs[LastIndexOf(regs, order[i].0)])
            && DescendantsFirst(order, anc)
  {
    var order := Attach(ts, regs);
    assert TypesOf(order) == ts;
    forall i | 0 <= i < |order|
      ensures order[i] in regs && order[i] == regs[LastIndexOf(regs, order[i].0)]
    {
      assert order[i].0 == ts[i];
    }
    forall i, j | 0 <= i < j < |order|
      ensures order[i].0 !in anc(order[j].0)
    {
      assert order[i].0 == ts[i] && order[j].0 == ts[j];
    }
  }

  lemma LinearizedTypes<T, R>(regs: seq<(T, R)>, all: seq<T>, ts: seq<T>)
    requires all == Dedup(TypesOf(regs))
    requires multiset(ts) == multiset(all)
    ensures Distinct(ts)
    ensures forall t | t in ts :: t in TypesOf(regs)
    ensures forall p | p in regs :: p.0 in ts
  {
    DistinctPermutation(all, ts);
    forall p | p in regs
      ensures p.0 in ts
    {
      TypesOfContains(regs, p);
      assert p.0 in multiset(ts);
    }
    forall t | t in ts
      ensures t in TypesOf(regs)
    {
      assert t in multiset(all);
    }
  }

  lemma TypesOfContains<T, R>(regs: seq<(T, R)>, p: (T, R))
    requires p in regs
    ensures p.0 in TypesOf(regs)
  {
    var i :| 0 <= i < |regs| && regs[i] == p;
    assert TypesOf(regs)[i] == p.0;
  }

  lemma DistinctPermutation<T>(s: seq<T>, r: seq<T>)
    requires Distinct(s) && multiset(r) == multiset(s)
    ensures Distinct(r)
  {
    forall i, j | 0 <= i < j < |r|
      ensures r[i] != r[j]
    {
      if r[i] == r[j] {
        assert multiset(r)[r[i]] >= 2 by {
          assert r == r[..i] + [r[i]] + r[i + 1..j] + [r[j]] + r[j + 1..];
        }
        DistinctOccursOnce(s, r[i]);
      }
    }
  }

  lemma {:induction false} DistinctOccursOnce<T>(s: seq<T>, x: T)
    requires Distinct(s)
    ensures multiset(s)[x] <= 1
  {
    if |s| > 0 {
      assert s == [s[0]] + s[1..];
      assert s[0] !in s[1..];
      DistinctOccursOnce(s[1..], x);
    }
  }

  /** The scan of `Encoder._encode`: the index of the first entry `x` is an instance of. */
  function FirstMatch<T(==), R>(order: seq<(T, R)>, x: T, anc: T -> set<T>): (r: Option<nat>)
    ensures r.None? <==> forall i | 0 <= i < |order| :: !IsInstance(x, order[i].0, anc)
    ensures r.Some? ==> r.value < |order| && IsInstance(x, order[r.value].0, anc)
    ensures r.Some? ==> forall i | 0 <= i < r.value :: !IsInstance(x, order[i].0, anc)
  {
    if |order| == 0 then None
    else if IsInstance(x, order[0].0, anc) then Some(0)
    else
      match FirstMatch(order[1..], x, anc)
      case None => None
      case Some(i) => Some(i + 1)
  }

  /**
   * In a descendants-first table the first match is a most specific match:
   * no other entry that matches is a descendant of it.
   */
  lemma FirstMatchIsMostSpecific<T, R>(order: seq<(T, R)>, x: T, anc: T -> set<T>)
    requires DescendantsFirst(order, anc)
    ensures var r := FirstMatch(order, x, anc);
            r.Some? ==> forall j | 0 <= j < |order| && j != r.value && IsInstance(x, order[j].0, anc) ::
                          order[r.value].0 !in anc(order[j].0)
  {
  }

  /** A value whose own type is registered is dispatched to that type's entry. */
  lemma OwnTypeMatchesFirst<T, R>(order: seq<(T, R)>, x: T, anc: T -> set<T>, k: nat)
    requires DescendantsFirst(order, anc)
    requires k < |order| && order[k].0 == x
    requires Distinct(TypesOf(order))
    ensures FirstMatch(order, x, anc) == Some(k)
  {
    FirstMatchIsMostSpecific(order, x, anc);
    var i := FirstMatch(order, x, anc).value;
    assert TypesOf(order)[i] == order[i].0;
  }
}

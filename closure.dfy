/** Epsilon closure: the states reachable from a state through zero or more
    epsilon moves, computed by a worklist search. */
module Closure {
  import opened Automata

  /** `(a, "", b)` is one of the transitions. */
  predicate EpsEdge(ts: seq<Transition>, a: int, b: int)
  {
    Transition(a, "", b) in ts
  }

  /** `p` is a non-empty chain of states joined by epsilon moves. */
  ghost predicate EpsPath(ts: seq<Transition>, p: seq<int>)
  {
    |p| > 0 && forall i :: 0 <= i < |p| - 1 ==> EpsEdge(ts, p[i], p[i + 1])
  }

  /** `x` is reached from `s` by zero or more epsilon moves. */
  ghost predicate EpsReachable(ts: seq<Transition>, s: int, x: int)
  {
    exists p :: EpsPath(ts, p) && p[0] == s && p[|p| - 1] == x
  }

  /** No epsilon move leaves `states`. */
  predicate EpsClosed(ts: seq<Transition>, states: set<int>)
  {
    forall t :: t in ts && IsEpsilon(t) && t.from in states ==> t.to in states
  }

  /** Every destination named by some transition. */
  function Targets(ts: seq<Transition>): set<int>
  {
    set t | t in ts :: t.to
  }

  /** The epsilon closure of `s`, as reachability. Each member other than `s`
      is the destination of the last move of its path, so the closure lies
      inside `{s} + Targets(ts)`. */
  ghost function EpsClosure(ts: seq<Transition>, s: int): set<int>
  {
    set x | x in {s} + Targets(ts) && EpsReachable(ts, s, x)
  }

  /** Zero moves: `s` reaches itself. */
  lemma ClosureContainsSelf(ts: seq<Transition>, s: int)
    ensures s in EpsClosure(ts, s)
  {
    assert EpsPath(ts, [s]);
  }

  /** One more epsilon move extends a path. */
  lemma ReachExtend(ts: seq<Transition>, s: int, a: int, b: int)
    requires EpsReachable(ts, s, a) && EpsEdge(ts, a, b)
    ensures EpsReachable(ts, s, b)
  {
    var p :| EpsPath(ts, p) && p[0] == s && p[|p| - 1] == a;
    var q := p + [b];
    forall i | 0 <= i < |q| - 1 ensures EpsEdge(ts, q[i], q[i + 1]) {
      if i < |p| - 1 {
        assert q[i] == p[i] && q[i + 1] == p[i + 1];
      }
    }
    assert EpsPath(ts, q);
  }

  /** The closure is closed under epsilon moves. */
  lemma ClosureIsClosed(ts: seq<Transition>, s: int)
    ensures EpsClosed(ts, EpsClosure(ts, s))
  {
    forall t | t in ts && IsEpsilon(t) && t.from in EpsClosure(ts, s)
      ensures t.to in EpsClosure(ts, s)
    {
      assert t == Transition(t.from, "", t.to);
      ReachExtend(ts, s, t.from, t.to);
    }
  }

  /** The closure is the least set containing `s` that is closed under
      epsilon moves: every such set contains it. */
  lemma {:induction false} ClosureLeast(ts: seq<Transition>, s: int, c: set<int>)
    requires s in c && EpsClosed(ts, c)
    ensures EpsClosure(ts, s) <= c
  {
    forall x | x in EpsClosure(ts, s) ensures x in c {
      var p :| EpsPath(ts, p) && p[0] == s && p[|p| - 1] == x;
      PathStaysInside(ts, p, c);
    }
  }

  lemma {:induction false} PathStaysInside(ts: seq<Transition>, p: seq<int>, c: set<int>)
    requires EpsPath(ts, p) && p[0] in c && EpsClosed(ts, c)
    ensures p[|p| - 1] in c
  {
    if |p| > 1 {
      var prefix := p[..|p| - 1];
      assert EpsPath(ts, prefix);
      PathStaysInside(ts, prefix, c);
      assert EpsEdge(ts, p[|p| - 2], p[|p| - 1]);
      var t := Transition(p[|p| - 2], "", p[|p| - 1]);
      assert t in ts && IsEpsilon(t) && t.from in c;
    }
  }

  /** Without epsilon moves the closure of a state is the state alone. */
  lemma ClosureWithoutEpsilon(ts: seq<Transition>, s: int)
    requires forall t :: t in ts ==> !IsEpsilon(t)
    ensures EpsClosure(ts, s) == {s}
  {
    ClosureLeast(ts, s, {s});
    ClosureContainsSelf(ts, s);
  }

  /** The worklist search: `closure` starts as `{s}` and a stack holds the
      states whose epsilon moves are still to be followed; a destination is
      added to the closure, and pushed, the first time it is seen. */
  method EpsilonClosure(s: int, ts: seq<Transition>) returns (closure: set<int>)
    ensures s in closure && EpsClosed(ts, closure)
    ensures forall x :: x in closure ==> EpsReachable(ts, s, x)
    ensures closure == EpsClosure(ts, s)
  {
    ghost var universe := {s} + Targets(ts);
    ClosureContainsSelf(ts, s);
    closure := {s};
    var stack := [s];
    while stack != []
      invariant closure <= universe && s in closure
      invariant forall k :: 0 <= k < |stack| ==> stack[k] in closure
      invariant forall x :: x in closure ==> EpsReachable(ts, s, x)
      invariant forall t :: t in ts && IsEpsilon(t) && t.from in closure && t.from !in stack ==> t.to in closure
      decreases universe - closure, |stack|
    {
      var current := stack[|stack| - 1];
      stack := stack[..|stack| - 1];
      ghost var closure0, stack0 := closure, stack;
      for j := 0 to |ts|
        invariant closure0 <= closure <= universe
        invariant closure == closure0 ==> stack == stack0
        invariant forall k :: 0 <= k < |stack| ==> stack[k] in closure
        invariant forall x :: x in closure ==> EpsReachable(ts, s, x)
        invariant forall t :: t in ts && IsEpsilon(t) && t.from in closure && t.from !in stack && t.from != current ==> t.to in closure
        invariant forall t :: t in ts[..j] && IsEpsilon(t) && t.from == current ==> t.to in closure
        invariant |stack0| <= |stack|
        invariant forall k :: 0 <= k < |stack0| ==> stack[k] == stack0[k]
      {
        var t := ts[j];
        assert ts[..j + 1] == ts[..j] + [t];
        if t.from == current && t.read == "" && t.to !in closure {
          assert t == Transition(current, "", t.to);
          ReachExtend(ts, s, current, t.to);
          closure := closure + {t.to};
          stack := stack + [t.to];
        }
      }
      assert ts[..|ts|] == ts;
    }
    ClosureLeast(ts, s, closure);
  }
}

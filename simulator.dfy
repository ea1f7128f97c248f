/** The three acceptance simulators, one per kind of automaton, each proved
    against a recursive definition of the run it performs. */
module Simulator {
  import opened Automata
  import opened Closure

  // ---------------------------------------------------------------------
  // Deterministic simulation: one current state, first matching transition.

  /** The destination of the first transition, in list order, that fires
      from `q` on `sym`; `None` when no transition fires. */
  function FirstMatch(ts: seq<Transition>, q: int, sym: string): (r: Option<int>)
    ensures r.None? <==> forall t :: t in ts ==> !Fires(t, q, sym)
    ensures r.Some? ==> exists k :: 0 <= k < |ts| && Fires(ts[k], q, sym) && ts[k].to == r.value
                                    && forall j :: 0 <= j < k ==> !Fires(ts[j], q, sym)
  {
    if ts == [] then None
    else if Fires(ts[0], q, sym) then Some(ts[0].to)
    else
      var r := FirstMatch(ts[1..], q, sym);
      assert forall t :: t in ts ==> t == ts[0] || t in ts[1..];
      if r.Some? then
        var k :| 0 <= k < |ts[1..]| && Fires(ts[1..][k], q, sym) && ts[1..][k].to == r.value
                 && forall j :: 0 <= j < k ==> !Fires(ts[1..][j], q, sym);
        assert Fires(ts[k + 1], q, sym) && forall j :: 0 <= j < k + 1 ==> !Fires(ts[j], q, sym);
        r
      else
        r
  }

  /** The state the deterministic simulation ends in after reading `w` from
      `q`, or `None` when some character finds no transition. */
  function DfaRun(ts: seq<Transition>, q: int, w: string): Option<int>
    decreases |w|
  {
    if w == [] then Some(q)
    else
      match FirstMatch(ts, q, Symbol(w[0]))
      case None => None
      case Some(p) => DfaRun(ts, p, w[1..])
  }

  /** The deterministic simulation accepts `w`. */
  function DfaAccepts(ts: seq<Transition>, finals: seq<int>, initial: int, w: string): bool
  {
    match DfaRun(ts, initial, w)
    case None => false
    case Some(p) => p in finals
  }

  /** The deterministic simulator: for each character, the first transition
      in list order that fires moves the current state; none firing rejects
      at once; at the end the current state must be accepting. */
  method RunDfa(word: string, initial: int, finals: seq<int>, ts: seq<Transition>) returns (accepted: bool)
    ensures accepted == DfaAccepts(ts, finals, initial, word)
  {
    var state := initial;
    for i := 0 to |word|
      invariant DfaRun(ts, initial, word) == DfaRun(ts, state, word[i..])
    {
      var sym := Symbol(word[i]);
      assert word[i..][0] == word[i] && word[i..][1..] == word[i + 1..];
      ghost var q := state;
      var valid := false;
      for j := 0 to |ts|
        invariant !valid && state == q
        invariant FirstMatch(ts, q, sym) == FirstMatch(ts[j..], q, sym)
      {
        assert ts[j..][1..] == ts[j + 1..];
        if ts[j].from == state && ts[j].read == sym {
          state := ts[j].to;
          valid := true;
          break;
        }
      }
      if !valid {
        return false;
      }
    }
    assert word[|word|..] == [];
    accepted := state in finals;
  }

  // ---------------------------------------------------------------------
  // Nondeterministic simulation: a set of current states.

  /** The set of states the subset simulation holds after reading `w` from
      `states`; once empty it stays empty. */
  function NfaRun(ts: seq<Transition>, states: set<int>, w: string): set<int>
    decreases |w|
  {
    if w == [] then states
    else NfaRun(ts, Step(ts, states, Symbol(w[0])), w[1..])
  }

  /** The nondeterministic simulation accepts `w`. */
  function NfaAccepts(ts: seq<Transition>, finals: seq<int>, initial: int, w: string): bool
  {
    Meets(NfaRun(ts, {initial}, w), finals)
  }

  /** No live state: the run stays empty, so rejecting early is sound. */
  lemma {:induction false} NfaRunFromEmpty(ts: seq<Transition>, w: string)
    ensures NfaRun(ts, {}, w) == {}
    decreases |w|
  {
    if w != [] {
      assert Step(ts, {}, Symbol(w[0])) == {};
      NfaRunFromEmpty(ts, w[1..]);
    }
  }

  /** One step of the subset simulation, as the nested loops compute it:
      every current state, every transition that fires from it. */
  method Image(ts: seq<Transition>, current: set<int>, sym: string) returns (next: set<int>)
    ensures next == Step(ts, current, sym)
  {
    next := {};
    var rest := current;
    while rest != {}
      invariant rest <= current
      invariant next == Step(ts, current - rest, sym)
      decreases rest
    {
      InhabitedStates(rest);
      var q :| q in rest;
      for j := 0 to |ts|
        invariant next == Step(ts, current - rest, sym) + Step(ts[..j], {q}, sym)
      {
        assert ts[..j + 1] == ts[..j] + [ts[j]];
        StepSnoc(ts[..j], ts[j], {q}, sym);
        if ts[j].from == q && ts[j].read == sym {
          next := next + {ts[j].to};
        }
      }
      assert ts[..|ts|] == ts;
      StepUnion(ts, current - rest, {q}, sym);
      assert current - (rest - {q}) == (current - rest) + {q};
      rest := rest - {q};
    }
    assert current - rest == current;
  }

  /** The final check: some current state is in the list of accepting states. */
  method AnyFinal(states: set<int>, finals: seq<int>) returns (found: bool)
    ensures found == Meets(states, finals)
  {
    var rest := states;
    while rest != {}
      invariant rest <= states
      invariant forall q :: q in states - rest ==> q !in finals
      decreases rest
    {
      InhabitedStates(rest);
      var q :| q in rest;
      if q in finals {
        return true;
      }
      rest := rest - {q};
    }
    return false;
  }

  /** The nondeterministic simulator: the current set starts as the initial
      state alone, is replaced by its image on each character, an empty
      image rejects at once, and at the end some current state must be
      accepting. */
  method RunNfa(word: string, initial: int, finals: seq<int>, ts: seq<Transition>) returns (accepted: bool)
    ensures accepted == NfaAccepts(ts, finals, initial, word)
  {
    var current := {initial};
    for i := 0 to |word|
      invariant NfaRun(ts, {initial}, word) == NfaRun(ts, current, word[i..])
    {
      assert word[i..][0] == word[i] && word[i..][1..] == word[i + 1..];
      var next := Image(ts, current, Symbol(word[i]));
      current := next;
      if current == {} {
        NfaRunFromEmpty(ts, word[i + 1..]);
        return false;
      }
    }
    assert word[|word|..] == [];
    accepted := AnyFinal(current, finals);
  }

  // ---------------------------------------------------------------------
  // Nondeterministic simulation with epsilon moves.

  /** The union of the epsilon closures of the states of `d`. */
  ghost function ClosureImage(ts: seq<Transition>, d: set<int>): set<int>
  {
    set p, x | p in d && x in EpsClosure(ts, p) :: x
  }

  /** One step with epsilon moves: the closure of every destination of a
      transition that fires from a current state. */
  ghost function StepE(ts: seq<Transition>, states: set<int>, sym: string): set<int>
  {
    ClosureImage(ts, Step(ts, states, sym))
  }

  /** The set of states held after reading `w` from `states`. */
  ghost function NfaERun(ts: seq<Transition>, states: set<int>, w: string): set<int>
    decreases |w|
  {
    if w == [] then states
    else NfaERun(ts, StepE(ts, states, Symbol(w[0])), w[1..])
  }

  /** The simulation with epsilon moves accepts `w`: it starts from the
      closure of the initial state. */
  ghost predicate NfaEAccepts(ts: seq<Transition>, finals: seq<int>, initial: int, w: string)
  {
    Meets(NfaERun(ts, EpsClosure(ts, initial), w), finals)
  }

  /** A state is in the next set exactly when it is in the closure of the
      destination of some transition that fires from a current state. */
  lemma StepEAsUnion(ts: seq<Transition>, states: set<int>, sym: string, x: int)
    ensures x in StepE(ts, states, sym)
        <==> exists t :: t in ts && t.from in states && t.read == sym && x in EpsClosure(ts, t.to)
  {
    if x in StepE(ts, states, sym) {
      var p :| p in Step(ts, states, sym) && x in EpsClosure(ts, p);
      var t :| t in ts && t.from in states && t.read == sym && t.to == p;
    }
  }

  lemma ClosureImageAdd(ts: seq<Transition>, d: set<int>, p: int)
    ensures ClosureImage(ts, d + {p}) == ClosureImage(ts, d) + EpsClosure(ts, p)
  {
  }

  /** Every set a step with epsilon moves produces is closed under them. */
  lemma ClosureImageClosed(ts: seq<Transition>, d: set<int>)
    ensures EpsClosed(ts, ClosureImage(ts, d))
  {
    forall t | t in ts && IsEpsilon(t) && t.from in ClosureImage(ts, d)
      ensures t.to in ClosureImage(ts, d)
    {
      var p :| p in d && t.from in EpsClosure(ts, p);
      ClosureIsClosed(ts, p);
    }
  }

  /** Every set the simulation with epsilon moves holds is closed under
      epsilon moves, provided it starts from a closed set (the closure of
      the initial state is one). */
  lemma {:induction false} NfaERunClosed(ts: seq<Transition>, states: set<int>, w: string)
    requires EpsClosed(ts, states)
    ensures EpsClosed(ts, NfaERun(ts, states, w))
    decreases |w|
  {
    if w != [] {
      ClosureImageClosed(ts, Step(ts, states, Symbol(w[0])));
      NfaERunClosed(ts, StepE(ts, states, Symbol(w[0])), w[1..]);
    }
  }

  /** No live state: the run with epsilon moves stays empty as well. */
  lemma {:induction false} NfaERunFromEmpty(ts: seq<Transition>, w: string)
    ensures NfaERun(ts, {}, w) == {}
    decreases |w|
  {
    if w != [] {
      assert Step(ts, {}, Symbol(w[0])) == {};
      assert ClosureImage(ts, {}) == {};
      NfaERunFromEmpty(ts, w[1..]);
    }
  }

  /** One step with epsilon moves, as the nested loops compute it: the
      closure of the destination of every transition that fires from a
      current state is added to the next set. */
  method ImageEpsilon(ts: seq<Transition>, current: set<int>, sym: string) returns (next: set<int>)
    ensures next == StepE(ts, current, sym)
  {
    next := {};
    var rest := current;
    assert ClosureImage(ts, {}) == {};
    while rest != {}
      invariant rest <= current
      invariant next == ClosureImage(ts, Step(ts, current - rest, sym))
      decreases rest
    {
      InhabitedStates(rest);
      var q :| q in rest;
      for j := 0 to |ts|
        invariant next == ClosureImage(ts, Step(ts, current - rest, sym) + Step(ts[..j], {q}, sym))
      {
        assert ts[..j + 1] == ts[..j] + [ts[j]];
        StepSnoc(ts[..j], ts[j], {q}, sym);
        if ts[j].from == q && ts[j].read == sym {
          var reached := EpsilonClosure(ts[j].to, ts);
          ClosureImageAdd(ts, Step(ts, current - rest, sym) + Step(ts[..j], {q}, sym), ts[j].to);
          next := next + reached;
        }
      }
      assert ts[..|ts|] == ts;
      StepUnion(ts, current - rest, {q}, sym);
      assert current - (rest - {q}) == (current - rest) + {q};
      rest := rest - {q};
    }
    assert current - rest == current;
  }

  /** The simulator with epsilon moves: the current set starts as the
      closure of the initial state, each character replaces it by the
      union of the closures of the destinations, an empty set rejects at
      once, and at the end some current state must be accepting. */
  method RunNfaEpsilon(word: string, initial: int, finals: seq<int>, ts: seq<Transition>) returns (accepted: bool)
    ensures accepted == NfaEAccepts(ts, finals, initial, word)
  {
    var current := EpsilonClosure(initial, ts);
    for i := 0 to |word|
      invariant NfaERun(ts, EpsClosure(ts, initial), word) == NfaERun(ts, current, word[i..])
    {
      assert word[i..][0] == word[i] && word[i..][1..] == word[i + 1..];
      var next := ImageEpsilon(ts, current, Symbol(word[i]));
      current := next;
      if current == {} {
        NfaERunFromEmpty(ts, word[i + 1..]);
        return false;
      }
    }
    assert word[|word|..] == [];
    accepted := AnyFinal(current, finals);
  }

  // ---------------------------------------------------------------------
  // The empty word.

  /** On the empty word the deterministic simulator only checks the
      initial state. */
  lemma DfaEmptyWord(ts: seq<Transition>, finals: seq<int>, initial: int)
    ensures DfaAccepts(ts, finals, initial, "") <==> initial in finals
  {
  }

  /** On the empty word the subset simulator only checks the initial state. */
  lemma NfaEmptyWord(ts: seq<Transition>, finals: seq<int>, initial: int)
    ensures NfaAccepts(ts, finals, initial, "") <==> initial in finals
  {
    assert initial in finals ==> initial in {initial};
  }

  /** On the empty word the simulator with epsilon moves checks the closure
      of the initial state. */
  lemma NfaEEmptyWord(ts: seq<Transition>, finals: seq<int>, initial: int)
    ensures NfaEAccepts(ts, finals, initial, "") <==> Meets(EpsClosure(ts, initial), finals)
  {
  }
}

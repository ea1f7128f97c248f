/** The automaton as the loader hands it to the engine: an initial state, a
    list of accepting states and an ordered list of labelled transitions.
    State identifiers are plain integers; any integer is a state. */
module Automata {

  datatype Option<T> = None | Some(value: T)

  /** One transition `from --read--> to`. The label is a string, as in the
      definition file: an empty label is an epsilon move, and an input
      character `c` is compared against the label as the one-character
      string `Symbol(c)`, so a label of two or more characters never fires. */
  datatype Transition = Transition(from: int, read: string, to: int)

  /** The label an input character is matched against. */
  function Symbol(c: char): string
  {
    [c]
  }

  /** Transition `t` is taken from state `q` on label `sym`. */
  predicate Fires(t: Transition, q: int, sym: string)
  {
    t.from == q && t.read == sym
  }

  /** `t` is an epsilon move. */
  predicate IsEpsilon(t: Transition)
  {
    t.read == ""
  }

  /** The set of states `states` contains an accepting state; `finals` is the
      list of accepting states, searched element by element. */
  predicate Meets(states: set<int>, finals: seq<int>)
  {
    exists q :: q in states && q in finals
  }

  /** The destinations of the transitions of `src` that fire from some state
      of `states` on `sym`: one step of the subset simulation. */
  function Step(src: seq<Transition>, states: set<int>, sym: string): set<int>
  {
    set t | t in src && t.from in states && t.read == sym :: t.to
  }

  /** Proof helper, not a property of the engine: it exists only so that `:|`
      can pick an element from a non-empty set (here the `(from, read)` keys
      of the classifier's map). */
  lemma Inhabited<T>(s: set<T>)
    requires s != {}
    ensures exists x :: x in s
  {
    if forall x :: x !in s {
      assert false;
    }
  }

  /** Proof helper, not a property of the engine: it exists only so that `:|`
      can pick a state from a non-empty `set<int>`, whose elements the
      verifier sees unboxed, so `Inhabited` does not serve. */
  lemma InhabitedStates(s: set<int>)
    requires s != {}
    ensures exists q :: q in s
  {
    if forall q :: q !in s {
      assert false;
    }
  }

  /** Taking transitions from a union of sets is the union of the steps. */
  lemma StepUnion(src: seq<Transition>, a: set<int>, b: set<int>, sym: string)
    ensures Step(src, a + b, sym) == Step(src, a, sym) + Step(src, b, sym)
  {
  }

  /** Extending the transition list by one transition adds at most its
      destination to a step. */
  lemma StepSnoc(src: seq<Transition>, t: Transition, states: set<int>, sym: string)
    ensures Step(src + [t], states, sym)
         == Step(src, states, sym) + (if t.from in states && t.read == sym then {t.to} else {})
  {
    var lhs := Step(src + [t], states, sym);
    var rhs := Step(src, states, sym) + (if t.from in states && t.read == sym then {t.to} else {});
    forall x | x in lhs ensures x in rhs {
      var u :| u in src + [t] && u.from in states && u.read == sym && u.to == x;
      if u != t {
        assert u in src;
      }
    }
    forall x | x in rhs ensures x in lhs {
      if x in Step(src, states, sym) {
        var u :| u in src && u.from in states && u.read == sym && u.to == x;
        assert u in src + [t];
      } else {
        assert t in src + [t];
      }
    }
  }
}

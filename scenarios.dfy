/** Worked examples: three small automata, one of each kind, and a batch of
    two lines, with what the engine reports for them. */
module Scenarios {
  import opened Automata
  import opened Classifier
  import opened Closure
  import opened Simulator
  import opened Batch

  /** 0 --a--> 1 --b--> 2, accepting state 2. */
  function Chain(): seq<Transition>
  {
    [Transition(0, "a", 1), Transition(1, "b", 2)]
  }

  /** Two destinations for the pair (0, "a"). */
  function Fork(): seq<Transition>
  {
    [Transition(0, "a", 1), Transition(0, "a", 2)]
  }

  /** An epsilon move 0 -> 1 before 1 --a--> 2. */
  function EpsilonChain(): seq<Transition>
  {
    [Transition(0, "", 1), Transition(1, "a", 2)]
  }

  /** The chain is deterministic; it accepts "ab" and rejects "a" (it stops
      in a state that is not accepting) and "ac" (no transition reads c). */
  lemma ChainScenario()
    ensures Classification(Chain()) == "AFD"
    ensures DfaAccepts(Chain(), [2], 0, "ab")
    ensures !DfaAccepts(Chain(), [2], 0, "a")
    ensures !DfaAccepts(Chain(), [2], 0, "ac")
  {
    assert !IsEpsilon(Chain()[0]) && !IsEpsilon(Chain()[1]);
    assert "ab"[1..] == "b" && "ac"[1..] == "c";
  }

  /** The fork is nondeterministic and accepts "a" through state 1. */
  lemma ForkScenario()
    ensures Classification(Fork()) == "AFND"
    ensures NfaAccepts(Fork(), [1], 0, "a")
  {
    var ts := Fork();
    assert !IsEpsilon(ts[0]) && !IsEpsilon(ts[1]);
    assert ts[0] in ts && ts[1] in ts;
    assert 1 in Step(ts, {0}, "a");
  }

  /** The epsilon chain is classified "AFND_E", the closure of 0 is {0, 1},
      and "a" is accepted. */
  lemma EpsilonScenario()
    ensures Classification(EpsilonChain()) == "AFND_E"
    ensures EpsClosure(EpsilonChain(), 0) == {0, 1}
    ensures NfaEAccepts(EpsilonChain(), [2], 0, "a")
  {
    var ts := EpsilonChain();
    assert ts[0] in ts && IsEpsilon(ts[0]);
    // {0, 1} is closed and contains 0, so the closure lies inside it ...
    ClosureLeast(ts, 0, {0, 1});
    // ... and both 0 and 1 are reached.
    ClosureContainsSelf(ts, 0);
    assert EpsPath(ts, [0, 1]);
    assert 1 in Targets(ts);
    assert 1 in EpsClosure(ts, 0);
    var step := Step(ts, {0, 1}, "a");
    assert ts[1] in ts && 2 in step;
    ClosureContainsSelf(ts, 2);
    assert 2 in ClosureImage(ts, step);
  }

  /** A batch with one well-formed line and one without a separator, run
      on the chain, gives exactly one record: "ab" with label "1",
      accepted. */
  lemma BatchScenario()
    ensures BatchOutput(["ab;1", "noseparator"], "AFD", 0, [2], Chain()) == [Record("ab", "1", true)]
  {
    var lines := ["ab;1", "noseparator"];
    ChainScenario();
    assert Verdict("AFD", "ab", 0, [2], Chain());
    SplitJoin("ab", "1");
    assert "ab" + [';'] + "1" == "ab;1";
    assert LineOutput("ab;1", "AFD", 0, [2], Chain()) == [Record("ab", "1", true)];
    assert ';' !in "noseparator";
    SplitLineParts("noseparator");
    assert LineOutput("noseparator", "AFD", 0, [2], Chain()) == [];
    assert lines[..1] == ["ab;1"] && ["ab;1"][..0] == [];
    assert BatchOutput(["ab;1"], "AFD", 0, [2], Chain()) == [Record("ab", "1", true)];
  }
}

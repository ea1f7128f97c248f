/** How the three simulators relate: on a deterministic list the
    deterministic and the subset simulation accept the same words, and
    without epsilon moves the simulation with epsilon moves is the subset
    simulation. */
module Agreement {
  import opened Automata
  import opened Classifier
  import opened Closure
  import opened Simulator

  /** The set of states a deterministic run stands for. */
  function AsSet(r: Option<int>): set<int>
  {
    match r
    case None => {}
    case Some(p) => {p}
  }

  /** A larger starting set never loses a state. */
  lemma {:induction false} NfaRunMonotone(ts: seq<Transition>, a: set<int>, b: set<int>, w: string)
    requires a <= b
    ensures NfaRun(ts, a, w) <= NfaRun(ts, b, w)
    decreases |w|
  {
    if w != [] {
      var sym := Symbol(w[0]);
      assert Step(ts, a, sym) <= Step(ts, b, sym);
      NfaRunMonotone(ts, Step(ts, a, sym), Step(ts, b, sym), w[1..]);
    }
  }

  /** Whatever the list, the state the deterministic simulation ends in is
      one the subset simulation holds: it follows one of its runs. */
  lemma {:induction false} DfaRunIsNfaRun(ts: seq<Transition>, q: int, w: string)
    ensures AsSet(DfaRun(ts, q, w)) <= NfaRun(ts, {q}, w)
    decreases |w|
  {
    if w != [] {
      var sym := Symbol(w[0]);
      match FirstMatch(ts, q, sym)
      case None =>
      case Some(p) =>
        var k :| 0 <= k < |ts| && Fires(ts[k], q, sym) && ts[k].to == p;
        assert ts[k] in ts;
        assert {p} <= Step(ts, {q}, sym);
        DfaRunIsNfaRun(ts, p, w[1..]);
        NfaRunMonotone(ts, {p}, Step(ts, {q}, sym), w[1..]);
    }
  }

  /** So the deterministic simulation never accepts a word the subset
      simulation rejects. */
  lemma DfaAcceptsThenNfaAccepts(ts: seq<Transition>, finals: seq<int>, initial: int, w: string)
    requires DfaAccepts(ts, finals, initial, w)
    ensures NfaAccepts(ts, finals, initial, w)
  {
    DfaRunIsNfaRun(ts, initial, w);
    assert DfaRun(ts, initial, w).value in NfaRun(ts, {initial}, w);
  }

  /** On a deterministic list, the image of a single state is the
      destination of the first transition that fires, or nothing. */
  lemma StepOfDeterministic(ts: seq<Transition>, q: int, sym: string)
    requires Deterministic(ts)
    ensures Step(ts, {q}, sym) == AsSet(FirstMatch(ts, q, sym))
  {
    match FirstMatch(ts, q, sym)
    case None =>
    case Some(p) =>
      var k :| 0 <= k < |ts| && Fires(ts[k], q, sym) && ts[k].to == p;
      assert ts[k] in ts;
  }

  /** On a deterministic list the subset simulation holds exactly the state
      the deterministic simulation is in, and nothing once it has stopped. */
  lemma {:induction false} NfaRunOfDeterministic(ts: seq<Transition>, q: int, w: string)
    requires Deterministic(ts)
    ensures NfaRun(ts, {q}, w) == AsSet(DfaRun(ts, q, w))
    decreases |w|
  {
    if w != [] {
      var sym := Symbol(w[0]);
      StepOfDeterministic(ts, q, sym);
      match FirstMatch(ts, q, sym)
      case None =>
        NfaRunFromEmpty(ts, w[1..]);
      case Some(p) =>
        NfaRunOfDeterministic(ts, p, w[1..]);
    }
  }

  /** The deterministic and the subset simulation accept the same words of a
      deterministic list. */
  lemma DfaNfaAgree(ts: seq<Transition>, finals: seq<int>, initial: int, w: string)
    requires Deterministic(ts)
    ensures DfaAccepts(ts, finals, initial, w) == NfaAccepts(ts, finals, initial, w)
  {
    NfaRunOfDeterministic(ts, initial, w);
    match DfaRun(ts, initial, w)
    case None =>
    case Some(p) =>
      assert p in finals ==> p in {p};
  }

  /** Without epsilon moves, closing a set of states changes nothing. */
  lemma ClosureImageWithoutEpsilon(ts: seq<Transition>, d: set<int>)
    requires !HasEpsilon(ts)
    ensures ClosureImage(ts, d) == d
  {
    forall x ensures x in ClosureImage(ts, d) <==> x in d {
      ClosureWithoutEpsilon(ts, x);
      if x in ClosureImage(ts, d) {
        var p :| p in d && x in EpsClosure(ts, p);
        ClosureWithoutEpsilon(ts, p);
      }
    }
  }

  /** Without epsilon moves the two subset simulations hold the same sets. */
  lemma {:induction false} NfaERunWithoutEpsilon(ts: seq<Transition>, states: set<int>, w: string)
    requires !HasEpsilon(ts)
    ensures NfaERun(ts, states, w) == NfaRun(ts, states, w)
    decreases |w|
  {
    if w != [] {
      var sym := Symbol(w[0]);
      ClosureImageWithoutEpsilon(ts, Step(ts, states, sym));
      NfaERunWithoutEpsilon(ts, Step(ts, states, sym), w[1..]);
    }
  }

  /** Without epsilon moves the simulation with epsilon moves accepts the
      same words as the subset simulation. */
  lemma NfaENfaAgree(ts: seq<Transition>, finals: seq<int>, initial: int, w: string)
    requires !HasEpsilon(ts)
    ensures NfaEAccepts(ts, finals, initial, w) == NfaAccepts(ts, finals, initial, w)
  {
    ClosureWithoutEpsilon(ts, initial);
    NfaERunWithoutEpsilon(ts, {initial}, w);
  }

  /** A list the classifier reports as "AFD" is simulated alike by all
      three simulators. */
  lemma ClassifiedAfdAgree(ts: seq<Transition>, finals: seq<int>, initial: int, w: string)
    requires Classification(ts) == "AFD"
    ensures DfaAccepts(ts, finals, initial, w) == NfaAccepts(ts, finals, initial, w)
    ensures NfaEAccepts(ts, finals, initial, w) == NfaAccepts(ts, finals, initial, w)
  {
    DfaNfaAgree(ts, finals, initial, w);
    NfaENfaAgree(ts, finals, initial, w);
  }

  /** A list the classifier reports as "AFND" is simulated alike by the two
      subset simulators. */
  lemma ClassifiedAfndAgree(ts: seq<Transition>, finals: seq<int>, initial: int, w: string)
    requires Classification(ts) == "AFND"
    ensures NfaEAccepts(ts, finals, initial, w) == NfaAccepts(ts, finals, initial, w)
  {
    NfaENfaAgree(ts, finals, initial, w);
  }
}

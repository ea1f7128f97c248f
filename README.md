# Finite-automaton engine: a verified Dafny model

This project models the engine of a small finite-automaton simulator. An
automaton is an initial state, a list of accepting states and an ordered
list of transitions `(from, read, to)`; an empty `read` label is an epsilon
move. The engine has four parts:

- the **classifier** reports the automaton as `"AFD"` (deterministic),
  `"AFND"` (nondeterministic) or `"AFND_E"` (nondeterministic with epsilon
  moves);
- the **epsilon closure** is a worklist search for every state that can be
  reached through epsilon moves;
- the **three simulators** decide whether a word is accepted:
  - the deterministic one follows the first matching transition;
  - the subset simulation keeps a set of states;
  - the subset simulation with epsilon moves also closes every set;
- the **batch runner** splits each input line at its first `;` into a word and
  an expected label. It skips lines without a `;` and runs the simulator that
  the kind string names.

The source works by loops that update local variables, so each operation is a
Dafny method with loops and invariants. Each method is proved equal to a
recursive or set-valued specification function:

- `Classification` specifies the classifier;
- `EpsClosure` specifies the closure as reachability along epsilon paths;
- `DfaRun`, `NfaRun` and `NfaERun` specify the three runs;
- `BatchOutput` specifies the batch.

Lemmas prove what those specifications promise.

Files:

- `automaton.dfy` (module `Automata`): transitions, the one-step image `Step`,
  and the acceptance test `Meets`;
- `classifier.dfy` (module `Classifier`);
- `closure.dfy` (module `Closure`);
- `simulator.dfy` (module `Simulator`);
- `agreement.dfy` (module `Agreement`): how the simulators relate;
- `batch.dfy` (module `Batch`);
- `scenarios.dfy` (module `Scenarios`): four small worked examples.

The model follows the code in these details:

- A label is a string, not a single character or an epsilon marker.
- An input character is compared with the one-character string that holds it.
  So the empty label never matches input, and a label of two or more
  characters never fires, although the classifier still groups it.
- The accepting states are a list searched element by element, not a set.

## Model

| member | source | states |
|---|---|---|
| `Classifier.Classify` | ferramenta.c++:43-65 | The three loops return `Classification(ts)`. Any epsilon move gives "AFND_E". Otherwise the result is "AFND" exactly when two transitions share `(from, read)` but have different `to`, and "AFD" when none do. |
| `Classifier.GroupDestinations` | ferramenta.c++:49-54 | The map it fills has exactly the pairs `(from, read)` that occur, and each pair maps to the set of destinations of its transitions. |
| `Classifier.HasSplitGroup` | ferramenta.c++:56-62 | The scan of the map reports true iff some group has more than one destination. |
| `Classifier.GroupsDecideDeterminism` | ferramenta.c++:49-64 | The list is deterministic iff every `(from, read)` group has at most one destination. This links the grouping to the pairwise definition. |
| `Classifier.EpsilonDominates` | ferramenta.c++:44-48 | A list holding an epsilon move is "AFND_E" whatever transitions come before or after it. |
| `Classifier.EmptyIsDeterministic` | ferramenta.c++:49-64 | The empty list classifies as "AFD". |
| `Classifier.DuplicateIgnored` | ferramenta.c++:51-54 | Appending an exact copy of a transition does not change the kind, because destinations are collected in a set. |
| `Classifier.OrderIrrelevant` | ferramenta.c++:43-65 | Two lists with the same multiset of transitions get the same kind. |
| `Closure.EpsilonClosure` | ferramenta.c++:107-121 | The worklist result contains the start state and is closed under epsilon moves. Every member is reachable by an epsilon path, so the result equals `EpsClosure`. The loop terminates because the closure only grows inside the start state plus the transition targets. |
| `Closure.ClosureContainsSelf` | ferramenta.c++:108 | A state is in its own closure (zero moves). |
| `Closure.ReachExtend` | ferramenta.c++:113-117 | Following one more epsilon move from a reachable state gives a reachable state. |
| `Closure.ClosureIsClosed` | ferramenta.c++:110-119 | No epsilon move leaves the closure. |
| `Closure.ClosureLeast` | ferramenta.c++:107-121 | Every set that contains the state and is closed under epsilon moves contains the closure. |
| `Closure.ClosureWithoutEpsilon` | ferramenta.c++:113-114 | With no epsilon transitions the closure of `s` is exactly `{s}`. |
| `Simulator.FirstMatch` | ferramenta.c++:72-78 | Returns `None` iff no transition fires from the state on the symbol. Otherwise it returns the `to` of the first transition in list order that fires. |
| `Simulator.RunDfa` | ferramenta.c++:67-82 | Accepts iff `DfaAccepts`. The state follows the first matching transition for each character. A character with no match rejects at once, and at the end the state must be in `finals`. |
| `Simulator.DfaEmptyWord` | ferramenta.c++:68-81 | The deterministic simulator accepts the empty word iff the initial state is accepting. |
| `Simulator.Image` | ferramenta.c++:88-96 | The next set is exactly the set of `t.to` over the transitions `t` of `ts` with `t.from` in the current set and `t.read == sym`. |
| `Simulator.AnyFinal` | ferramenta.c++:99-104 | Returns true iff some state of the set appears in `finals`. |
| `Simulator.RunNfa` | ferramenta.c++:84-105 | Accepts iff `NfaAccepts`. The set starts as `{initial}` and is replaced by its image on each character. An empty set rejects at once, and at the end the set must meet `finals`. |
| `Simulator.NfaRunFromEmpty` | ferramenta.c++:97 | A run from the empty set stays empty, so rejecting early gives the same answer as running on. |
| `Simulator.NfaEmptyWord` | ferramenta.c++:85-104 | The subset simulator accepts the empty word iff the initial state is accepting. |
| `Simulator.StepEAsUnion` | ferramenta.c++:128-135 | A state is in the next set iff it lies in the closure of the destination of some transition that fires from a current state. |
| `Simulator.ClosureImageClosed` | ferramenta.c++:131-132 | A union of closures is closed under epsilon moves. |
| `Simulator.NfaERunClosed` | ferramenta.c++:124-137 | Starting from a closed set (such as the initial closure), every set the run holds is closed under epsilon moves. |
| `Simulator.NfaERunFromEmpty` | ferramenta.c++:137 | A run with epsilon moves from the empty set stays empty, so early rejection is sound. |
| `Simulator.ImageEpsilon` | ferramenta.c++:127-136 | The next set is the union of `EpsClosure(t.to)` over the transitions that fire from the current set. |
| `Simulator.RunNfaEpsilon` | ferramenta.c++:123-145 | Accepts iff `NfaEAccepts`. The set starts as the closure of the initial state, and each character replaces it by its epsilon step. An empty set rejects at once, and at the end the set must meet `finals`. |
| `Simulator.NfaEEmptyWord` | ferramenta.c++:124-144 | The simulator with epsilon moves accepts the empty word iff the closure of the initial state meets `finals`. |
| `Agreement.NfaRunMonotone` | ferramenta.c++:86-96 | A larger starting set ends in a larger set. |
| `Agreement.DfaRunIsNfaRun` | ferramenta.c++:67-105 | On any list, the state the deterministic run ends in is held by the subset run. |
| `Agreement.DfaAcceptsThenNfaAccepts` | ferramenta.c++:67-105 | On any list, a word the deterministic simulator accepts is accepted by the subset simulator. |
| `Agreement.StepOfDeterministic` | ferramenta.c++:72-95 | On a deterministic list the image of one state is the first match's destination, or empty. |
| `Agreement.NfaRunOfDeterministic` | ferramenta.c++:67-105 | On a deterministic list the subset run holds exactly the deterministic run's state, or nothing after it stopped. |
| `Agreement.DfaNfaAgree` | ferramenta.c++:67-105 | On a deterministic list the deterministic and subset simulators accept the same words. |
| `Agreement.ClosureImageWithoutEpsilon` | ferramenta.c++:131-132 | Without epsilon moves, closing a set leaves it unchanged. |
| `Agreement.NfaERunWithoutEpsilon` | ferramenta.c++:84-145 | Without epsilon moves the two subset runs hold the same sets. |
| `Agreement.NfaENfaAgree` | ferramenta.c++:84-145 | Without epsilon moves the simulator with epsilon moves accepts the same words as the subset simulator. |
| `Agreement.ClassifiedAfdAgree` | ferramenta.c++:43-145 | On a list classified "AFD", all three simulators agree on every word. |
| `Agreement.ClassifiedAfndAgree` | ferramenta.c++:43-145 | On a list classified "AFND", the two subset simulators agree on every word. |
| `Batch.FindFirst` | ferramenta.c++:164 | Returns `None` iff the line has no `;`. Otherwise it returns the index of a `;` with none before it. |
| `Batch.SplitLineParts` | ferramenta.c++:164-168 | A line fails to split iff it has no `;`. Otherwise word + `;` + label rebuilds the line, and the word holds no `;`. |
| `Batch.SplitJoin` | ferramenta.c++:164-168 | Splitting `word;label` for a word without `;` gives back the word and the label, even when the label holds `;`. |
| `Batch.Execute` | ferramenta.c++:172-175 | The verdict is the simulator the kind string names. Any other string leaves it `false`. |
| `Batch.ProcessLine` | ferramenta.c++:164-175 | A line without `;` produces no record. Otherwise it produces one record with the word, the label and the verdict. |
| `Batch.ProcessLines` | ferramenta.c++:163-181 | The output is `BatchOutput(lines)`: the records of the lines in input order. |
| `Batch.BatchOutputAppend` | ferramenta.c++:163-181 | The output of two runs of lines is the first run's output followed by the second's. |
| `Batch.BatchOutputShape` | ferramenta.c++:163-168 | There is at most one record per line, and every record's word is free of `;`. |
| `Scenarios.ChainScenario` | ferramenta.c++:43-82 | `0-a->1-b->2` with accepting state 2 is "AFD". It accepts "ab" and rejects "a" and "ac". |
| `Scenarios.ForkScenario` | ferramenta.c++:43-105 | `0-a->1, 0-a->2` is "AFND" and accepts "a" when 1 is accepting. |
| `Scenarios.EpsilonScenario` | ferramenta.c++:43-145 | `0-ε->1-a->2` is "AFND_E". The closure of 0 is {0, 1}, and "a" is accepted. |
| `Scenarios.BatchScenario` | ferramenta.c++:163-181 | The lines "ab;1" and "noseparator" on the chain give exactly one record: ("ab", "1", accepted). |

## Left out

- Loading the automaton from its JSON file is not modelled. This covers the
  file, the JSON library and `stoi`. The model takes the decoded initial state,
  accepting list and transitions as parameters.
- Stream I/O in the batch runner is not modelled. Opening the input and output
  files, `getline` and writing records are replaced by parameters: the lines
  arrive as a sequence and the records are returned as a sequence. Error
  messages for files that cannot be opened are not modelled.
- The per-word wall-clock timing is not modelled. A record therefore has no
  elapsed-time field.
- Command-line argument handling and exit codes in `main` are not modelled.
- Characters are Dafny characters, not bytes. The source iterates a word byte
  by byte, so it would split a multi-byte character into several symbols.
- The order of iteration over sets is not modelled. The source walks
  `std::set` and `std::map` in ascending order. The model takes states and keys
  in an unspecified order, which is sound because the results are unions or
  existence tests.
- State identifiers are unbounded integers. The engine never computes with
  them, only compares them, so 32-bit width plays no part.

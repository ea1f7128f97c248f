/** The batch runner's handling of each input line: split at the first `;`
    into the word and the expected label, skip lines without one, and run
    the simulator the kind string names. Reading and writing the files and
    the per-word timing stay outside the model: lines come in as a
    sequence and records go out as one. */
module Batch {
  import opened Automata
  import opened Simulator

  /** One output line: the word, the text after the separator, and whether
      the word was accepted. */
  datatype Record = Record(word: string, expected: string, accepted: bool)

  /** The position of the first `c` in `line`, or `None` when there is none
      (the library search the runner uses). */
  function FindFirst(line: string, c: char): (r: Option<nat>)
    ensures r.None? <==> c !in line
    ensures r.Some? ==> r.value < |line| && line[r.value] == c && c !in line[..r.value]
  {
    if line == [] then None
    else if line[0] == c then Some(0)
    else
      match FindFirst(line[1..], c)
      case None => None
      case Some(k) =>
        assert line[..k + 1] == [line[0]] + line[1..][..k];
        Some(k + 1)
  }

  /** A line split at its first `;`: the word before it and the expected label
      after it; `None` for a line without `;`. */
  function SplitLine(line: string): Option<(string, string)>
  {
    match FindFirst(line, ';')
    case None => None
    case Some(k) => Some((line[..k], line[k + 1..]))
  }

  /** A split line is rebuilt by putting the `;` back, and the word holds no
      `;`; only lines without `;` fail to split. */
  lemma SplitLineParts(line: string)
    ensures SplitLine(line).None? <==> ';' !in line
    ensures SplitLine(line).Some? ==>
              var parts := SplitLine(line).value;
              line == parts.0 + [';'] + parts.1 && ';' !in parts.0
  {
    if SplitLine(line).Some? {
      var k := FindFirst(line, ';').value;
      assert line == line[..k] + [';'] + line[k + 1..];
    }
  }

  /** Joining a word without `;` to any label and splitting again gives the
      two back; the label may itself hold `;`. */
  lemma SplitJoin(word: string, expected: string)
    requires ';' !in word
    ensures SplitLine(word + [';'] + expected) == Some((word, expected))
  {
    var line := word + [';'] + expected;
    assert line[|word|] == ';' && line[..|word|] == word;
    assert FindFirst(line, ';') == Some(|word|);
    assert line[|word| + 1..] == expected;
  }

  /** The verdict the runner records for `word` under the kind string:
      one of the three simulators, or `false` for any other string. */
  ghost predicate Verdict(kind: string, word: string, initial: int, finals: seq<int>, ts: seq<Transition>)
  {
    if kind == "AFD" then DfaAccepts(ts, finals, initial, word)
    else if kind == "AFND" then NfaAccepts(ts, finals, initial, word)
    else if kind == "AFND_E" then NfaEAccepts(ts, finals, initial, word)
    else false
  }

  /** The dispatch on the kind string; the result stays `false` when the
      string names none of the three simulators. */
  method Execute(kind: string, word: string, initial: int, finals: seq<int>, ts: seq<Transition>)
    returns (accepted: bool)
    ensures accepted == Verdict(kind, word, initial, finals, ts)
    ensures kind != "AFD" && kind != "AFND" && kind != "AFND_E" ==> !accepted
  {
    accepted := false;
    if kind == "AFD" {
      accepted := RunDfa(word, initial, finals, ts);
    } else if kind == "AFND" {
      accepted := RunNfa(word, initial, finals, ts);
    } else if kind == "AFND_E" {
      accepted := RunNfaEpsilon(word, initial, finals, ts);
    }
  }

  /** What one input line contributes to the output: nothing for a line
      without `;`, else one record. */
  ghost function LineOutput(line: string, kind: string, initial: int, finals: seq<int>, ts: seq<Transition>): seq<Record>
  {
    match SplitLine(line)
    case None => []
    case Some((word, expected)) => [Record(word, expected, Verdict(kind, word, initial, finals, ts))]
  }

  /** The output for a sequence of lines, in input order. */
  ghost function BatchOutput(lines: seq<string>, kind: string, initial: int, finals: seq<int>, ts: seq<Transition>): seq<Record>
  {
    if lines == [] then []
    else BatchOutput(lines[..|lines| - 1], kind, initial, finals, ts)
         + LineOutput(lines[|lines| - 1], kind, initial, finals, ts)
  }

  /** The batch is processed line by line: the output of two runs of lines
      is the output of the first followed by that of the second. */
  lemma {:induction false} BatchOutputAppend(a: seq<string>, b: seq<string>, kind: string, initial: int,
                                             finals: seq<int>, ts: seq<Transition>)
    ensures BatchOutput(a + b, kind, initial, finals, ts)
         == BatchOutput(a, kind, initial, finals, ts) + BatchOutput(b, kind, initial, finals, ts)
    decreases |b|
  {
    if b == [] {
      assert a + b == a;
    } else {
      var b' := b[..|b| - 1];
      assert (a + b)[..|a + b| - 1] == a + b';
      BatchOutputAppend(a, b', kind, initial, finals, ts);
    }
  }

  /** At most one record per line, each for a word without `;`. */
  lemma {:induction false} BatchOutputShape(lines: seq<string>, kind: string, initial: int,
                                            finals: seq<int>, ts: seq<Transition>)
    ensures |BatchOutput(lines, kind, initial, finals, ts)| <= |lines|
    ensures forall r :: r in BatchOutput(lines, kind, initial, finals, ts) ==> ';' !in r.word
  {
    if lines != [] {
      BatchOutputShape(lines[..|lines| - 1], kind, initial, finals, ts);
      SplitLineParts(lines[|lines| - 1]);
    }
  }

  /** One line: split it, skip it without a separator, else run the
      simulator and produce its record. */
  method ProcessLine(line: string, kind: string, initial: int, finals: seq<int>, ts: seq<Transition>)
    returns (out: seq<Record>)
    ensures out == LineOutput(line, kind, initial, finals, ts)
    ensures out == [] <==> ';' !in line
  {
    SplitLineParts(line);
    var separator := FindFirst(line, ';');
    if separator.None? {
      return [];
    }
    var word := line[..separator.value];
    var expected := line[separator.value + 1..];
    var accepted := Execute(kind, word, initial, finals, ts);
    return [Record(word, expected, accepted)];
  }

  /** The batch loop: every line in order, each contributing its record or
      nothing. */
  method ProcessLines(lines: seq<string>, kind: string, initial: int, finals: seq<int>, ts: seq<Transition>)
    returns (out: seq<Record>)
    ensures out == BatchOutput(lines, kind, initial, finals, ts)
  {
    out := [];
    for i := 0 to |lines|
      invariant out == BatchOutput(lines[..i], kind, initial, finals, ts)
    {
      var records := ProcessLine(lines[i], kind, initial, finals, ts);
      assert lines[..i + 1][..i] == lines[..i];
      out := out + records;
    }
    assert lines[..|lines|] == lines;
  }
}

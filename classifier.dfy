/** Classification of a transition list as deterministic ("AFD"),
    nondeterministic ("AFND") or nondeterministic with epsilon moves
    ("AFND_E"). The kind depends on the transitions only. */
module Classifier {
  import opened Automata

  /** Some transition is an epsilon move. */
  predicate HasEpsilon(ts: seq<Transition>)
  {
    exists t :: t in ts && IsEpsilon(t)
  }

  /** No `(from, read)` pair leads to two distinct destinations; exact
      duplicates of a transition are harmless. */
  predicate Deterministic(ts: seq<Transition>)
  {
    forall t, u :: t in ts && u in ts && t.from == u.from && t.read == u.read ==> t.to == u.to
  }

  /** The kind the engine reports: one epsilon move decides "AFND_E" whatever
      the rest of the list looks like; otherwise "AFND" exactly when some
      pair has two destinations, and "AFD" when none has. */
  function Classification(ts: seq<Transition>): string
  {
    if HasEpsilon(ts) then "AFND_E"
    else if Deterministic(ts) then "AFD"
    else "AFND"
  }

  /** The destinations grouped under the pair `key = (from, read)`. */
  function Dests(ts: seq<Transition>, key: (int, string)): set<int>
  {
    set t | t in ts && t.from == key.0 && t.read == key.1 :: t.to
  }

  lemma DestsSnoc(ts: seq<Transition>, t: Transition, key: (int, string))
    ensures Dests(ts + [t], key)
         == Dests(ts, key) + (if (t.from, t.read) == key then {t.to} else {})
  {
    var lhs := Dests(ts + [t], key);
    var rhs := Dests(ts, key) + (if (t.from, t.read) == key then {t.to} else {});
    forall x | x in lhs ensures x in rhs {
      var u :| u in ts + [t] && u.from == key.0 && u.read == key.1 && u.to == x;
      if u != t {
        assert u in ts;
      }
    }
    forall x | x in rhs ensures x in lhs {
      if x in Dests(ts, key) {
        var u :| u in ts && u.from == key.0 && u.read == key.1 && u.to == x;
        assert u in ts + [t];
      } else {
        assert t in ts + [t];
      }
    }
  }

  /** A set with at least two elements holds two distinct ones, and back. */
  lemma TwoDistinct(s: set<int>)
    ensures |s| > 1 <==> exists a, b :: a in s && b in s && a != b
  {
    if |s| > 1 {
      InhabitedStates(s);
      var a :| a in s;
      assert |s - {a}| == |s| - 1;
      InhabitedStates(s - {a});
      var b :| b in s - {a};
      assert a in s && b in s && a != b;
    }
    if exists a, b :: a in s && b in s && a != b {
      var a, b :| a in s && b in s && a != b;
      assert |s - {a}| == |s| - 1;
      assert b in s - {a};
    }
  }

  /** The grouping by `(from, read)` finds a group with more than one
      destination exactly when the list is not deterministic. */
  lemma GroupsDecideDeterminism(ts: seq<Transition>)
    ensures Deterministic(ts) <==> forall key :: |Dests(ts, key)| <= 1
  {
    if !Deterministic(ts) {
      var t, u :| t in ts && u in ts && t.from == u.from && t.read == u.read && t.to != u.to;
      var key := (t.from, t.read);
      assert t.to in Dests(ts, key) && u.to in Dests(ts, key);
      TwoDistinct(Dests(ts, key));
    } else {
      forall key ensures |Dests(ts, key)| <= 1 {
        TwoDistinct(Dests(ts, key));
      }
    }
  }

  /** The destination sets of the transitions, keyed by `(from, read)`:
      the map the classifier fills in place. */
  method GroupDestinations(ts: seq<Transition>) returns (groups: map<(int, string), set<int>>)
    ensures forall key :: key in groups <==> Dests(ts, key) != {}
    ensures forall key :: key in groups ==> groups[key] == Dests(ts, key)
  {
    groups := map[];
    for i := 0 to |ts|
      invariant forall key :: key in groups <==> Dests(ts[..i], key) != {}
      invariant forall key :: key in groups ==> groups[key] == Dests(ts[..i], key)
    {
      var key := (ts[i].from, ts[i].read);
      var dests := if key in groups then groups[key] else {};
      groups := groups[key := dests + {ts[i].to}];
      assert ts[..i + 1] == ts[..i] + [ts[i]];
      forall k ensures Dests(ts[..i + 1], k) == Dests(ts[..i], k) + (if key == k then {ts[i].to} else {}) {
        DestsSnoc(ts[..i], ts[i], k);
      }
    }
    assert ts[..|ts|] == ts;
  }

  /** The scan of the groups for one with more than one destination. */
  method HasSplitGroup(groups: map<(int, string), set<int>>) returns (found: bool)
    ensures found <==> exists key :: key in groups && |groups[key]| > 1
  {
    var keys := groups.Keys;
    while keys != {}
      invariant keys <= groups.Keys
      invariant forall key :: key in groups && key !in keys ==> |groups[key]| <= 1
      decreases keys
    {
      Inhabited(keys);
      var key :| key in keys;
      if |groups[key]| > 1 {
        return true;
      }
      keys := keys - {key};
    }
    return false;
  }

  /** The classifier: a scan for an epsilon move, then the grouping of the
      destinations by `(from, read)`, then a scan of the groups. */
  method Classify(ts: seq<Transition>) returns (kind: string)
    ensures kind == Classification(ts)
  {
    for i := 0 to |ts|
      invariant forall k :: 0 <= k < i ==> !IsEpsilon(ts[k])
    {
      if ts[i].read == "" {
        assert ts[i] in ts;
        return "AFND_E";
      }
    }
    var groups := GroupDestinations(ts);
    var split := HasSplitGroup(groups);
    GroupsDecideDeterminism(ts);
    if split {
      return "AFND";
    }
    return "AFD";
  }

  /** One epsilon move makes the kind "AFND_E" whatever surrounds it. */
  lemma EpsilonDominates(ts: seq<Transition>, before: seq<Transition>, after: seq<Transition>)
    requires HasEpsilon(ts)
    ensures Classification(before + ts + after) == "AFND_E"
  {
    var t :| t in ts && IsEpsilon(t);
    assert t in before + ts + after;
  }

  /** An empty transition list is deterministic. */
  lemma EmptyIsDeterministic()
    ensures Classification([]) == "AFD"
  {
  }

  /** Repeating a transition of the list does not change the kind. */
  lemma DuplicateIgnored(ts: seq<Transition>, i: nat)
    requires i < |ts|
    ensures Classification(ts + [ts[i]]) == Classification(ts)
  {
    forall t ensures t in ts + [ts[i]] <==> t in ts {
      if t == ts[i] {
        assert t in ts;
      }
    }
  }

  /** The kind depends on the transitions as a multiset, not on their order. */
  lemma OrderIrrelevant(ts: seq<Transition>, us: seq<Transition>)
    requires multiset(ts) == multiset(us)
    ensures Classification(ts) == Classification(us)
  {
    forall t ensures t in ts <==> t in us {
      assert t in ts <==> t in multiset(ts);
      assert t in us <==> t in multiset(us);
    }
  }
}

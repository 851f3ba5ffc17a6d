/**
 * The batch driver's api_key step: the first parameter set's `api_key` (Python
 * `None` when it has none) is written into every set, overwriting what each set
 * had. After this step a set's values may be `None`, so the sets are maps to
 * `Option<string>`.
 */
module Batch {
  import opened Optional
  import opened ParamFile

  const ApiKey: string := "api_key"

  /** A parameter set as the driver holds it: values are strings or `None`. */
  type Settings = map<string, Option<string>>

  /** The parser's sets, every value present. */
  function Lift(params: ParamSet): (s: Settings)
    ensures s.Keys == params.Keys
    ensures forall key :: key in params ==> s[key] == Some(params[key])
  {
    map key | key in params :: Some(params[key])
  }

  function LiftAll(sets: seq<ParamSet>): (r: seq<Settings>)
    ensures |r| == |sets|
    ensures forall i :: 0 <= i < |sets| ==> r[i] == Lift(sets[i])
  {
    seq(|sets|, i requires 0 <= i < |sets| => Lift(sets[i]))
  }

  /** Python's `dict.get(key)`: the stored value, or `None` when the key is absent. */
  function Get(s: Settings, key: string): Option<string>
  {
    if key in s then s[key] else None
  }

  /** Every set with its `api_key` entry set to `key`. */
  function Propagate(key: Option<string>, sets: seq<Settings>): seq<Settings>
    decreases |sets|
  {
    if sets == [] then []
    else Propagate(key, sets[..|sets| - 1]) + [sets[|sets| - 1][ApiKey := key]]
  }

  /** The driver's step: the first set's `api_key` goes into every set. */
  function Propagated(sets: seq<Settings>): seq<Settings>
  {
    if sets == [] then [] else Propagate(Get(sets[0], ApiKey), sets)
  }

  lemma {:induction false} PropagateAt(key: Option<string>, sets: seq<Settings>, i: nat)
    requires i < |sets|
    ensures |Propagate(key, sets)| == |sets|
    ensures Propagate(key, sets)[i] == sets[i][ApiKey := key]
    decreases |sets|
  {
    var n := |sets| - 1;
    if n > 0 {
      PropagateAt(key, sets[..n], if i < n then i else 0);
    }
  }

  /**
   * After the step every set's `api_key` is the first set's (or `None`), whatever
   * the set carried before, and the number and order of the sets do not change.
   */
  lemma PropagatedApiKey(sets: seq<Settings>)
    ensures var r := Propagated(sets);
            && |r| == |sets|
            && (forall i :: 0 <= i < |r| ==> ApiKey in r[i] && r[i][ApiKey] == Get(sets[0], ApiKey))
  {
    if sets != [] {
      var key := Get(sets[0], ApiKey);
      PropagateAt(key, sets, 0);
      forall i | 0 <= i < |sets| ensures ApiKey in Propagate(key, sets)[i] && Propagate(key, sets)[i][ApiKey] == key {
        PropagateAt(key, sets, i);
      }
    }
  }

  /** Every key other than `api_key` keeps its presence and its value in every set. */
  lemma PropagatedKeepsOthers(sets: seq<Settings>)
    ensures var r := Propagated(sets);
            && |r| == |sets|
            && (forall i, key :: 0 <= i < |r| && key != ApiKey ==>
                  (key in r[i] <==> key in sets[i]) && (key in r[i] ==> r[i][key] == sets[i][key]))
  {
    if sets != [] {
      var key := Get(sets[0], ApiKey);
      PropagateAt(key, sets, 0);
      forall i | 0 <= i < |sets| ensures Propagate(key, sets)[i] == sets[i][ApiKey := key] {
        PropagateAt(key, sets, i);
      }
    }
  }

  /** Doing the step twice is doing it once. */
  lemma PropagatedIdempotent(sets: seq<Settings>)
    ensures Propagated(Propagated(sets)) == Propagated(sets)
  {
    var r := Propagated(sets);
    PropagatedApiKey(sets);
    PropagatedKeepsOthers(sets);
    PropagatedApiKey(r);
    PropagatedKeepsOthers(r);
    var rr := Propagated(r);
    forall i | 0 <= i < |r| ensures rr[i] == r[i] {
      assert rr[i].Keys == r[i].Keys;
    }
  }

  /** The step as the driver performs it: in place, one set at a time. */
  method PropagateApiKey(sets: array<Settings>)
    modifies sets
    ensures sets[..] == Propagated(old(sets[..]))
  {
    ghost var original := sets[..];
    if sets.Length > 0 {
      var key := Get(sets[0], ApiKey);
      assert key == Get(original[0], ApiKey);
      for i := 0 to sets.Length
        invariant sets[..i] == Propagate(key, old(sets[..i]))
        invariant sets[i..] == old(sets[i..])
      {
        assert old(sets[..i + 1])[..i] == old(sets[..i]);
        assert sets[i] == old(sets[i]);
        sets[i] := sets[i][ApiKey := key];
      }
      assert sets[..] == sets[..sets.Length];
      assert original == old(sets[..sets.Length]);
    }
  }

  lemma FirstSetAgrees(lines: seq<string>)
    requires Parse(lines) != []
    ensures Agrees(Parse(lines)[0], Segments(Kinds(lines))[0])
  {
    ParseBySegments(lines);
  }

  lemma GetLifted(params: ParamSet, block: seq<LineKind>, key: string)
    requires Agrees(params, block)
    ensures Get(Lift(params), key) == LastValue(block, key)
  {
  }

  lemma SharesFirstKey(parsed: seq<ParamSet>, block: seq<LineKind>)
    requires parsed != [] && Agrees(parsed[0], block)
    ensures var r := Propagated(LiftAll(parsed));
            forall i :: 0 <= i < |r| ==> ApiKey in r[i] && r[i][ApiKey] == LastValue(block, ApiKey)
  {
    var sets := LiftAll(parsed);
    GetLifted(parsed[0], block, ApiKey);
    assert sets[0] == Lift(parsed[0]);
    PropagatedApiKey(sets);
  }

  /**
   * Reading a batch file and propagating: every set carries the value of the last
   * `api_key` line of the file's first block, or `None` when that block has none.
   */
  lemma BatchSharesFirstApiKey(lines: seq<string>)
    requires Parse(lines) != []
    ensures var r := Propagated(LiftAll(Parse(lines)));
            forall i :: 0 <= i < |r| ==> ApiKey in r[i] && r[i][ApiKey] == LastValue(Segments(Kinds(lines))[0], ApiKey)
  {
    FirstSetAgrees(lines);
    SharesFirstKey(Parse(lines), Segments(Kinds(lines))[0]);
  }
}

/**
  The field-keyed error accumulator the game and filter checks report into.
  Its Go package is not part of this model; this is the behaviour the core
  relies on: the first message recorded for a key is kept.
 */
module Validator {

  /** The error map after one `Check(ok, key, message)`. */
  function Checked(errors: map<string, string>, ok: bool, key: string, message: string): (r: map<string, string>)
    ensures r.Keys == if ok then errors.Keys else errors.Keys + {key}
    ensures forall k :: k in errors ==> r[k] == errors[k]
    ensures !ok && key !in errors ==> r[key] == message
  {
    if ok || key in errors then errors else errors[key := message]
  }

  /** `validator.Unique`: no value occurs twice, so the set of values is as large as the list. */
  predicate Unique(values: seq<string>): (b: bool)
    ensures b <==> |set v | v in values| == |values|
  {
    DistinctCount(values);
    NoRepeats(values)
  }

  predicate NoRepeats(values: seq<string>) {
    forall i, j :: 0 <= i < j < |values| ==> values[i] != values[j]
  }

  /** A list has no repeated value exactly when its set of values has one element per entry. */
  lemma {:induction false} DistinctCount(values: seq<string>)
    ensures NoRepeats(values) <==> |set v | v in values| == |values|
    ensures |set v | v in values| <= |values|
  {
    if values != [] {
      var x, rest := values[0], values[1..];
      DistinctCount(rest);
      ConsSet(values);
      ConsRepeats(values);
      if x in rest {
        assert (set v | v in values) == (set v | v in rest);
      }
    }
  }

  lemma ConsSet(values: seq<string>)
    requires values != []
    ensures (set v | v in values) == {values[0]} + (set v | v in values[1..])
  {
    assert values == [values[0]] + values[1..];
  }

  /** Putting a value in front adds a repeat exactly when the value is already there. */
  lemma ConsRepeats(values: seq<string>)
    requires values != []
    ensures NoRepeats(values) <==> values[0] !in values[1..] && NoRepeats(values[1..])
  {
    var x, rest := values[0], values[1..];
    if x in rest {
      var k :| 0 <= k < |rest| && rest[k] == x;
      assert values[0] == values[k + 1];
    } else if NoRepeats(rest) {
      forall i, j | 0 <= i < j < |values| ensures values[i] != values[j] {
        if i == 0 { assert values[j] == rest[j - 1]; }
        else { assert values[i] == rest[i - 1] && values[j] == rest[j - 1]; }
      }
    } else {
      var i, j :| 0 <= i < j < |rest| && rest[i] == rest[j];
      assert values[i + 1] == values[j + 1];
    }
  }

  class Validator {
    var errors: map<string, string>

    /** `validator.New()`: no errors yet. */
    constructor ()
      ensures errors == map[]
    {
      errors := map[];
    }

    /** `Valid()`: nothing was recorded. */
    function Valid(): (b: bool)
      reads this
      ensures b <==> errors == map[]
    {
      |errors| == 0
    }

    /** Records `message` under `key` unless the key already has one. */
    method AddError(key: string, message: string)
      modifies this
      ensures errors == Checked(old(errors), false, key, message)
    {
      if key !in errors {
        errors := errors[key := message];
      }
    }

    /** Records `message` under `key` when `ok` is false. */
    method Check(ok: bool, key: string, message: string)
      modifies this
      ensures errors == Checked(old(errors), ok, key, message)
    {
      if !ok {
        AddError(key, message);
      }
    }
  }
}

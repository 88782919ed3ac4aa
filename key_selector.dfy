/**
 * The caller's `KeySelector`, seen only through its two capabilities, and
 * the record of what it answered while the cache store walked the key set.
 */
module KeySelection {
  import opened Wrappers
  import opened ConcurrentMap

  /**
   * A selector over caller-owned state `S`. `include(key)` and
   * `reachedLimit()` may both read and update that state; how they do so is
   * the caller's choice, given here as two transition functions.
   */
  class KeySelector<S> {
    var state: S
    const includeStep: (S, Bytes) -> (bool, S)
    const limitStep: S -> (bool, S)

    constructor (initial: S, includeStep: (S, Bytes) -> (bool, S), limitStep: S -> (bool, S))
      ensures state == initial
      ensures this.includeStep == includeStep && this.limitStep == limitStep
    {
      state := initial;
      this.includeStep := includeStep;
      this.limitStep := limitStep;
    }

    /** `include(key)`. */
    method Include(key: Bytes) returns (included: bool)
      modifies this
      ensures (included, state) == includeStep(old(state), key)
    {
      var step := includeStep(state, key);
      included, state := step.0, step.1;
    }

    /** `reachedLimit()`. */
    method ReachedLimit() returns (reached: bool)
      modifies this
      ensures (reached, state) == limitStep(old(state))
    {
      var step := limitStep(state);
      reached, state := step.0, step.1;
    }
  }

  /**
   * What the selector answered for one key of the walk. `reachedLimit()` is
   * consulted only when `include(key)` returned true, so `limitReached` is
   * `None` exactly when `included` is false.
   */
  datatype Probe = Probe(key: Bytes, included: bool, limitReached: Option<bool>)

  /** The filter of the key walk keeps this key. */
  predicate Accepted(p: Probe) {
    p.included && p.limitReached == Some(false)
  }

  /**
   * `probes` is exactly what a selector with transition functions `inc`
   * (`include`) and `lim` (`reachedLimit`) answers when it is offered the
   * probes' keys in order starting in state `s`, and `s'` is the state it
   * ends in: each key goes to `include`, and only when that says true is
   * `reachedLimit()` asked.
   */
  ghost predicate Replays<S>(inc: (S, Bytes) -> (bool, S), lim: S -> (bool, S), s: S, probes: seq<Probe>, s': S)
    decreases |probes|
  {
    if probes == [] then s' == s
    else
      var p := probes[0];
      var step := inc(s, p.key);
      && p.included == step.0
      && if step.0 then
           p.limitReached == Some(lim(step.1).0) && Replays(inc, lim, lim(step.1).1, probes[1..], s')
         else
           p.limitReached == None && Replays(inc, lim, step.1, probes[1..], s')
  }

  /** Two walks replayed one after the other form one walk. */
  lemma {:induction false} ReplaysAppend<S>(inc: (S, Bytes) -> (bool, S), lim: S -> (bool, S),
                                            s: S, first: seq<Probe>, mid: S, second: seq<Probe>, s': S)
    requires Replays(inc, lim, s, first, mid)
    requires Replays(inc, lim, mid, second, s')
    ensures Replays(inc, lim, s, first + second, s')
  {
    if first == [] {
      assert first + second == second;
    } else {
      var step := inc(s, first[0].key);
      var next := if step.0 then lim(step.1).1 else step.1;
      ReplaysAppend(inc, lim, next, first[1..], mid, second, s');
      assert (first + second)[1..] == first[1..] + second;
    }
  }

  /** The probes added after position `n` of an extended walk, split where the shorter walk ended. */
  lemma ExtendedSuffix(shorter: seq<Probe>, longer: seq<Probe>, n: nat)
    requires n <= |shorter| && shorter <= longer
    ensures longer[n..] == shorter[n..] + longer[|shorter|..]
  {
    assert longer[n..] == shorter[n..] + longer[|shorter|..];
  }

  /** Some probe of the walk offered `k` to the selector and the filter kept it. */
  ghost predicate WasAccepted(probes: seq<Probe>, k: Bytes) {
    exists i :: 0 <= i < |probes| && probes[i].key == k && Accepted(probes[i])
  }

  /** The keys of a walk's probes, in walk order. */
  function ProbedKeys(probes: seq<Probe>): (keys: seq<Bytes>)
    ensures |keys| == |probes|
    ensures forall i :: 0 <= i < |probes| ==> keys[i] == probes[i].key
  {
    seq(|probes|, i requires 0 <= i < |probes| => probes[i].key)
  }

  /** The keys the filter keeps, in walk order. */
  function AcceptedKeys(probes: seq<Probe>): (kept: seq<Bytes>) {
    if probes == [] then []
    else
      var last := probes[|probes| - 1];
      AcceptedKeys(probes[..|probes| - 1]) + (if Accepted(last) then [last.key] else [])
  }

  /**
   * A key is kept if and only if some probe of it found it included and
   * the limit not yet reached.
   */
  lemma {:induction false} AcceptedKeysExactly(probes: seq<Probe>)
    ensures forall k :: k in AcceptedKeys(probes) <==> WasAccepted(probes, k)
  {
    if probes != [] {
      var init := probes[..|probes| - 1];
      AcceptedKeysExactly(init);
      forall k | WasAccepted(probes, k)
        ensures k in AcceptedKeys(probes)
      {
        var i :| 0 <= i < |probes| && probes[i].key == k && Accepted(probes[i]);
        if i < |init| {
          assert init[i] == probes[i];
        }
      }
      forall k | k in AcceptedKeys(probes)
        ensures WasAccepted(probes, k)
      {
        if k in AcceptedKeys(init) {
          var i :| 0 <= i < |init| && init[i].key == k && Accepted(init[i]);
          assert probes[i] == init[i];
        } else {
          assert probes[|probes| - 1].key == k && Accepted(probes[|probes| - 1]);
        }
      }
    }
  }

  /** Every kept key is one of the keys offered. */
  lemma AcceptedKeysProbed(probes: seq<Probe>)
    ensures forall k :: k in AcceptedKeys(probes) ==> k in ProbedKeys(probes)
  {
    AcceptedKeysExactly(probes);
    forall k | k in AcceptedKeys(probes)
      ensures k in ProbedKeys(probes)
    {
      var i :| 0 <= i < |probes| && probes[i].key == k && Accepted(probes[i]);
      assert ProbedKeys(probes)[i] == k;
    }
  }

  /** A walk over distinct keys keeps each key at most once. */
  lemma {:induction false} AcceptedKeysDistinct(probes: seq<Probe>)
    requires Distinct(ProbedKeys(probes))
    ensures Distinct(AcceptedKeys(probes))
  {
    if probes != [] {
      var init := probes[..|probes| - 1];
      var last := probes[|probes| - 1];
      assert ProbedKeys(init) == ProbedKeys(probes)[..|init|];
      AcceptedKeysDistinct(init);
      if Accepted(last) {
        AcceptedKeysExactly(init);
        assert last.key !in AcceptedKeys(init);
      }
    }
  }

  /** The filter keeps at most as many keys as it is offered. */
  lemma {:induction false} AcceptedKeysLength(probes: seq<Probe>)
    ensures |AcceptedKeys(probes)| <= |probes|
  {
    if probes != [] {
      AcceptedKeysLength(probes[..|probes| - 1]);
    }
  }

  /** Offering one more key appends it to the offered keys. */
  lemma ProbedKeysSnoc(probes: seq<Probe>, p: Probe)
    ensures ProbedKeys(probes + [p]) == ProbedKeys(probes) + [p.key]
  {
    assert ProbedKeys(probes + [p]) == ProbedKeys(probes) + [p.key];
  }

  /**
   * Offering the key at position `pos` of a walk over `keys` extends the
   * offered keys by that key and the kept keys by it when the filter keeps it.
   */
  lemma WalkStep(keys: seq<Bytes>, pos: nat, probes: seq<Probe>, p: Probe)
    requires pos < |keys| && ProbedKeys(probes) == keys[..pos] && p.key == keys[pos]
    ensures ProbedKeys(probes + [p]) == keys[..pos + 1]
    ensures AcceptedKeys(probes + [p]) == AcceptedKeys(probes) + (if Accepted(p) then [p.key] else [])
  {
    ProbedKeysSnoc(probes, p);
    AcceptedKeysSnoc(probes, p);
    assert keys[..pos + 1] == keys[..pos] + [keys[pos]];
  }

  /** Walking one more key extends the kept keys by that key, if the filter keeps it. */
  lemma AcceptedKeysSnoc(probes: seq<Probe>, p: Probe)
    ensures AcceptedKeys(probes + [p]) == AcceptedKeys(probes) + (if Accepted(p) then [p.key] else [])
  {
  }
}

/**
 * The passes the registry makes over its regions, and the per-region state
 * they step, seen from the registry.
 *
 * The state machine of a single region (its debounce timing, its callback)
 * is not part of this model: the registry only ever asks a state to mark
 * itself inside, to check whether it has newly become outside, and whether it
 * is inside. Those three questions, and the state a newly added region starts
 * in, are gathered in `Behaviour` and left uninterpreted.
 *
 * The rest of the module specifies, as a pure function, what one of the
 * registry's loops over some regions does to the map of states and which
 * notifications it sends, and proves what the registry needs about it: which
 * regions change, which are notified, with which status, and how many times.
 */
module RegistryPass {

  /** What the registry can do with a region's state `St`.
      `markInside(now)` and `isNewlyOutside(now)` are the two steps as taken at
      clock reading `now`, which the state machine reads when it is called:
      each answers whether a transition happened, together with the state
      after the call (the source mutates the state in place, whatever the
      answer). Sighting and expiry depend on the time, so two calls on the
      same state at different times may answer differently. */
  datatype Behaviour<!St> = Behaviour(
    initial: St,
    markInside: int -> St -> (bool, St),
    isNewlyOutside: int -> St -> (bool, St),
    isInside: St -> bool)

  /** The map of states after a pass, and the notifications `(isInside,
      region)` it sent, in order. */
  datatype PassResult<R, St> = PassResult(states: map<R, St>, log: seq<(bool, R)>)

  /** No element occurs twice. */
  predicate NoDuplicates<T(==)>(s: seq<T>)
  {
    forall i, j | 0 <= i < j < |s| :: s[i] != s[j]
  }

  /** No region appears in two notifications of `log`. */
  predicate NotifiesEachRegionOnce<R(==)>(log: seq<(bool, R)>)
  {
    forall i, j | 0 <= i < j < |log| :: log[i].1 != log[j].1
  }

  /** A pass that takes the regions of `order` in turn and, for each one that
      has a state, replaces its state by the one `step` leaves it in and, when
      `step` reports a transition, sends `(isInside, region)` for the new
      state. A region without a state is skipped. */
  function Pass<R(==), St>(step: St -> (bool, St), isInside: St -> bool, states: map<R, St>, order: seq<R>): (p: PassResult<R, St>)
    ensures p.states.Keys == states.Keys
    ensures |p.log| <= |order|
    ensures forall k | 0 <= k < |p.log| :: p.log[k].1 in order
    decreases |order|
  {
    if order == [] then PassResult(states, [])
    else
      var last := order[|order| - 1];
      var earlier := Pass(step, isInside, states, order[..|order| - 1]);
      if last in earlier.states then
        var (changed, next) := step(earlier.states[last]);
        PassResult(earlier.states[last := next], earlier.log + if changed then [(isInside(next), last)] else [])
      else
        earlier
  }

  /** The regions of `order` that have a state on which `step` reports a
      transition. */
  function Transitioning<R(==), St>(step: St -> (bool, St), states: map<R, St>, order: seq<R>): (changed: set<R>)
    ensures forall r | r in changed :: r in order && r in states
  {
    set r | r in order && r in states && step(states[r]).0
  }

  /** A pass leaves the state of a region it does not visit untouched. */
  lemma {:induction false} PassUntouched<R, St>(
    step: St -> (bool, St), isInside: St -> bool, states: map<R, St>, order: seq<R>, region: R)
    requires region in states && region !in order
    ensures Pass(step, isInside, states, order).states[region] == states[region]
  {
    if order != [] {
      var prefix := order[..|order| - 1];
      assert order == prefix + [order[|order| - 1]];
      PassUntouched(step, isInside, states, prefix, region);
    }
  }

  /** When no region is visited twice, each visited region is stepped once
      from its original state and every other region keeps its state. */
  lemma {:induction false} PassStates<R, St>(
    step: St -> (bool, St), isInside: St -> bool, states: map<R, St>, order: seq<R>, region: R)
    requires NoDuplicates(order)
    requires region in states
    ensures Pass(step, isInside, states, order).states[region]
         == if region in order then step(states[region]).1 else states[region]
  {
    if order != [] {
      var prefix := order[..|order| - 1];
      var last := order[|order| - 1];
      assert order == prefix + [last];
      assert NoDuplicates(prefix) && last !in prefix;
      PassStates(step, isInside, states, prefix, region);
      if last in states {
        PassUntouched(step, isInside, states, prefix, last);
      }
    }
  }

  /** When no region is visited twice, a region is notified with a given
      status exactly when it was visited, has a state, its step reported a
      transition, and the status is the `isInside` of its new state. */
  lemma {:induction false} PassNotifications<R, St>(
    step: St -> (bool, St), isInside: St -> bool, states: map<R, St>, order: seq<R>, inside: bool, region: R)
    requires NoDuplicates(order)
    ensures (inside, region) in Pass(step, isInside, states, order).log
        <==> && region in order && region in states && step(states[region]).0
             && inside == isInside(step(states[region]).1)
  {
    if order != [] {
      var prefix := order[..|order| - 1];
      var last := order[|order| - 1];
      assert order == prefix + [last];
      assert NoDuplicates(prefix) && last !in prefix;
      PassNotifications(step, isInside, states, prefix, inside, region);
      if last in states {
        PassUntouched(step, isInside, states, prefix, last);
      }
    }
  }

  /** When no region is visited twice, the pass sends nothing exactly when
      no visited region with a state had a transition. */
  lemma {:induction false} PassSilent<R, St>(
    step: St -> (bool, St), isInside: St -> bool, states: map<R, St>, order: seq<R>)
    requires NoDuplicates(order)
    ensures Pass(step, isInside, states, order).log == []
        <==> forall r | r in order && r in states :: !step(states[r]).0
  {
    if order != [] {
      var prefix := order[..|order| - 1];
      var last := order[|order| - 1];
      assert order == prefix + [last];
      assert NoDuplicates(prefix) && last !in prefix;
      PassSilent(step, isInside, states, prefix);
      if last in states {
        PassUntouched(step, isInside, states, prefix, last);
      }
    }
  }

  /** When no region is visited twice, no region is notified twice. */
  lemma {:induction false} PassNotifiesOnce<R, St>(
    step: St -> (bool, St), isInside: St -> bool, states: map<R, St>, order: seq<R>)
    requires NoDuplicates(order)
    ensures NotifiesEachRegionOnce(Pass(step, isInside, states, order).log)
  {
    if order != [] {
      var prefix := order[..|order| - 1];
      var last := order[|order| - 1];
      assert order == prefix + [last];
      assert NoDuplicates(prefix) && last !in prefix;
      PassNotifiesOnce(step, isInside, states, prefix);
      var earlier := Pass(step, isInside, states, prefix).log;
      var log := Pass(step, isInside, states, order).log;
      forall i, j | 0 <= i < j < |log| ensures log[i].1 != log[j].1 {
        if j >= |earlier| {
          assert i < |earlier| && log[i] == earlier[i] && earlier[i].1 in prefix;
          assert log[j].1 == last;
        } else {
          assert log[i] == earlier[i] && log[j] == earlier[j];
        }
      }
    }
  }

  /** Visiting one more region adds it to the transitioning regions exactly
      when it has a state on which `step` reports a transition. */
  lemma TransitioningAppend<R, St>(step: St -> (bool, St), states: map<R, St>, order: seq<R>, region: R)
    ensures Transitioning(step, states, order + [region])
         == Transitioning(step, states, order) + if region in states && step(states[region]).0 then {region} else {}
  {
  }

  /** When no region is visited twice, the pass sends exactly one
      notification per visited region whose step reports a transition. */
  lemma {:induction false} PassNotificationCount<R, St>(
    step: St -> (bool, St), isInside: St -> bool, states: map<R, St>, order: seq<R>)
    requires NoDuplicates(order)
    ensures |Pass(step, isInside, states, order).log| == |Transitioning(step, states, order)|
  {
    if order != [] {
      var prefix := order[..|order| - 1];
      var last := order[|order| - 1];
      assert order == prefix + [last];
      assert NoDuplicates(prefix) && last !in prefix;
      PassNotificationCount(step, isInside, states, prefix);
      TransitioningAppend(step, states, prefix, last);
      assert last !in Transitioning(step, states, prefix);
      if last in states {
        PassUntouched(step, isInside, states, prefix, last);
      }
    }
  }
}

/**
 * The region-monitoring registry: a map from each monitored region to its
 * monitoring state, a counter of monitored regions, and a flag that says
 * whether the map is persisted.
 *
 * The persisted file `beacon_monitoring_state` is the ghost field `store`,
 * holding the map it decodes to (`None` when the file is absent or cannot be
 * decoded). The callbacks that report a region's transition are the ghost log
 * `notifications` of `(isInside, region)` pairs, and `saves` counts the writes
 * of the file.
 */
module Monitoring {
  import opened Wrappers
  import opened RegistryPass

  /** A Java `int`, the type of the registry's counter. */
  newtype int32 = x: int | -0x8000_0000 <= x < 0x8000_0000

  const Int32Min: int32 := -0x8000_0000
  const Int32Max: int32 := 0x7fff_ffff

  /** Java's `c + 1` on an `int`: the integer successor taken modulo 2^32,
      which differs from `c + 1` only at the largest value. */
  function Increment(c: int32): (r: int32)
    ensures (r as int) % 0x1_0000_0000 == (c as int + 1) % 0x1_0000_0000
    ensures c < Int32Max ==> r as int == c as int + 1
  {
    if c == Int32Max then Int32Min else c + 1
  }

  /** Java's `c - 1` on an `int`: the integer predecessor taken modulo 2^32,
      which differs from `c - 1` only at the smallest value. */
  function Decrement(c: int32): (r: int32)
    ensures (r as int) % 0x1_0000_0000 == (c as int - 1) % 0x1_0000_0000
    ensures Int32Min < c ==> r as int == c as int - 1
  {
    if c == Int32Min then Int32Max else c - 1
  }

  /** Decrementing undoes incrementing and the other way round, wrap-around
      included. */
  lemma IncrementDecrementInverse(c: int32)
    ensures Decrement(Increment(c)) == c && Increment(Decrement(c)) == c
  {
  }

  /** The live map after the decoded snapshot, if any, has been put into it
      entry by entry: the snapshot's entries win. */
  function MergeSnapshot<R, St>(live: map<R, St>, persisted: Option<map<R, St>>): (merged: map<R, St>)
    ensures persisted.None? ==> merged == live
    ensures persisted.Some? ==> merged.Keys == live.Keys + persisted.value.Keys
    ensures persisted.Some? ==> forall r | r in persisted.value :: merged[r] == persisted.value[r]
    ensures forall r | r in live && (persisted.None? || r !in persisted.value) :: merged[r] == live[r]
    ensures live == map[] && persisted.Some? ==> merged == persisted.value
  {
    match persisted
    case None => live
    case Some(snapshot) => live + snapshot
  }

  /** The regions a sighting of `beacon` visits: each monitored region that
      matches it, once. */
  ghost predicate VisitsMatching<Region, Beacon, St>(
    matchesBeacon: (Region, Beacon) -> bool, beacon: Beacon, states: map<Region, St>, matched: seq<Region>)
  {
    && NoDuplicates(matched)
    && (forall r | r in matched :: r in states && matchesBeacon(r, beacon))
    && (forall r | r in states && matchesBeacon(r, beacon) :: r in matched)
  }

  /** The regions a sweep visits: each monitored region, once. */
  ghost predicate VisitsAll<Region, St>(states: map<Region, St>, visited: seq<Region>)
  {
    && NoDuplicates(visited)
    && (forall r | r in visited :: r in states)
    && (forall r | r in states :: r in visited)
  }

  /** A sighting marks inside the matching regions, each from its state
      before the sighting, and leaves every other region's state alone. */
  lemma SightingStates<Region, Beacon, St>(
    behaviour: Behaviour<St>, now: int, matchesBeacon: (Region, Beacon) -> bool, beacon: Beacon,
    states: map<Region, St>, matched: seq<Region>, region: Region)
    requires VisitsMatching(matchesBeacon, beacon, states, matched)
    requires region in states
    ensures Pass(behaviour.markInside(now), behaviour.isInside, states, matched).states[region]
         == if matchesBeacon(region, beacon) then behaviour.markInside(now)(states[region]).1 else states[region]
  {
    PassStates(behaviour.markInside(now), behaviour.isInside, states, matched, region);
  }

  /** A sighting notifies a region, with a given status, exactly when the
      region is monitored, matches the beacon, its mark reports a transition
      and the status is whether its new state is inside. */
  lemma SightingNotifications<Region, Beacon, St>(
    behaviour: Behaviour<St>, now: int, matchesBeacon: (Region, Beacon) -> bool, beacon: Beacon,
    states: map<Region, St>, matched: seq<Region>, inside: bool, region: Region)
    requires VisitsMatching(matchesBeacon, beacon, states, matched)
    ensures (inside, region) in Pass(behaviour.markInside(now), behaviour.isInside, states, matched).log
        <==> && region in states && matchesBeacon(region, beacon)
             && behaviour.markInside(now)(states[region]).0
             && inside == behaviour.isInside(behaviour.markInside(now)(states[region]).1)
  {
    PassNotifications(behaviour.markInside(now), behaviour.isInside, states, matched, inside, region);
  }

  /** A sighting sends one notification per matching region whose mark
      reports a transition, no region twice, and none at all (so it does not
      save) exactly when no matching region had a transition. */
  lemma SightingNotificationCount<Region, Beacon, St>(
    behaviour: Behaviour<St>, now: int, matchesBeacon: (Region, Beacon) -> bool, beacon: Beacon,
    states: map<Region, St>, matched: seq<Region>)
    requires VisitsMatching(matchesBeacon, beacon, states, matched)
    ensures |Pass(behaviour.markInside(now), behaviour.isInside, states, matched).log|
         == |set r | r in states && matchesBeacon(r, beacon) && behaviour.markInside(now)(states[r]).0|
    ensures NotifiesEachRegionOnce(Pass(behaviour.markInside(now), behaviour.isInside, states, matched).log)
    ensures Pass(behaviour.markInside(now), behaviour.isInside, states, matched).log == []
        <==> forall r | r in states && matchesBeacon(r, beacon) :: !behaviour.markInside(now)(states[r]).0
  {
    PassNotificationCount(behaviour.markInside(now), behaviour.isInside, states, matched);
    assert Transitioning(behaviour.markInside(now), states, matched)
        == set r | r in states && matchesBeacon(r, beacon) && behaviour.markInside(now)(states[r]).0;
    PassNotifiesOnce(behaviour.markInside(now), behaviour.isInside, states, matched);
    PassSilent(behaviour.markInside(now), behaviour.isInside, states, matched);
  }

  /** A sweep asks every monitored region whether it is newly outside and
      keeps the state that question leaves it in. */
  lemma SweepStates<Region, St>(behaviour: Behaviour<St>, now: int, states: map<Region, St>, visited: seq<Region>, region: Region)
    requires VisitsAll(states, visited)
    requires region in states
    ensures Pass(behaviour.isNewlyOutside(now), behaviour.isInside, states, visited).states[region]
         == behaviour.isNewlyOutside(now)(states[region]).1
  {
    PassStates(behaviour.isNewlyOutside(now), behaviour.isInside, states, visited, region);
  }

  /** A sweep notifies a region, with a given status, exactly when it is
      monitored, is newly outside and the status is whether its new state is
      inside. */
  lemma SweepNotifications<Region, St>(
    behaviour: Behaviour<St>, now: int, states: map<Region, St>, visited: seq<Region>, inside: bool, region: Region)
    requires VisitsAll(states, visited)
    ensures (inside, region) in Pass(behaviour.isNewlyOutside(now), behaviour.isInside, states, visited).log
        <==> && region in states && behaviour.isNewlyOutside(now)(states[region]).0
             && inside == behaviour.isInside(behaviour.isNewlyOutside(now)(states[region]).1)
  {
    PassNotifications(behaviour.isNewlyOutside(now), behaviour.isInside, states, visited, inside, region);
  }

  /** A sweep sends one notification per region that is newly outside, no
      region twice, and none at all (so it does not save) exactly when no
      region is newly outside. */
  lemma SweepNotificationCount<Region, St>(behaviour: Behaviour<St>, now: int, states: map<Region, St>, visited: seq<Region>)
    requires VisitsAll(states, visited)
    ensures |Pass(behaviour.isNewlyOutside(now), behaviour.isInside, states, visited).log|
         == |set r | r in states && behaviour.isNewlyOutside(now)(states[r]).0|
    ensures NotifiesEachRegionOnce(Pass(behaviour.isNewlyOutside(now), behaviour.isInside, states, visited).log)
    ensures Pass(behaviour.isNewlyOutside(now), behaviour.isInside, states, visited).log == []
        <==> forall r | r in states :: !behaviour.isNewlyOutside(now)(states[r]).0
  {
    PassNotificationCount(behaviour.isNewlyOutside(now), behaviour.isInside, states, visited);
    assert Transitioning(behaviour.isNewlyOutside(now), states, visited)
        == set r | r in states && behaviour.isNewlyOutside(now)(states[r]).0;
    PassNotifiesOnce(behaviour.isNewlyOutside(now), behaviour.isInside, states, visited);
    PassSilent(behaviour.isNewlyOutside(now), behaviour.isInside, states, visited);
  }

  /** Sweeps depend on the clock: for a state machine whose region falls
      outside once the clock passes 10, a sweep of one region at time 5 sends
      nothing and a sweep of the same states at time 20 notifies it. */
  lemma LaterSweepCanNotify()
    ensures var behaviour := Behaviour(0, (now: int) => (s: int) => (false, s),
                                       (now: int) => (s: int) => (now > 10, s), (s: int) => false);
      && Pass(behaviour.isNewlyOutside(5), behaviour.isInside, map[7 := 0], [7]).log == []
      && Pass(behaviour.isNewlyOutside(20), behaviour.isInside, map[7 := 0], [7]).log == [(false, 7)]
  {
  }

  class MonitoringManager<Region(==), Beacon, St> {
    const behaviour: Behaviour<St>
    const matchesBeacon: (Region, Beacon) -> bool

    var regionsStates: map<Region, St>
    var monitoringRegionsCount: int32
    var statePreservationIsOn: bool

    /** The decoded content of the file `beacon_monitoring_state`. */
    ghost var store: Option<map<Region, St>>
    ghost var notifications: seq<(bool, Region)>
    ghost var saves: nat

    /** The counter agrees with the number of monitored regions. Adding keeps
        this; removing keeps it only for a region that is monitored, and a
        restored snapshot breaks it (see `Remove` and the constructor). */
    ghost predicate CountMirrorsSize()
      reads this
    {
      monitoringRegionsCount as int == |regionsStates|
    }

    /** Preservation has been stopped: the state file is gone and the flag is
        off. No operation leaves this state. */
    ghost predicate PreservationStopped()
      reads this
    {
      !statePreservationIsOn && store == None
    }

    /** A new registry, restored from the decoded content of the state file
        (`None` when there is no file or it cannot be decoded). The restored
        entries are merged into the empty map; the counter stays 0. */
    constructor (behaviour: Behaviour<St>, matchesBeacon: (Region, Beacon) -> bool, persisted: Option<map<Region, St>>)
      ensures this.behaviour == behaviour && this.matchesBeacon == matchesBeacon
      ensures regionsStates == MergeSnapshot(map[], persisted)
      ensures persisted.None? ==> regionsStates == map[]
      ensures persisted.Some? ==> regionsStates == persisted.value
      ensures monitoringRegionsCount == 0 && statePreservationIsOn
      ensures store == persisted && notifications == [] && saves == 0
    {
      this.behaviour := behaviour;
      this.matchesBeacon := matchesBeacon;
      regionsStates := map[];
      monitoringRegionsCount := 0;
      statePreservationIsOn := true;
      store := persisted;
      notifications := [];
      saves := 0;
      new;
      RestoreMonitoringState(persisted);
    }

    /** Puts every entry of the decoded snapshot into the map; a missing or
        undecodable file changes nothing and raises nothing. The counter is
        left as it is. */
    method RestoreMonitoringState(persisted: Option<map<Region, St>>)
      requires persisted == store
      modifies this`regionsStates
      ensures regionsStates == MergeSnapshot(old(regionsStates), persisted)
    {
      match persisted {
        case None =>
        case Some(snapshot) =>
          regionsStates := regionsStates + snapshot;
      }
    }

    /** Writes the whole map to the state file, and only when preservation
        is on. */
    method SaveMonitoringStateIfOn()
      modifies this`store, this`saves
      ensures statePreservationIsOn ==> store == Some(regionsStates) && saves == old(saves) + 1
      ensures !statePreservationIsOn ==> store == old(store) && saves == old(saves)
    {
      if !statePreservationIsOn {
        return;
      }
      store := Some(regionsStates);
      saves := saves + 1;
    }

    /** Starts monitoring `region` with a fresh state, counts it and saves;
        a region that is already monitored changes nothing at all. The
        increment wraps around at the largest `int32`. */
    method AddMonitoringRegion(region: Region)
      modifies this
      ensures statePreservationIsOn == old(statePreservationIsOn) && notifications == old(notifications)
      ensures region in old(regionsStates) ==>
        && regionsStates == old(regionsStates)
        && monitoringRegionsCount == old(monitoringRegionsCount)
        && store == old(store) && saves == old(saves)
      ensures region !in old(regionsStates) ==>
        && regionsStates == old(regionsStates)[region := behaviour.initial]
        && |regionsStates| == old(|regionsStates|) + 1
        && monitoringRegionsCount == Increment(old(monitoringRegionsCount))
        && (statePreservationIsOn ==> store == Some(regionsStates) && saves == old(saves) + 1)
        && (!statePreservationIsOn ==> store == old(store) && saves == old(saves))
      ensures old(CountMirrorsSize()) && old(|regionsStates|) < Int32Max as int ==> CountMirrorsSize()
      ensures old(PreservationStopped()) ==> PreservationStopped()
    {
      if region in regionsStates {
        return;
      }
      regionsStates := regionsStates[region := behaviour.initial];
      monitoringRegionsCount := Increment(monitoringRegionsCount);
      SaveMonitoringStateIfOn();
    }

    /** Stops monitoring `region`, decrements the counter and saves. The
        counter is decremented even when `region` was not monitored, so that
        it then falls one further below the number of monitored regions; the
        decrement wraps around at the smallest `int32`. */
    method Remove(region: Region)
      modifies this
      ensures statePreservationIsOn == old(statePreservationIsOn) && notifications == old(notifications)
      ensures regionsStates == old(regionsStates) - {region}
      ensures monitoringRegionsCount == Decrement(old(monitoringRegionsCount))
      ensures statePreservationIsOn ==> store == Some(regionsStates) && saves == old(saves) + 1
      ensures !statePreservationIsOn ==> store == old(store) && saves == old(saves)
      ensures old(monitoringRegionsCount) != Int32Min ==>
        monitoringRegionsCount as int - |regionsStates|
        == old(monitoringRegionsCount as int - |regionsStates|) - (if region in old(regionsStates) then 0 else 1)
      ensures region in old(regionsStates) && old(CountMirrorsSize()) ==> CountMirrorsSize()
      ensures old(PreservationStopped()) ==> PreservationStopped()
    {
      ghost var before := regionsStates;
      regionsStates := regionsStates - {region};
      if region in before {
        assert before.Keys == regionsStates.Keys + {region};
      } else {
        assert before.Keys == regionsStates.Keys;
      }
      monitoringRegionsCount := Decrement(monitoringRegionsCount);
      SaveMonitoringStateIfOn();
    }

    /** The counter, which is not always the number of monitored regions. */
    method Count() returns (n: int32)
      ensures n == monitoringRegionsCount
      ensures CountMirrorsSize() ==> n as int == |regionsStates|
    {
      n := monitoringRegionsCount;
    }

    /** The monitored regions. */
    method Regions() returns (regions: set<Region>)
      ensures forall r :: r in regions <==> r in regionsStates
    {
      regions := regionsStates.Keys;
    }

    /** The state of `region`, or nothing when it is not monitored. */
    method StateOf(region: Region) returns (state: Option<St>)
      ensures state.Some? <==> region in regionsStates
      ensures state.Some? ==> state.value == regionsStates[region]
    {
      if region in regionsStates {
        state := Some(regionsStates[region]);
      } else {
        state := None;
      }
    }

    /** The monitored regions that match `beacon`, each once. */
    method RegionsMatchingTo(beacon: Beacon) returns (matched: seq<Region>)
      ensures NoDuplicates(matched)
      ensures forall r :: r in matched <==> r in regionsStates && matchesBeacon(r, beacon)
    {
      matched := [];
      var remaining := regionsStates.Keys;
      while remaining != {}
        invariant remaining <= regionsStates.Keys
        invariant NoDuplicates(matched)
        invariant forall r :: r in matched <==> r in regionsStates && r !in remaining && matchesBeacon(r, beacon)
        decreases remaining
      {
        var region :| region in remaining;
        if matchesBeacon(region, beacon) {
          matched := matched + [region];
        }
        remaining := remaining - {region};
      }
    }

    /** Marks inside, at clock reading `now`, every monitored region that
        matches `beacon`, notifies each one whose mark reports a transition,
        and saves once if any did.
        `matched` is the order in which the matching regions were visited and
        `emitted` the notifications, in the order they were sent. */
    method UpdateStateOfRegionsMatchingTo(beacon: Beacon, now: int) returns (ghost matched: seq<Region>, ghost emitted: seq<(bool, Region)>)
      modifies this
      ensures VisitsMatching(matchesBeacon, beacon, old(regionsStates), matched)
      ensures PassResult(regionsStates, emitted) == Pass(behaviour.markInside(now), behaviour.isInside, old(regionsStates), matched)
      ensures notifications == old(notifications) + emitted
      ensures monitoringRegionsCount == old(monitoringRegionsCount) && statePreservationIsOn == old(statePreservationIsOn)
      ensures emitted != [] && statePreservationIsOn ==> store == Some(regionsStates) && saves == old(saves) + 1
      ensures emitted == [] || !statePreservationIsOn ==> store == old(store) && saves == old(saves)
      ensures old(PreservationStopped()) ==> PreservationStopped() && saves == old(saves)
    {
      var matchingRegions := RegionsMatchingTo(beacon);
      var states := regionsStates;
      ghost var log: seq<(bool, Region)> := [];
      var needsMonitoringStateSaving := false;
      for i := 0 to |matchingRegions|
        invariant PassResult(states, log) == Pass(behaviour.markInside(now), behaviour.isInside, old(regionsStates), matchingRegions[..i])
        invariant needsMonitoringStateSaving <==> log != []
        modifies {}
      {
        var region := matchingRegions[i];
        assert matchingRegions[..i + 1][..i] == matchingRegions[..i];
        if region in states {
          var (changed, next) := behaviour.markInside(now)(states[region]);
          states := states[region := next];
          if changed {
            needsMonitoringStateSaving := true;
            log := log + [(behaviour.isInside(next), region)];
          }
        }
      }
      assert matchingRegions[..|matchingRegions|] == matchingRegions;
      regionsStates := states;
      notifications := notifications + log;
      if needsMonitoringStateSaving {
        SaveMonitoringStateIfOn();
      }
      matched, emitted := matchingRegions, log;
    }

    /** Asks every monitored region whether, at clock reading `now`, it has
        newly become outside, notifies each one that has, and saves once if
        any did. A later sweep at a later `now` asks again, so a region that
        was not yet outside may then be. `visited` is
        the order in which the regions were visited and `emitted` the
        notifications, in the order they were sent. */
    method UpdateStatesFindNewOutside(now: int) returns (ghost visited: seq<Region>, ghost emitted: seq<(bool, Region)>)
      modifies this
      ensures VisitsAll(old(regionsStates), visited)
      ensures PassResult(regionsStates, emitted) == Pass(behaviour.isNewlyOutside(now), behaviour.isInside, old(regionsStates), visited)
      ensures notifications == old(notifications) + emitted
      ensures monitoringRegionsCount == old(monitoringRegionsCount) && statePreservationIsOn == old(statePreservationIsOn)
      ensures emitted != [] && statePreservationIsOn ==> store == Some(regionsStates) && saves == old(saves) + 1
      ensures emitted == [] || !statePreservationIsOn ==> store == old(store) && saves == old(saves)
      ensures old(PreservationStopped()) ==> PreservationStopped() && saves == old(saves)
    {
      var remaining := regionsStates.Keys;
      var states := regionsStates;
      ghost var log: seq<(bool, Region)> := [];
      var needsMonitoringStateSaving := false;
      visited := [];
      while remaining != {}
        invariant NoDuplicates(visited)
        invariant forall r :: r in visited <==> r in old(regionsStates) && r !in remaining
        invariant remaining <= states.Keys
        invariant PassResult(states, log) == Pass(behaviour.isNewlyOutside(now), behaviour.isInside, old(regionsStates), visited)
        invariant needsMonitoringStateSaving <==> log != []
        modifies {}
        decreases remaining
      {
        var region :| region in remaining;
        assert (visited + [region])[..|visited|] == visited;
        var (changed, next) := behaviour.isNewlyOutside(now)(states[region]);
        states := states[region := next];
        if changed {
          needsMonitoringStateSaving := true;
          log := log + [(behaviour.isInside(next), region)];
        }
        visited := visited + [region];
        remaining := remaining - {region};
      }
      regionsStates := states;
      notifications := notifications + log;
      if needsMonitoringStateSaving {
        SaveMonitoringStateIfOn();
      }
      emitted := log;
    }

    /** Deletes the state file and turns preservation off for good: no later
        operation writes the file again. */
    method StopStatePreservationOnManagerDestruction()
      modifies this`store, this`statePreservationIsOn
      ensures store == None && !statePreservationIsOn
      ensures PreservationStopped()
    {
      store := None;
      statePreservationIsOn := false;
    }
  }

  /** Removing a region from a fresh registry with no state file leaves no
      region monitored but a counter of -1. */
  method RemoveFromEmptyRegistry<Region(==), Beacon, St>(
    behaviour: Behaviour<St>, matchesBeacon: (Region, Beacon) -> bool, region: Region)
    returns (regions: set<Region>, count: int32)
    ensures regions == {} && count == -1
  {
    var manager := new MonitoringManager(behaviour, matchesBeacon, None);
    manager.Remove(region);
    regions := manager.Regions();
    count := manager.Count();
  }

  /** A registry that monitors one region saves it; a registry restored from
      what was saved monitors that region with the same state, but counts 0. */
  method RestartFromSavedState<Region(==), Beacon, St>(
    behaviour: Behaviour<St>, matchesBeacon: (Region, Beacon) -> bool, region: Region)
    returns (regions: set<Region>, state: Option<St>, count: int32)
    ensures regions == {region} && state == Some(behaviour.initial) && count == 0
  {
    var before := new MonitoringManager(behaviour, matchesBeacon, None);
    before.AddMonitoringRegion(region);
    var saved := before.regionsStates;
    assert before.store == Some(saved);
    var after := new MonitoringManager(behaviour, matchesBeacon, Some(saved));
    regions := after.Regions();
    state := after.StateOf(region);
    count := after.Count();
  }
}

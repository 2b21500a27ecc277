# Region-monitoring registry

A Dafny model of `MonitoringManager`, the AltBeacon library's registry of
monitored regions. The registry keeps:

- a map from each monitored `Region` to its `RegionMonitoringState`;
- a counter `monitoringRegionsCount` of monitored regions, a Java `int` that
  wraps around on overflow (the newtype `int32` here);
- a flag `statePreservationIsOn` that says whether the map is persisted to the
  private file `beacon_monitoring_state`.

It has these operations:

- it registers and removes regions;
- it answers queries for the count, the regions and a region's state;
- it dispatches a beacon sighting to every region the beacon matches, marking
  each one inside;
- it sweeps all regions for the ones that have newly become outside;
- while preservation is on, it saves the map after every add of a new region,
  after every remove (of a monitored region or not), and once after a dispatch
  or sweep that sent at least one notification; a dispatch or sweep that sends
  none does not save, even though it may have replaced some states;
- it restores the map on construction;
- it can stop preservation for good.

The model has three modules:

- `Wrappers` holds the `Option` type.
- `RegistryPass` models the per-region state as the registry sees it, and the
  registry's passes over its regions.
  - The state machine of a single region is kept abstract. A `Behaviour`
    holds the state a new region starts in, and three uninterpreted total
    functions: `markInside`, `isNewlyOutside` and `isInside`. The first two
    take the clock reading `now` at which they are called, and return whether
    a transition happened, together with the state the call leaves behind.
    The registry's update methods take `now` as a parameter, so successive
    calls can see time pass: a sweep that finds nothing may be followed by a
    later sweep that finds a region newly outside.
  - `Pass` is a pure function that defines what a pass over some regions does
    to the map and which notifications it sends. The lemmas about it prove
    which states change, which regions are notified and with which status, how
    many notifications there are, and that no region is notified twice.
- `Monitoring` models the registry.
  - The class `MonitoringManager` has the three fields of the source.
  - It has three ghost fields that stand for its effects outside the process:
    - `store` is the content of the state file (`None` when there is no file);
    - `notifications` logs the `(isInside, region)` pairs sent to region
      callbacks;
    - `saves` counts writes of the file.
  - `Region.matchesBeacon` is a function-valued field over an uninterpreted
    `Beacon` type.
  - The iteration order of the Java `HashMap` is unspecified, so the loops
    pick regions in an arbitrary order. The update methods return the order
    they used as a ghost sequence, and their new state is the `Pass` over
    that order.
  - The lemmas `Sighting*` and `Sweep*` then state each result independently
    of the order. This rests on one clock reading serving the whole pass (see
    "## Left out").

The counter is named `monitoringRegionsCount` and is what `count()` returns,
so it reads as the number of monitored regions; `CountMirrorsSize` names that
reading, and the contracts state exactly which operations keep it. The code
lets the two drift apart in two places, and the model follows the code:

- `remove` decrements the counter even when the region was not monitored.
  `Remove`'s contract states this and `RemoveFromEmptyRegistry` exhibits a
  counter of -1 with no region monitored.
- Restoring a snapshot puts its entries into the map but leaves the counter
  at 0. The constructor's contract states this and `RestartFromSavedState`
  exhibits a registry with one region and a count of 0.

While preservation is on, a `remove` of a region that is not monitored also
writes the file, although the map is unchanged.

## Model

| member | source | states |
|---|---|---|
| Monitoring.Increment | src/main/java/org/altbeacon/beacon/service/scanner/MonitoringManager.java:58 | the counter's increment is the successor modulo 2^32 within the `int` range, and the plain successor below the largest `int` |
| Monitoring.Decrement | src/main/java/org/altbeacon/beacon/service/scanner/MonitoringManager.java:64 | the counter's decrement is the predecessor modulo 2^32 within the `int` range, and the plain predecessor above the smallest `int` |
| Monitoring.IncrementDecrementInverse | src/main/java/org/altbeacon/beacon/service/scanner/MonitoringManager.java:58-64 | a decrement undoes an increment and an increment undoes a decrement, across the wrap-around too |
| Monitoring.MergeSnapshot | src/main/java/org/altbeacon/beacon/service/scanner/MonitoringManager.java:149-161 | a missing or undecodable file leaves the map as it is; otherwise the keys are the union and the snapshot's entries win over live ones; merging a snapshot into the empty map gives back exactly the snapshot |
| Monitoring.MonitoringManager.constructor | src/main/java/org/altbeacon/beacon/service/scanner/MonitoringManager.java:50-53 | a new registry holds the restored snapshot, or is empty when there is none; it counts 0 even when regions were restored; preservation is on; nothing has been saved or notified |
| Monitoring.MonitoringManager.RestoreMonitoringState | src/main/java/org/altbeacon/beacon/service/scanner/MonitoringManager.java:149-161 | called with the decoded content of the state file, it makes the new map the old one merged with that snapshot; no other field changes, the counter included |
| Monitoring.MonitoringManager.SaveMonitoringStateIfOn | src/main/java/org/altbeacon/beacon/service/scanner/MonitoringManager.java:121-147 | with preservation on, the file afterwards holds the current map and one save is counted; with it off, the file and the save count are unchanged |
| Monitoring.MonitoringManager.AddMonitoringRegion | src/main/java/org/altbeacon/beacon/service/scanner/MonitoringManager.java:55-60 | an absent region is added with a fresh state, the map grows by one, the counter is incremented (wrapping at the largest `int`) and the map is saved when preservation is on; a present region changes nothing (map, counter, file, saves); no notification; keeps the counter equal to the map size while the map has fewer than the largest `int` entries, and keeps a stopped registry stopped |
| Monitoring.MonitoringManager.Remove | src/main/java/org/altbeacon/beacon/service/scanner/MonitoringManager.java:62-66 | the region is no longer a key and every other entry is kept; the counter is decremented (wrapping at the smallest `int`) even for an absent region, so, short of the wrap, the gap between counter and map size grows by one exactly when the region was absent; the map is saved when preservation is on; keeps the counter equal to the map size only for a present region; keeps a stopped registry stopped |
| Monitoring.MonitoringManager.Count | src/main/java/org/altbeacon/beacon/service/scanner/MonitoringManager.java:68-70 | returns the counter, which is the number of monitored regions whenever the two agree |
| Monitoring.MonitoringManager.Regions | src/main/java/org/altbeacon/beacon/service/scanner/MonitoringManager.java:72-74 | returns exactly the monitored regions |
| Monitoring.MonitoringManager.StateOf | src/main/java/org/altbeacon/beacon/service/scanner/MonitoringManager.java:76-78 | returns a region's state exactly when it is monitored, and nothing (the source's `null`) otherwise |
| Monitoring.MonitoringManager.RegionsMatchingTo | src/main/java/org/altbeacon/beacon/service/scanner/MonitoringManager.java:109-119 | returns each monitored region that matches the beacon exactly once, and no other region |
| Monitoring.MonitoringManager.UpdateStateOfRegionsMatchingTo | src/main/java/org/altbeacon/beacon/service/scanner/MonitoringManager.java:95-107 | visits each matching monitored region once; the new map and the notifications appended to the log are those of marking inside at the given clock reading, in that order; the counter and flag are unchanged; saves exactly once if some notification was sent and preservation is on, and not otherwise; keeps a stopped registry stopped |
| Monitoring.MonitoringManager.UpdateStatesFindNewOutside | src/main/java/org/altbeacon/beacon/service/scanner/MonitoringManager.java:80-93 | visits every monitored region once; the new map and the notifications appended are those of asking each one whether it is newly outside at the given clock reading, in that order; the counter and flag are unchanged; saves exactly once if some notification was sent and preservation is on, and not otherwise; keeps a stopped registry stopped |
| Monitoring.MonitoringManager.StopStatePreservationOnManagerDestruction | src/main/java/org/altbeacon/beacon/service/scanner/MonitoringManager.java:178-181 | the file is deleted and preservation is off; every other operation keeps that so, so the file is never written again |
| Monitoring.SightingStates | src/main/java/org/altbeacon/beacon/service/scanner/MonitoringManager.java:96-100 | a sighting replaces each matching region's state by its marked-inside state and leaves every non-matching region's state alone |
| Monitoring.SightingNotifications | src/main/java/org/altbeacon/beacon/service/scanner/MonitoringManager.java:98-104 | a sighting notifies `(inside, r)` if and only if `r` is monitored, matches the beacon, its mark reports a transition, and `inside` is whether its new state is inside |
| Monitoring.SightingNotificationCount | src/main/java/org/altbeacon/beacon/service/scanner/MonitoringManager.java:97-106 | a sighting sends as many notifications as there are matching regions whose mark reports a transition, never two for one region, and none (so no save) exactly when no matching region transitions |
| Monitoring.SweepStates | src/main/java/org/altbeacon/beacon/service/scanner/MonitoringManager.java:81-86 | a sweep replaces every region's state by the state its newly-outside check leaves it in |
| Monitoring.SweepNotifications | src/main/java/org/altbeacon/beacon/service/scanner/MonitoringManager.java:84-90 | a sweep notifies `(inside, r)` if and only if `r` is monitored, is newly outside, and `inside` is whether its new state is inside |
| Monitoring.SweepNotificationCount | src/main/java/org/altbeacon/beacon/service/scanner/MonitoringManager.java:82-92 | a sweep sends as many notifications as there are newly outside regions, never two for one region, and none (so no save) exactly when no region is newly outside |
| Monitoring.LaterSweepCanNotify | src/main/java/org/altbeacon/beacon/service/scanner/MonitoringManager.java:80-93 | a sweep's outcome depends on the clock reading: for a sample state machine that expires after time 10, the same states give no notification when swept at time 5 and one when swept at time 20 |
| Monitoring.RemoveFromEmptyRegistry | src/main/java/org/altbeacon/beacon/service/scanner/MonitoringManager.java:62-70 | removing a region from a fresh registry without a state file leaves no region and a count of -1 |
| Monitoring.RestartFromSavedState | src/main/java/org/altbeacon/beacon/service/scanner/MonitoringManager.java:50-60 | after one region is added and saved, a registry restored from the saved map monitors that region with the same state but counts 0 |
| RegistryPass.Pass | src/main/java/org/altbeacon/beacon/service/scanner/MonitoringManager.java:83-91 | a pass over some regions keeps the key set, sends at most one notification per visit, and only notifies visited regions |
| RegistryPass.PassUntouched | src/main/java/org/altbeacon/beacon/service/scanner/MonitoringManager.java:98-100 | a region the pass does not visit keeps its state |
| RegistryPass.PassStates | src/main/java/org/altbeacon/beacon/service/scanner/MonitoringManager.java:98-100 | each visited region is stepped exactly once, from its state before the pass; every other region keeps its state |
| RegistryPass.PassNotifications | src/main/java/org/altbeacon/beacon/service/scanner/MonitoringManager.java:98-104 | `(inside, r)` is sent if and only if `r` is visited, has a state, its step reports a transition, and `inside` is whether the new state is inside |
| RegistryPass.PassSilent | src/main/java/org/altbeacon/beacon/service/scanner/MonitoringManager.java:97-106 | nothing is sent if and only if no visited region with a state reports a transition |
| RegistryPass.PassNotifiesOnce | src/main/java/org/altbeacon/beacon/service/scanner/MonitoringManager.java:98-104 | no region is notified twice in one pass |
| RegistryPass.PassNotificationCount | src/main/java/org/altbeacon/beacon/service/scanner/MonitoringManager.java:97-106 | the number of notifications is the number of visited regions with a state whose step reports a transition |

## Left out

- The singleton `getInstanceForApplication` with double-checked locking, and the `synchronized` modifiers: the model is sequential, one operation at a time.
- Android `Context`, file opening and deletion, and Java object serialization with its stream closing: the file is the ghost `store`, and the constructor takes the decoded file content as a parameter.
- The choice of log level by exception type in restore: every unreadable, undecodable or incompatible file is `None`.
- Logging.
- The `Callback` transport and the `MonitoringData` payload: a notification is the pair `(isInside, region)` appended to the ghost `notifications` log.
- `Region.matchesBeacon` and `RegionMonitoringState` (`markInside`, `isNewlyOutside`, `isInside`, debounce timing, the callback a new state is bound to). One clock reading per update call, the parameter `now`, stands in for the clock the state methods read; how a state uses it is not modelled. `RegionMonitoringState.java` and `Region.java` are not part of this model; their methods are uninterpreted functions here. So are the end-to-end scenarios that rely on their timing, such as "a second sighting sends no new notification".
- Monitoring.MonitoringManager.SaveMonitoringStateIfOn: a write that fails with an I/O error is not modelled. With preservation on, the file always ends up holding the map.
- Monitoring.MonitoringManager.StateOf: returns the region's state as a value, not the live, mutable state object the source returns. A caller of the source can change the registry through that object (for example by marking it inside) with no save and no notification. The model does not capture this aliasing.
- Monitoring.MonitoringManager.Regions: returns the set of keys as a value, not the live key view of the map that the source returns.
- Monitoring.MonitoringManager.UpdateStateOfRegionsMatchingTo: marks every matching region at the one clock reading `now`. In the source each `markInside()` call reads the clock at its own moment, later for regions visited later (after callbacks for earlier ones). The order independence of the `Sighting*` lemmas rests on this single reading; with a clock that advances during the pass, which regions transition could depend on the visit order.
- Monitoring.MonitoringManager.UpdateStatesFindNewOutside: asks every region at the one clock reading `now`. In the source each `isNewlyOutside()` call reads the clock at its own moment, so a region whose exit period ends during a sweep is reported in this sweep or the next depending on the `HashMap` order. The order independence of the `Sweep*` lemmas rests on this single reading.
- Monitoring.MonitoringManager.UpdateStateOfRegionsMatchingTo: it updates a local copy of the map and writes the copy back after the loop. The source mutates each state object in place. In a sequential setting the two are equivalent. Notifications are likewise gathered during the loop and appended after it.
- Monitoring.MonitoringManager.UpdateStatesFindNewOutside: it writes the map back after the loop, as `UpdateStateOfRegionsMatchingTo` does.

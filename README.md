# Storage network, rack slot and replicator slot: a Dafny model

This project models three pieces of inventory logic from a set of Subnautica mods.

- **The storage-network manager of a habitat** (`BaseManager`), in modules
  `StorageNetwork` (specification functions and lemmas) and `BaseManagers`
  (classes `Manager` and `Registry`).
  - A manager tracks the server racks and the SeaBreeze peripherals of its habitat, and a breaker.
  - It answers aggregate queries: per-kind inventory, item count, server lookup.
  - It routes deposits: food to the first SeaBreeze that can store it, anything
    else to a rack chosen by a two-pass scan (filtered slots first, then any slot).
  - It runs withdrawals, toggles the breaker and reports visibility, power and operability.
  - The static registry of managers finds or creates the manager of a habitat,
    removes racks from every manager and prunes managers whose habitat is gone.
- **One slot of a rack** (`RackSlot`), in module `RackSlots`.
  - Its state: the inserted server (a set of stored items), an occupied flag and a filter list (an allow-list).
  - It adds and removes items, by object or by kind.
  - A debounce flag and a timer coalesce network refreshes.
- **One slot of the replicator** (`ReplicatorSlot`), in module `Replicator`.
  - A counter of produced items, with a full flag.
  - A speed mode, a target item, and the progress of the clone being generated (−1 while idle).
  - Its frame update spawns clones.

How the model is built:

- **Racks, SeaBreezes and the player's inventory are other components**, and the
  model holds only their identities.
  - A `World` value supplies their answers for one call: `CanHoldItem`, `HasItem`,
    `GivePlayerItem`, `GetItemsWithin`, `GetItemCount`, `GetServerWithItem`,
    `CanBeStored`, `ContainsItem`, the SeaBreeze's add, and `Inventory.HasRoomFor`.
  - What the manager asks of them comes back as values. A deposit is a `Deposit`
    (the rack or the SeaBreeze, and that SeaBreeze's answer). A withdrawal is a
    sequence of `TakeEvent`s, one per hand-over.
- **A .NET `HashSet` or dictionary is a duplicate-free sequence.** This applies
  to `BaseRacks`, the keys of `SeaBreezes`, and a slot's server. An addition goes
  at the end, which is the enumeration order only as long as nothing has been
  removed: after a removal .NET reuses the freed slot (see "Left out").
  A per-kind dictionary is a `map<TechType, int>`.
- **Unity's null check on a destroyed object becomes explicit data.**
  - A rack that has been destroyed is one for which `World.rackAlive` is false.
  - A manager whose habitat is gone is one whose habitat id is in the `destroyed`
    set passed to `RemoveDestroyedBases`, `BaseHasPower` and `IsOperational`.
- Notifications become counters or logs on the object:
  - `UpdateNetwork` (`networkUpdates`)
  - `RemoveFromTrackedItems` (`trackedRemovals`)
  - `SendBaseMessage` (`baseMessages`)
  - `OnBreakerToggled` (`breakerToggled`)

Where the design description and the code differ, the model follows the code:

- `ToggleBreaker` always flips the breaker. With an antenna, visible or not, it
  first announces the new on/off state: `SendBaseMessage` receives the old tripped
  flag, and true reads Online. Nothing refuses to trip the breaker.
- A food item is reported stored as soon as a SeaBreeze says it can store it,
  whatever that SeaBreeze's add then answers.
- A food item that no SeaBreeze can store is refused. It does not fall back to the racks.
- A withdrawal takes one item from each rack holding the kind, stopping at the
  first refusal, and then at most one item from a SeaBreeze. It is not a
  count-driven loop.
- Neither a deposit nor a withdrawal raises an aggregate-change notification in the manager.
- `IsOperational` is "breaker not tripped, or the habitat has power". A Cyclops
  gets no special case there; only `IsVisible` and `HasAntenna` treat a Cyclops specially.

Some members carry no `ensures` of their own and therefore have no row below:
- `RackSlots.RackSlot.IsFull` is exactly "a server is inserted and holds at least the storage limit".
- `Replicator.ReplicatorSlot.NotAllowToGenerate` is exactly "paused, or Off, or no target, or full".
- `RackSlots.RackSlot.HasFilters` is exactly "the filter list is non-empty".
- `Replicator.ReplicatorSlot.GenerationProgress` is exactly the generating phase's
  entry of the progress list (the `GenerationProgress` property, `ReplicatorSlot.cs:21-25`).
- `Replicator.ReplicatorSlot.GetCount` is exactly the item count (`ReplicatorSlot.cs:144-147`).

They are used in the contracts of the members that read them.

## Model

| member | source | states |
|---|---|---|
| StorageNetwork.CollectServerItems | DataStorageSolutions/Model/BaseManager.cs:163-173 | adding one (kind, count) entry keeps every other kind's count, makes the entry's kind a key and adds its count to it |
| BaseManagers.GetStoredData | DataStorageSolutions/Model/BaseManager.cs:150-161 | the dictionary grows by exactly the rack's entries (present kinds, per-kind sums); a null rack adds nothing |
| StorageNetwork.AddsUpCompose | DataStorageSolutions/Model/BaseManager.cs:157-160 | folding two runs of entries into the dictionary one after the other is the same as folding their concatenation |
| StorageNetwork.FlattenPerSource | DataStorageSolutions/Model/BaseManager.cs:344-364 | the entries of all sources, in order, sum and report per kind as the sources do one by one |
| BaseManagers.AddsUpSources | DataStorageSolutions/Model/BaseManager.cs:338-366 | a dictionary folded from the rack entries and then the SeaBreeze entries has a key for exactly the kinds some source reports, with the sum over racks plus SeaBreezes |
| BaseManagers.Manager.GetItemsWithin | DataStorageSolutions/Model/BaseManager.cs:338-366 | for every kind: it is a key iff some live rack or some SeaBreeze reports it, and its count is the sum over live racks plus the sum over SeaBreezes; null racks are skipped |
| StorageNetwork.FirstHolding | DataStorageSolutions/Model/BaseManager.cs:428-445 | the index found is the first rack accepting the amount in the given mode; none iff no rack accepts it |
| StorageNetwork.ValidRack | DataStorageSolutions/Model/BaseManager.cs:425-449 | none iff no rack can hold the amount filtered or unfiltered; if some rack can hold it filtered, the first such rack; otherwise the first rack that can hold it at all |
| BaseManagers.Manager.FindValidRack | DataStorageSolutions/Model/BaseManager.cs:425-449 | the two in-order scans return exactly the rack `ValidRack` describes |
| BaseManagers.Manager.CanBeStored | DataStorageSolutions/Model/BaseManager.cs:420-423 | true iff FindValidRack finds a rack, i.e. iff some rack can hold the amount filtered or unfiltered |
| BaseManagers.Manager.AddItemToContainer | DataStorageSolutions/Model/BaseManager.cs:495-531 | non-food: fails with no deposit iff no valid rack, else deposits to the rack FindValidRack(kind, 1) picks; food: succeeds iff some SeaBreeze can store one, and then deposits to the first such SeaBreeze, success reported whatever its add answers |
| BaseManagers.Manager.IsAllowedToAdd | DataStorageSolutions/Model/BaseManager.cs:533-565 | food: iff some SeaBreeze can store one (so false with none); otherwise iff some rack can hold the dump container's count plus one |
| StorageNetwork.RackTakesArePrefixOfAttempts | DataStorageSolutions/Model/BaseManager.cs:377-389 | the rack phase is a prefix of one hand-over per holding rack in order: all of them, all given, when no rack refuses; otherwise ending at the first refusal |
| StorageNetwork.RackTakesHaveNoSeaBreeze | DataStorageSolutions/Model/BaseManager.cs:377-389 | every rack-phase event is a hand-over from a tracked rack that holds the kind |
| StorageNetwork.BreezeTakeFirst | DataStorageSolutions/Model/BaseManager.cs:392-400 | the SeaBreeze phase takes an item iff the player has room and some SeaBreeze holds the kind, and then exactly one, from the first such SeaBreeze |
| StorageNetwork.TakeOnceSeaBreezePhase | DataStorageSolutions/Model/BaseManager.cs:375-401 | after a refusal the take stops with the rack phase; otherwise it is every rack hand-over followed by the SeaBreeze phase; SeaBreeze events come only from tracked SeaBreezes holding the kind, with room |
| BaseManagers.Manager.PerformTakeOperation | DataStorageSolutions/Model/BaseManager.cs:375-401 | the loops with early exit hand over exactly `TakeOnce`: the rack phase up to the first refusal, then the SeaBreeze phase only if no rack refused |
| BaseManagers.Manager.RemoveItemFromContainer | DataStorageSolutions/Model/BaseManager.cs:567-583 | ExtractMultiplier * 5 independent take operations (none when not positive) with Right Shift, or Left Shift and a non-zero multiplier; one otherwise; each is a full `TakeOnce` against its own world |
| BaseManagers.Manager.GetServerWithItem | DataStorageSolutions/Model/BaseManager.cs:635-645 | none iff no rack has a server with the kind; otherwise what the first such rack returns |
| BaseManagers.Manager.GetItemCount | DataStorageSolutions/Model/BaseManager.cs:647-658 | the sum over tracked racks of each rack's count of the kind |
| StorageNetwork.RackCountSumIsRackTotal | DataStorageSolutions/Model/BaseManager.cs:647-658 | when every rack is alive and its count agrees with its contents, GetItemCount equals the rack part of GetItemsWithin |
| BaseManagers.Manager.constructor | DataStorageSolutions/Model/BaseManager.cs:217-223 | without a habitat nothing is initialised; with one, the instance id is the habitat's prefab id, the SeaBreezes are those found, and the breaker is the saved value (false without save data) |
| BaseManagers.Manager.AddRack | DataStorageSolutions/Model/BaseManager.cs:272-280 | appends the rack only when it is constructed and not yet tracked, so the rack set stays duplicate-free; nothing else changes |
| BaseManagers.Registry.RemoveRack | DataStorageSolutions/Model/BaseManager.cs:282-291 | every manager in the registry stops tracking the rack; every other rack is tracked exactly when it was, in the same order; nothing else changes |
| BaseManagers.Manager.ToggleBreaker | DataStorageSolutions/Model/BaseManager.cs:175-185 | the breaker is always negated; iff the manager has an antenna ignoring visibility, the message log receives the old tripped flag (true reads Online, so it announces the new on/off state); the new flag is reported once |
| BaseManagers.ToggleTwiceRestores | DataStorageSolutions/Model/BaseManager.cs:175-185 | two toggles restore the breaker and leave racks and SeaBreezes alone |
| BaseManagers.Manager.GetCurrentBaseAntenna | DataStorageSolutions/Model/BaseManager.cs:408-412 | the antenna found is alive, belongs to this manager and is visible unless visibility is ignored, and no earlier antenna in the list qualifies; none iff no antenna qualifies |
| BaseManagers.Manager.HasAntenna | DataStorageSolutions/Model/BaseManager.cs:244-252 | true iff the habitat is a Cyclops or some live antenna of this manager (visible unless ignored) exists |
| BaseManagers.Manager.IsVisible | DataStorageSolutions/Model/BaseManager.cs:33-45 | a Cyclops iff its breaker is on; a base iff it has a live, visible antenna of its own, i.e. HasAntenna without ignoring visibility |
| BaseManagers.Manager.BaseHasPower | DataStorageSolutions/Model/BaseManager.cs:187-203 | true iff there is a habitat, it has not been destroyed (Unity's null test), and its power status is not Offline (Normal or Emergency) |
| BaseManagers.Manager.IsOperational | DataStorageSolutions/Model/BaseManager.cs:54 | true iff the breaker is not tripped or a live habitat has power; a tripped breaker with a missing or destroyed habitat is not operational |
| BaseManagers.FindManagerById | DataStorageSolutions/Model/BaseManager.cs:238-242 | a manager found has the instance id; none iff no manager has it |
| BaseManagers.MatchingManager | DataStorageSolutions/Model/BaseManager.cs:230-236 | a manager found is registered and serves this habitat |
| BaseManagers.MatchingFindsHabitat | DataStorageSolutions/Model/BaseManager.cs:230-236 | when every manager's id is its habitat's prefab id, the two-step lookup finds a manager iff some registered manager serves the habitat |
| BaseManagers.MatchingIsTheServer | DataStorageSolutions/Model/BaseManager.cs:230-236 | with one manager per habitat, the two-step lookup returns exactly the registered manager that serves the habitat |
| BaseManagers.Registry.constructor | DataStorageSolutions/Model/BaseManager.cs:27 | the registry starts empty and satisfies its invariant (duplicate-free, ids from habitats, one manager per habitat) |
| BaseManagers.Registry.CreateNewManager | DataStorageSolutions/Model/BaseManager.cs:122-129 | called only when the lookup fails (its one caller is FindManager, line 235): a fresh manager for the habitat is appended, and the registry stays duplicate-free with one manager per habitat |
| BaseManagers.Registry.FindManager | DataStorageSolutions/Model/BaseManager.cs:230-236 | returns the matching manager and leaves the registry alone, or appends exactly one fresh manager for the habitat; the result serves the habitat, is registered, and is the only registered manager serving it |
| BaseManagers.FindManagerTwice | DataStorageSolutions/Model/BaseManager.cs:230-236 | a second lookup of the same habitat returns the manager the first returned and adds nothing; that manager is the only one in the registry serving the habitat, and the registry grows by at most one |
| BaseManagers.Registry.RemoveDestroyedBases | DataStorageSolutions/Model/BaseManager.cs:624-633 | the backward RemoveAt loop leaves exactly `KeepLive` of the old registry |
| BaseManagers.KeepLiveMembers | DataStorageSolutions/Model/BaseManager.cs:624-633 | a manager survives iff it was registered and its habitat exists and was not destroyed |
| BaseManagers.KeepLiveOnePerHabitat | DataStorageSolutions/Model/BaseManager.cs:624-633 | pruning keeps at most one manager per habitat, so RemoveDestroyedBases preserves the registry invariant |
| BaseManagers.KeepLiveAppend | DataStorageSolutions/Model/BaseManager.cs:624-633 | pruning works piecewise, so survivors keep their original relative order |
| BaseManagers.KeepLiveIdempotent | DataStorageSolutions/Model/BaseManager.cs:624-633 | pruning twice is pruning once |
| BaseManagers.KeepLiveNoDup | DataStorageSolutions/Model/BaseManager.cs:624-633 | pruning keeps the registry duplicate-free |
| StorageNetwork.DefaultName | DataStorageSolutions/Model/BaseManager.cs:600-603 | "Base " followed by the decimal digits of the manager count |
| StorageNetwork.DecimalRoundTrip | DataStorageSolutions/Model/BaseManager.cs:602 | the decimal digits of a count read back as that count |
| StorageNetwork.DefaultNamesDiffer | DataStorageSolutions/Model/BaseManager.cs:600-603 | different manager counts give different default names |
| BaseManagers.Registry.GetDefaultName | DataStorageSolutions/Model/BaseManager.cs:600-603 | the name is "Base " followed by digits that read back as the registry's size |
| RackSlots.RackSlot.constructor | DataStorageSolutions/Model/RackSlot.cs:161-167 | a new slot is unoccupied, holds no server, has no filters, no pending refresh and a full timer |
| RackSlots.RackSlot.SetOccupied | DataStorageSolutions/Model/RackSlot.cs:35-44 | sets the occupied flag and nothing else of the slot's state |
| RackSlots.RackSlot.SetServer | DataStorageSolutions/Model/RackSlot.cs:48-56 | stores the server and refreshes the network exactly once |
| RackSlots.RackSlot.SetFilter | DataStorageSolutions/Model/RackSlot.cs:58-62 | a null list becomes the empty list; afterwards HasFilters holds iff a non-empty list was given |
| RackSlots.RackSlot.FilterCrossCheck | DataStorageSolutions/Model/RackSlot.cs:64-83 | true iff a category filter or an exact filter allows the kind, i.e. iff any filter allows it |
| RackSlots.RackSlot.IsAllowedToAdd | DataStorageSolutions/Model/RackSlot.cs:261-266 | false when unoccupied; otherwise true iff the filter list is empty or some filter allows the kind |
| RackSlots.CountOf | DataStorageSolutions/Model/RackSlot.cs:284-287 | the number of stored items of the kind is its multiplicity among the items' kinds, at most the item count, and zero iff no item has the kind |
| RackSlots.RackSlot.GetItemCount | DataStorageSolutions/Model/RackSlot.cs:284-287 | zero without a server; otherwise the multiplicity of the kind among the stored items |
| RackSlots.RackSlot.Add | DataStorageSolutions/Model/RackSlot.cs:174-178 | the server set gains the item (unchanged if already present) and the debounce is re-armed with the full timer |
| RackSlots.RackSlot.Remove | DataStorageSolutions/Model/RackSlot.cs:180-184 | the server set loses exactly the item and the debounce is re-armed with the full timer |
| RackSlots.RackSlot.RemoveTechType | DataStorageSolutions/Model/RackSlot.cs:273-282 | the server loses the first item of the kind; if there was one the rack's tracked count is decremented once and the debounce re-armed, otherwise nothing changes |
| RackSlots.RemoveFirstOfTypeAt | DataStorageSolutions/Model/RackSlot.cs:275-280 | the removal cuts out exactly the first item of the kind |
| RackSlots.RemoveFirstOfTypeAbsent | DataStorageSolutions/Model/RackSlot.cs:275-281 | with no item of the kind, the server is left as it was |
| RackSlots.RemoveFirstOfTypeCounts | DataStorageSolutions/Model/RackSlot.cs:273-282 | the count of the kind drops by exactly one when positive, and every other kind's count is unchanged |
| RackSlots.RemoveFirstOfTypeKeepsOthers | DataStorageSolutions/Model/RackSlot.cs:273-282 | an item of another kind is stored afterwards exactly when it was before |
| RackSlots.RackSlot.Clear | DataStorageSolutions/Model/RackSlot.cs:169-172 | the server is dropped through its setter, refreshing the network once |
| RackSlots.RackSlot.DisconnectFromRack | DataStorageSolutions/Model/RackSlot.cs:247-253 | afterwards the slot is unoccupied with no server, not full, and accepts no kind at all |
| RackSlots.RackSlot.ResetTimer | DataStorageSolutions/Model/RackSlot.cs:142-146 | a refresh is pending with the full timer; nothing else changes |
| RackSlots.RackSlot.Update | DataStorageSolutions/Model/RackSlot.cs:85-97 | one frame is exactly one `Tick`: when pending, the timer runs down and on passing zero the network refreshes once, the flag clears and the timer resets |
| RackSlots.TicksFireOnce | DataStorageSolutions/Model/RackSlot.cs:85-97 | over any run of frames, an armed timer refreshes the network at most once, exactly when the frame times add up to more than the time left; a disarmed timer never fires |
| Replicator.ReplicatorSlot.constructor | FCS_ProductionSolutions/Mods/Replicator/Mono/ReplicatorSlot.cs:12-19 | every progress entry is idle (−1), the count is zero, the mode Off and there is no target (the `SpeedModes` enum is not part of this model; Off as the field's default value is assumed, not checked against its declaration) |
| Replicator.ReplicatorSlot.SetGenerationProgress | FCS_ProductionSolutions/Mods/Replicator/Mono/ReplicatorSlot.cs:21-25 | writes the generating entry of the progress list and leaves the other entries alone |
| Replicator.ReplicatorSlot.ChangeTargetItem | FCS_ProductionSolutions/Mods/Replicator/Mono/ReplicatorSlot.cs:52-56 | the target is unchanged while occupied, otherwise the argument |
| Replicator.ReplicatorSlot.StartedProgress | FCS_ProductionSolutions/Mods/Replicator/Mono/ReplicatorSlot.cs:126-142 | Off changes nothing; otherwise progress becomes 0 iff it was idle and the slot is not full (or it was already 0); any change is from −1 to 0 |
| Replicator.ReplicatorSlot.TryStartingNextClone | FCS_ProductionSolutions/Mods/Replicator/Mono/ReplicatorSlot.cs:126-142 | the generating progress becomes `StartedProgress` of the old one; other entries unchanged |
| Replicator.ReplicatorSlot.SetCurrentSpeedMode | FCS_ProductionSolutions/Mods/Replicator/Mono/ReplicatorSlot.cs:26-40 | stores the mode; only a change from Off to another mode attempts a start |
| Replicator.ReplicatorSlot.TryClear | FCS_ProductionSolutions/Mods/Replicator/Mono/ReplicatorSlot.cs:96-101 | false iff the count is positive |
| Replicator.ReplicatorSlot.RemoveItem | FCS_ProductionSolutions/Mods/Replicator/Mono/ReplicatorSlot.cs:103-110 | false with nothing changed when the count is not positive; otherwise the count drops by exactly one (staying non-negative) and a start is attempted |
| Replicator.ReplicatorSlot.AddItem | FCS_ProductionSolutions/Mods/Replicator/Mono/ReplicatorSlot.cs:112-117 | the count grows by one unless the slot is full, when it is unchanged |
| Replicator.ReplicatorSlot.SetItemCount | FCS_ProductionSolutions/Mods/Replicator/Mono/ReplicatorSlot.cs:144-152 | GetCount afterwards yields the amount set |
| Replicator.AddThenRemoveRestoresCount | FCS_ProductionSolutions/Mods/Replicator/Mono/ReplicatorSlot.cs:103-117 | adding to a slot that is not full and then removing restores the count |
| Replicator.ReplicatorSlot.Update | FCS_ProductionSolutions/Mods/Replicator/Mono/ReplicatorSlot.cs:58-82 | nothing changes when generation is not allowed or power is short; at the threshold one clone is spawned (count + 1, subject to full) and the next one started (progress 0); below it progress advances capped at the threshold; idle waits; with non-negative energy, progress stays idle or within [0, threshold] |

## Left out

- Unity presentation is left out: the name controller, dump container, docking manager, terminals,
  screens, dummy models, buttons, `FormatData`, and logging. None of it decides anything the model states.
- Antenna registration (`AddAntenna`, `RemoveAntenna`), `OnPowerUpdate`, `GetSaveData`,
  `GetBaseAntennas` and `GetAntennaCount` are not part of this model. The antenna list is a parameter of the functions that read it.
- SeaBreeze discovery is left out because it is component search in the scene.
  - `GetSeaBreezes` is a parameter: the ids the constructor receives.
  - `TrackNewSeabreeze` and the placed/destroyed event handlers are not modelled.
- The SeaBreeze dictionary's `Add` throws on a duplicate key. The constructor therefore requires the ids it receives to be distinct.
- The `try`/`catch` in `GetItemsWithin` that returns null is left out: the model has no exceptions.
- BaseManagers.Manager.RemoveItemFromContainer: the racks' and SeaBreezes' own state changes between repetitions are not shown.
  - Each repetition therefore gets its own `World`.
  - The keyboard state and `ExtractMultiplier` are parameters.
  - The 32-bit overflow of `ExtractMultiplier * 5` is not modelled.
- BaseManagers.Manager.PerformTakeOperation: does not model the items handed over or the inventory slot sizes. `HasRoomFor` is a single answer per call.
- BaseManagers.Registry.RemoveDestroyedBases: Unity's "destroyed object compares equal to null" becomes the set of destroyed habitat ids passed in.
- BaseManagers.Manager.HasAntenna, BaseManagers.Manager.IsVisible and BaseManagers.Manager.ToggleBreaker require a habitat: for a manager built without one the source throws `NullReferenceException` at `Habitat.isCyclops` (`BaseManager.cs:37`, `:246`), and the model has no exceptions.
- StorageNetwork.CollectServerItems: C# `int` wrap-around of the per-kind sums (`data[key] += value`, `BaseManager.cs:167`, `:357`) is not modelled; counts are unbounded integers. The same holds for BaseManagers.AddsUpSources and BaseManagers.Manager.GetItemsWithin.
- BaseManagers.Manager.GetItemCount: the running `amount +=` (`BaseManager.cs:654`) is an unbounded sum, without 32-bit wrap-around.
- BaseManagers.Manager.IsAllowedToAdd: `DumpContainer.GetCount() + 1` (`BaseManager.cs:558`) is computed without 32-bit wrap-around.
- The manager's habitat equality is value equality of the `Habitat` record, where the source compares object references.
- BaseManagers.Manager.AddRack: the new rack is appended at the end. A .NET `HashSet` puts an element added after a `Remove` into the freed slot, so after `RemoveRack` the source may enumerate the new rack earlier (racks {1, 2}, remove 1, add 3: the source enumerates 3, 2 and the model [2, 3]). That changes which rack counts as "first" in `FindValidRack`, `PerformTakeOperation` and `GetServerWithItem`.
- RackSlots.RackSlot.Add: the server is a sequence in insertion order. The enumeration order a `HashSet` gives after removals is not modelled, so "the first item of the kind" in `RemoveTechType` is the first in insertion order.
- RackSlots.RackSlot.Add, RackSlots.RackSlot.Remove and RackSlots.RackSlot.RemoveTechType require a server: the source dereferences null otherwise.
- Filter categories live in other code. A filter is its list of allowed kinds plus its category flag.
- RackSlots.RackSlot.Update: `float` arithmetic is modelled with real numbers, and `Time.deltaTime` is the parameter `delta`.
- The refresh itself (screen text and container event) is a counter. So is the rack's `RemoveFromTrackedItems`.
- Replicator.ReplicatorSlot.Update: the energy computation (`CalculateEnergyPerSecond`, `DayNightCycle` time) is the parameter `energy`. The manager's power check is the parameter `hasPower`. `float` is modelled with real numbers.
- Replicator.ReplicatorSlot.AddItem: does not model 32-bit wrap-around of the item count, because the count never approaches it in play. The tab refresh is left out.
- `ClonePhases` is not part of this model. The index of the generating phase is a constructor parameter below 3.

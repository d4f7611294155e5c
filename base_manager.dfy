/** The storage-network manager of one habitat and the global registry of
    managers.  A manager tracks a set of racks and a dictionary of SeaBreeze
    peripherals, both as duplicate-free sequences in enumeration order, and a
    breaker flag.  What the racks, peripherals and the player's inventory answer
    during one call is the `World` argument; what the manager asks them to do is
    returned as `Deposit` and `TakeEvent` values. */
module BaseManagers {
  import opened Common
  import opened StorageNetwork

  /** An antenna belongs to the manager with instance id `managerId` and is
      usable: it is alive, and visible unless visibility is ignored. */
  predicate Serves(a: Antenna, managerId: Option<string>, ignoreVisible: bool) {
    a.alive && a.managerId == managerId && (ignoreVisible || a.visible)
  }

  /** GetStoredData: adds every entry a rack reports to the dictionary; a null
      (destroyed) rack adds nothing. */
  method GetStoredData(rack: Option<Pairs>, data: map<TechType, int>) returns (r: map<TechType, int>)
    ensures AddsUp(r, data, if rack.Some? then rack.value else [])
  {
    r := data;
    if rack.None? {
      AddsUpEmpty(data);
      return;
    }
    var items := rack.value;
    AddsUpEmpty(data);
    assert items[..0] == [];
    var j := 0;
    while j < |items|
      invariant 0 <= j <= |items|
      invariant AddsUp(r, data, items[..j])
    {
      var next := CollectServerItems(items[j], r);
      AddsUpCompose(data, r, next, items[..j], [items[j]]);
      assert items[..j + 1] == items[..j] + [items[j]];
      r := next;
      j := j + 1;
    }
    assert items[..j] == items;
  }

  lemma AddsUpEmpty(data: map<TechType, int>)
    ensures AddsUp(data, data, [])
  {
  }

  /** A dictionary built from the rack entries followed by the SeaBreeze entries
      holds, per kind, what the sources report and sum to. */
  lemma AddsUpSources(data: map<TechType, int>, racks: seq<RackId>, breezes: seq<BreezeId>, w: World)
    requires AddsUp(data, map[], Flatten(racks, RackSource(w)) + Flatten(breezes, BreezeSource(w)))
    ensures forall t :: t in data <==> SourcesReport(racks, RackSource(w), t) || SourcesReport(breezes, BreezeSource(w), t)
    ensures forall t :: t in data ==>
              data[t] == SourcesTotal(racks, RackSource(w), t) + SourcesTotal(breezes, BreezeSource(w), t)
  {
    forall t ensures (t in data <==> SourcesReport(racks, RackSource(w), t) || SourcesReport(breezes, BreezeSource(w), t))
                  && (t in data ==>
                        data[t] == SourcesTotal(racks, RackSource(w), t) + SourcesTotal(breezes, BreezeSource(w), t)) {
      var a, b := Flatten(racks, RackSource(w)), Flatten(breezes, BreezeSource(w));
      PairsReportAppend(a, b, t);
      PairsTotalAppend(a, b, t);
      FlattenPerSource(racks, RackSource(w), t);
      FlattenPerSource(breezes, BreezeSource(w), t);
    }
  }

  class Manager {
    /** The habitat (SubRoot) this manager serves; None when constructed without one. */
    const habitat: Option<Habitat>
    /** InstanceID: the id of the habitat's PrefabIdentifier. */
    const instanceId: Option<string>

    /** BaseRacks. */
    var racks: seq<RackId>
    /** The keys of SeaBreezes, in enumeration order. */
    var seaBreezes: seq<BreezeId>
    var breakerTripped: bool
    /** The states SendBaseMessage has announced, oldest first. */
    var baseMessages: seq<bool>
    /** The values OnBreakerToggled has been invoked with, oldest first. */
    var breakerToggled: seq<bool>

    ghost predicate Valid()
      reads this
    {
      NoDup(racks) && NoDup(seaBreezes) && (habitat.Some? ==> instanceId == habitat.value.prefabId)
    }

    /** The constructor together with Initialize.  `saved` is what the save data
        holds for this instance id and `devices` the ids of the SeaBreezes found
        in the habitat; without a habitat nothing is initialised. */
    constructor (habitat: Option<Habitat>, saved: Option<BaseSaveData>, devices: seq<BreezeId>)
      requires NoDup(devices)
      ensures Valid()
      ensures this.habitat == habitat
      ensures instanceId == (if habitat.Some? then habitat.value.prefabId else None)
      ensures racks == [] && seaBreezes == (if habitat.Some? then devices else [])
      ensures breakerTripped == (habitat.Some? && saved.Some? && saved.value.hasBreakerTripped)
      ensures baseMessages == [] && breakerToggled == []
    {
      this.habitat := habitat;
      racks := [];
      baseMessages := [];
      breakerToggled := [];
      if habitat.None? {
        instanceId := None;
        seaBreezes := [];
        breakerTripped := false;
      } else {
        instanceId := habitat.value.prefabId;
        seaBreezes := devices;
        breakerTripped := saved.Some? && saved.value.hasBreakerTripped;
      }
    }

    /** AddRack: tracks a constructed rack that is not tracked yet. */
    method AddRack(unit: RackId, isConstructed: bool)
      requires Valid()
      modifies this
      ensures Valid()
      ensures racks == (if unit !in old(racks) && isConstructed then old(racks) + [unit] else old(racks))
      ensures seaBreezes == old(seaBreezes) && breakerTripped == old(breakerTripped)
      ensures baseMessages == old(baseMessages) && breakerToggled == old(breakerToggled)
    {
      if unit !in racks && isConstructed {
        AppendNoDup(racks, unit);
        racks := racks + [unit];
      }
    }

    /** GetItemsWithin: per kind, the sum over every live rack and every SeaBreeze
        of what it reports; a kind is a key exactly when some source reports it. */
    method GetItemsWithin(w: World) returns (data: map<TechType, int>)
      ensures forall t :: t in data <==>
                SourcesReport(racks, RackSource(w), t) || SourcesReport(seaBreezes, BreezeSource(w), t)
      ensures forall t :: t in data ==>
                data[t] == SourcesTotal(racks, RackSource(w), t) + SourcesTotal(seaBreezes, BreezeSource(w), t)
    {
      data := map[];
      AddsUpEmpty(data);
      assert racks[..0] == [];
      var i := 0;
      while i < |racks|
        invariant 0 <= i <= |racks|
        invariant AddsUp(data, map[], Flatten(racks[..i], RackSource(w)))
      {
        var rack := racks[i];
        var before := data;
        if w.rackAlive(rack) {
          data := GetStoredData(Some(w.rackItems(rack)), data);
        } else {
          AddsUpEmpty(data);
        }
        AddsUpCompose(map[], before, data, Flatten(racks[..i], RackSource(w)),
                      if w.rackAlive(rack) then w.rackItems(rack) else []);
        assert racks[..i + 1][..i] == racks[..i];
        i := i + 1;
      }
      assert racks[..i] == racks;
      var rackPart := Flatten(racks, RackSource(w));
      assert seaBreezes[..0] == [];
      assert rackPart + Flatten(seaBreezes[..0], BreezeSource(w)) == rackPart;
      var k := 0;
      while k < |seaBreezes|
        invariant 0 <= k <= |seaBreezes|
        invariant AddsUp(data, map[], rackPart + Flatten(seaBreezes[..k], BreezeSource(w)))
      {
        var items := w.breezeItems(seaBreezes[k]);
        var before := data;
        // The same per-entry update as for a rack.
        data := GetStoredData(Some(items), data);
        var prefix := Flatten(seaBreezes[..k], BreezeSource(w));
        AddsUpCompose(map[], before, data, rackPart + prefix, items);
        assert seaBreezes[..k + 1][..k] == seaBreezes[..k];
        assert rackPart + prefix + items == rackPart + (prefix + items);
        k := k + 1;
      }
      assert seaBreezes[..k] == seaBreezes;
      AddsUpSources(data, racks, seaBreezes, w);
    }

    /** FindValidRack: the first rack that can hold the items in a filtered slot,
        else the first that can hold them at all, else none. */
    method FindValidRack(t: TechType, amount: int, w: World) returns (r: Option<RackId>)
      ensures r == ValidRack(racks, w, t, amount)
    {
      var i := 0;
      while i < |racks|
        invariant 0 <= i <= |racks|
        invariant forall j :: 0 <= j < i ==> !w.rackCanHold(racks[j], amount, t, true)
      {
        if w.rackCanHold(racks[i], amount, t, true) {
          return Some(racks[i]);
        }
        i := i + 1;
      }
      i := 0;
      while i < |racks|
        invariant 0 <= i <= |racks|
        invariant forall j :: 0 <= j < i ==> !w.rackCanHold(racks[j], amount, t, false)
      {
        if w.rackCanHold(racks[i], amount, t, false) {
          return Some(racks[i]);
        }
        i := i + 1;
      }
      return None;
    }

    /** CanBeStored: some rack can hold the items, filtered or not. */
    method CanBeStored(amount: int, t: TechType, w: World) returns (r: bool)
      ensures r == ValidRack(racks, w, t, amount).Some?
      ensures r <==> exists j :: 0 <= j < |racks| &&
                       (w.rackCanHold(racks[j], amount, t, true) || w.rackCanHold(racks[j], amount, t, false))
    {
      var rack := FindValidRack(t, amount, w);
      r := rack.Some?;
    }

    /** AddItemToContainer.  Food goes to the first SeaBreeze that can store one
        of the kind, and is reported stored whatever that SeaBreeze's add answers;
        anything else goes to the rack FindValidRack(kind, 1) picks. */
    method AddItemToContainer(item: Item, w: World) returns (ok: bool, deposit: Deposit)
      ensures !ok ==> deposit == NoDeposit
      ensures !item.isFood ==> ok == ValidRack(racks, w, item.techType, 1).Some?
      ensures !item.isFood && ok ==> deposit == ToRack(ValidRack(racks, w, item.techType, 1).value)
      ensures item.isFood ==>
                (ok <==> exists j :: 0 <= j < |seaBreezes| && w.breezeCanStore(seaBreezes[j], 1, item.techType))
      ensures item.isFood && ok ==>
                exists k :: 0 <= k < |seaBreezes| && w.breezeCanStore(seaBreezes[k], 1, item.techType)
                  && deposit == ToSeaBreeze(seaBreezes[k], w.breezeAdds(seaBreezes[k], item.techType))
                  && forall j :: 0 <= j < k ==> !w.breezeCanStore(seaBreezes[j], 1, item.techType)
    {
      var t := item.techType;
      deposit := NoDeposit;
      if item.isFood {
        var successful := false;
        var k := 0;
        while k < |seaBreezes|
          invariant 0 <= k <= |seaBreezes|
          invariant forall j :: 0 <= j < k ==> !w.breezeCanStore(seaBreezes[j], 1, t)
          invariant !successful && deposit == NoDeposit
        {
          if w.breezeCanStore(seaBreezes[k], 1, t) {
            var result := w.breezeAdds(seaBreezes[k], t);
            deposit := ToSeaBreeze(seaBreezes[k], result);
            successful := true;
            break;
          }
          k := k + 1;
        }
        if !successful {
          return false, NoDeposit;
        }
      } else {
        var rack := FindValidRack(t, 1, w);
        if rack.None? {
          return false, NoDeposit;
        }
        deposit := ToRack(rack.value);
      }
      return true, deposit;
    }

    /** IsAllowedToAdd.  Food needs a SeaBreeze that can store one of the kind;
        anything else needs a rack that can hold what the dump container already
        holds plus this item. */
    method IsAllowedToAdd(item: Item, dumpCount: int, w: World) returns (r: bool)
      ensures item.isFood ==>
                (r <==> exists j :: 0 <= j < |seaBreezes| && w.breezeCanStore(seaBreezes[j], 1, item.techType))
      ensures !item.isFood ==> r == ValidRack(racks, w, item.techType, dumpCount + 1).Some?
    {
      if item.isFood {
        var successful := false;
        if |seaBreezes| == 0 {
          return false;
        }
        var k := 0;
        while k < |seaBreezes|
          invariant 0 <= k <= |seaBreezes|
          invariant forall j :: 0 <= j < k ==> !w.breezeCanStore(seaBreezes[j], 1, item.techType)
          invariant !successful
        {
          if w.breezeCanStore(seaBreezes[k], 1, item.techType) {
            successful := true;
            break;
          }
          k := k + 1;
        }
        return successful;
      }
      var storable := CanBeStored(dumpCount + 1, item.techType, w);
      if !storable {
        return false;
      }
      return true;
    }

    /** PerformTakeOperation: one hand-over from every rack holding the kind,
        stopping at the first refusal; if none refused, one item from the first
        SeaBreeze holding the kind when the player has room. */
    method PerformTakeOperation(t: TechType, w: World) returns (events: seq<TakeEvent>)
      ensures events == TakeOnce(racks, seaBreezes, w, t)
    {
      events := [];
      var i := 0;
      while i < |racks|
        invariant 0 <= i <= |racks|
        invariant events + RackTakes(racks[i..], w, t) == RackTakes(racks, w, t)
        invariant !GiveFails(racks[..i], w, t)
      {
        var unit := racks[i];
        assert racks[i..][0] == unit && racks[i..][1..] == racks[i + 1..];
        assert racks[..i + 1] == racks[..i] + [unit];
        if w.rackHasItem(unit, t) {
          var result := w.rackGives(unit, t);
          events := events + [GaveFromRack(unit, result)];
          if !result {
            assert racks[i] == unit;
            assert GiveFails(racks, w, t);
            return;
          }
        }
        assert events + RackTakes(racks[i + 1..], w, t) == RackTakes(racks, w, t);
        i := i + 1;
      }
      assert racks[..i] == racks;
      var rackEvents := events;
      var k := 0;
      while k < |seaBreezes|
        invariant 0 <= k <= |seaBreezes|
        invariant BreezeTake(seaBreezes[k..], w, t) == BreezeTake(seaBreezes, w, t)
        invariant events == rackEvents
      {
        var b := seaBreezes[k];
        assert seaBreezes[k..][0] == b && seaBreezes[k..][1..] == seaBreezes[k + 1..];
        if w.breezeContains(b, t) && w.playerHasRoom {
          events := events + [TookFromSeaBreeze(b)];
          return;
        }
        k := k + 1;
      }
    }

    /** RemoveItemFromContainer: with Right Shift, or Left Shift and a non-zero
        ExtractMultiplier, ExtractMultiplier * 5 take operations, otherwise one;
        take operation `i` meets the world `worlds[i]`. */
    method RemoveItemFromContainer(t: TechType, rightShift: bool, leftShift: bool, multiplier: int, worlds: seq<World>)
      returns (takes: seq<seq<TakeEvent>>)
      requires |worlds| == Repetitions(rightShift, leftShift, multiplier)
      ensures |takes| == |worlds|
      ensures forall i :: 0 <= i < |takes| ==> takes[i] == TakeOnce(racks, seaBreezes, worlds[i], t)
    {
      takes := [];
      if rightShift || (leftShift && multiplier != 0) {
        var i := 0;
        while i < multiplier * 5
          invariant 0 <= i <= |worlds|
          invariant |takes| == i
          invariant forall j :: 0 <= j < i ==> takes[j] == TakeOnce(racks, seaBreezes, worlds[j], t)
        {
          var once := PerformTakeOperation(t, worlds[i]);
          takes := takes + [once];
          i := i + 1;
        }
        assert i == |worlds|;
      } else {
        var once := PerformTakeOperation(t, worlds[0]);
        takes := [once];
      }
    }

    /** GetServerWithItem: what the first rack that has a server with the kind returns. */
    method GetServerWithItem(t: TechType, w: World) returns (r: Option<SlotRef>)
      ensures r.None? <==> forall j :: 0 <= j < |racks| ==> w.rackServerWithItem(racks[j], t).None?
      ensures r.Some? ==> exists k :: 0 <= k < |racks| && r == w.rackServerWithItem(racks[k], t)
                            && forall j :: 0 <= j < k ==> w.rackServerWithItem(racks[j], t).None?
    {
      var i := 0;
      while i < |racks|
        invariant 0 <= i <= |racks|
        invariant forall j :: 0 <= j < i ==> w.rackServerWithItem(racks[j], t).None?
      {
        var serverWithItem := w.rackServerWithItem(racks[i], t);
        if serverWithItem.Some? {
          return serverWithItem;
        }
        i := i + 1;
      }
      return None;
    }

    /** GetItemCount: the sum of every rack's count of the kind. */
    method GetItemCount(t: TechType, w: World) returns (amount: int)
      ensures amount == RackCountSum(racks, w, t)
    {
      amount := 0;
      var i := 0;
      while i < |racks|
        invariant 0 <= i <= |racks|
        invariant amount == RackCountSum(racks[..i], w, t)
      {
        assert racks[..i + 1][..i] == racks[..i];
        amount := amount + w.rackItemCount(racks[i], t);
        i := i + 1;
      }
      assert racks[..i] == racks;
    }

    /** GetCurrentBaseAntenna: the first antenna of this manager that is alive
        (and visible, unless that is ignored). */
    function GetCurrentBaseAntenna(antennas: seq<Antenna>, ignoreVisible: bool): (r: Option<Antenna>)
      ensures r.Some? ==> r.value in antennas && Serves(r.value, instanceId, ignoreVisible)
      ensures r.Some? ==>
                exists k :: 0 <= k < |antennas| && antennas[k] == r.value
                  && forall j :: 0 <= j < k ==> !Serves(antennas[j], instanceId, ignoreVisible)
      ensures r.None? <==> forall j :: 0 <= j < |antennas| ==> !Serves(antennas[j], instanceId, ignoreVisible)
    {
      FirstWhere(antennas, a => Serves(a, instanceId, ignoreVisible))
    }

    /** HasAntenna: a Cyclops always has one; a base needs an antenna of its own. */
    function HasAntenna(antennas: seq<Antenna>, ignoreVisible: bool): (r: bool)
      requires habitat.Some?
      ensures r <==> habitat.value.isCyclops ||
                     exists j :: 0 <= j < |antennas| && Serves(antennas[j], instanceId, ignoreVisible)
    {
      if habitat.value.isCyclops then true
      else GetCurrentBaseAntenna(antennas, ignoreVisible).Some?
    }

    /** IsVisible: a Cyclops is visible while its breaker is on; a base when it
        has a live, visible antenna of its own. */
    function IsVisible(antennas: seq<Antenna>): (r: bool)
      reads this
      requires habitat.Some?
      ensures habitat.value.isCyclops ==> (r <==> !breakerTripped)
      ensures !habitat.value.isCyclops ==>
                (r <==> exists j :: 0 <= j < |antennas| && Serves(antennas[j], instanceId, false))
      ensures !habitat.value.isCyclops ==> r == HasAntenna(antennas, false)
    {
      if habitat.value.isCyclops then !breakerTripped
      else
        var antenna := GetCurrentBaseAntenna(antennas, false);
        antenna.Some? && antenna.value.visible
    }

    /** BaseHasPower: only a habitat that still exists (it is neither missing
        nor in `destroyed`, the ids of the habitats Unity has destroyed) and whose
        power relay reports Normal or Emergency has power. */
    function BaseHasPower(status: PowerStatus, destroyed: set<nat>): (r: bool)
      ensures r <==> habitat.Some? && habitat.value.id !in destroyed && status != Offline
      ensures r ==> Live(this, destroyed)
    {
      if habitat.None? || habitat.value.id in destroyed then false
      else if status == Offline then false
      else status == Normal || status == Emergency
    }

    /** IsOperational: the breaker is on, or the habitat has power. */
    function IsOperational(status: PowerStatus, destroyed: set<nat>): (r: bool)
      reads this
      ensures r <==> !breakerTripped || (habitat.Some? && habitat.value.id !in destroyed && status != Offline)
      ensures breakerTripped && !Live(this, destroyed) ==> !r
    {
      !breakerTripped || BaseHasPower(status, destroyed)
    }

    /** ToggleBreaker: when the manager has an antenna (visible or not),
        announces the new on/off state (the message receives the old tripped
        flag, and true reads Online); then flips the breaker and reports the
        new flag. */
    method ToggleBreaker(antennas: seq<Antenna>)
      requires habitat.Some?
      modifies this
      ensures breakerTripped == !old(breakerTripped)
      ensures baseMessages == old(baseMessages) + (if HasAntenna(antennas, true) then [old(breakerTripped)] else [])
      ensures breakerToggled == old(breakerToggled) + [breakerTripped]
      ensures racks == old(racks) && seaBreezes == old(seaBreezes)
    {
      if HasAntenna(antennas, true) {
        baseMessages := baseMessages + [breakerTripped];
      }
      breakerTripped := !breakerTripped;
      breakerToggled := breakerToggled + [breakerTripped];
    }
  }

  /** Two breaker toggles restore the breaker. */
  method ToggleTwiceRestores(m: Manager, antennas: seq<Antenna>)
    requires m.habitat.Some?
    modifies m
    ensures m.breakerTripped == old(m.breakerTripped)
    ensures m.racks == old(m.racks) && m.seaBreezes == old(m.seaBreezes)
  {
    m.ToggleBreaker(antennas);
    m.ToggleBreaker(antennas);
  }

  /** FindManager(string): the first manager with the instance id. */
  function FindManagerById(ms: seq<Manager>, id: Option<string>): (r: Option<Manager>)
    ensures r.Some? ==> r.value in ms && r.value.instanceId == id
    ensures r.None? <==> forall i :: 0 <= i < |ms| ==> ms[i].instanceId != id
  {
    FirstWhere(ms, (x: Manager) => x.instanceId == id)
  }

  /** The existing manager FindManager(SubRoot) returns: the first one whose
      instance id is that of the manager found by the habitat's prefab id, and whose
      habitat is this one. */
  function MatchingManager(ms: seq<Manager>, h: Habitat): (r: Option<Manager>)
    ensures r.Some? ==> r.value in ms && r.value.habitat == Some(h)
  {
    var g := FindManagerById(ms, h.prefabId);
    var key := if g.Some? then g.value.instanceId else None;
    FirstWhere(ms, (x: Manager) => x.instanceId == key && x.habitat == Some(h))
  }

  /** Every manager's instance id is its habitat's prefab id. */
  predicate IdsFromHabitats(ms: seq<Manager>) {
    forall i :: 0 <= i < |ms| ==> ms[i].habitat.Some? ==> ms[i].instanceId == ms[i].habitat.value.prefabId
  }

  /** When ids come from habitats, the lookup finds a manager exactly when some
      manager serves the habitat. */
  lemma MatchingFindsHabitat(ms: seq<Manager>, h: Habitat)
    requires IdsFromHabitats(ms)
    ensures MatchingManager(ms, h).Some? <==> exists i :: 0 <= i < |ms| && ms[i].habitat == Some(h)
  {
    if exists i :: 0 <= i < |ms| && ms[i].habitat == Some(h) {
      var i :| 0 <= i < |ms| && ms[i].habitat == Some(h);
      var g := FindManagerById(ms, h.prefabId);
      assert ms[i].instanceId == h.prefabId;
      assert g.Some?;
      var key := if g.Some? then g.value.instanceId else None;
      assert key == h.prefabId;
      assert ms[i].instanceId == key && ms[i].habitat == Some(h);
    }
  }

  /** No two registered managers serve the same habitat. */
  predicate OnePerHabitat(ms: seq<Manager>) {
    forall i, j :: 0 <= i < j < |ms| && ms[i].habitat.Some? ==> ms[i].habitat != ms[j].habitat
  }

  /** With one manager per habitat, the lookup returns the manager serving the
      habitat, whichever it is, and none when no manager serves it. */
  lemma MatchingIsTheServer(ms: seq<Manager>, h: Habitat, m: Manager)
    requires IdsFromHabitats(ms) && OnePerHabitat(ms)
    requires m in ms && m.habitat == Some(h)
    ensures MatchingManager(ms, h) == Some(m)
  {
    MatchingFindsHabitat(ms, h);
    var r := MatchingManager(ms, h).value;
    var i :| 0 <= i < |ms| && ms[i] == m;
    var j :| 0 <= j < |ms| && ms[j] == r;
    assert ms[i].habitat == ms[j].habitat == Some(h);
    assert !(i < j) && !(j < i);
  }

  /** A manager survives RemoveDestroyedBases when its habitat exists and has not
      been destroyed. */
  predicate Live(m: Manager, destroyed: set<nat>) {
    m.habitat.Some? && m.habitat.value.id !in destroyed
  }

  /** The managers that survive, in their original order. */
  function KeepLive(ms: seq<Manager>, destroyed: set<nat>): seq<Manager>
    decreases |ms|
  {
    if ms == [] then []
    else (if Live(ms[0], destroyed) then [ms[0]] else []) + KeepLive(ms[1..], destroyed)
  }

  /** Exactly the live managers survive. */
  lemma {:induction false} KeepLiveMembers(ms: seq<Manager>, destroyed: set<nat>)
    ensures forall m :: m in KeepLive(ms, destroyed) <==> m in ms && Live(m, destroyed)
    decreases |ms|
  {
    if ms != [] {
      KeepLiveMembers(ms[1..], destroyed);
      assert ms == [ms[0]] + ms[1..];
    }
  }

  /** A survivor of pruning was registered and is live. */
  lemma KeepLiveSurvivor(ms: seq<Manager>, destroyed: set<nat>, m: Manager)
    requires m in KeepLive(ms, destroyed)
    ensures m in ms && Live(m, destroyed)
  {
    KeepLiveMembers(ms, destroyed);
  }

  /** Pruning works piecewise: it keeps the relative order of the survivors. */
  lemma {:induction false} KeepLiveAppend(a: seq<Manager>, b: seq<Manager>, destroyed: set<nat>)
    ensures KeepLive(a + b, destroyed) == KeepLive(a, destroyed) + KeepLive(b, destroyed)
    decreases |a|
  {
    if a == [] {
      assert a + b == b;
    } else {
      assert (a + b)[0] == a[0];
      assert (a + b)[1..] == a[1..] + b;
      KeepLiveAppend(a[1..], b, destroyed);
    }
  }

  /** Pruning a pruned registry changes nothing. */
  lemma {:induction false} KeepLiveIdempotent(ms: seq<Manager>, destroyed: set<nat>)
    ensures KeepLive(KeepLive(ms, destroyed), destroyed) == KeepLive(ms, destroyed)
    decreases |ms|
  {
    if ms != [] {
      var head := if Live(ms[0], destroyed) then [ms[0]] else [];
      KeepLiveIdempotent(ms[1..], destroyed);
      KeepLiveAppend(head, KeepLive(ms[1..], destroyed), destroyed);
      if Live(ms[0], destroyed) {
        assert [ms[0]][1..] == [];
      }
    }
  }

  /** Pruning keeps a duplicate-free registry duplicate-free. */
  lemma {:induction false} KeepLiveNoDup(ms: seq<Manager>, destroyed: set<nat>)
    requires NoDup(ms)
    ensures NoDup(KeepLive(ms, destroyed))
    decreases |ms|
  {
    if ms != [] {
      var rest := ms[1..];
      assert NoDup(rest) by {
        forall i, j | 0 <= i < j < |rest| ensures rest[i] != rest[j] {
          assert rest[i] == ms[i + 1] && rest[j] == ms[j + 1];
        }
      }
      KeepLiveNoDup(rest, destroyed);
      KeepLiveMembers(rest, destroyed);
      NoDupExcludes(ms, 0);
      assert ms[0] !in KeepLive(rest, destroyed);
    }
  }

  /** Pruning keeps at most one manager per habitat. */
  lemma {:induction false} KeepLiveOnePerHabitat(ms: seq<Manager>, destroyed: set<nat>)
    requires OnePerHabitat(ms)
    ensures OnePerHabitat(KeepLive(ms, destroyed))
    decreases |ms|
  {
    if ms != [] {
      var rest := ms[1..];
      assert OnePerHabitat(rest) by {
        forall i, j | 0 <= i < j < |rest| && rest[i].habitat.Some?
          ensures rest[i].habitat != rest[j].habitat
        {
          assert rest[i] == ms[i + 1] && rest[j] == ms[j + 1];
        }
      }
      KeepLiveOnePerHabitat(rest, destroyed);
      var tail := KeepLive(rest, destroyed);
      var r := (if Live(ms[0], destroyed) then [ms[0]] else []) + tail;
      forall i, j | 0 <= i < j < |r| && r[i].habitat.Some? ensures r[i].habitat != r[j].habitat {
        if Live(ms[0], destroyed) && i == 0 {
          assert r[j] == tail[j - 1];
          KeepLiveSurvivor(rest, destroyed, r[j]);
          var k :| 0 <= k < |rest| && rest[k] == r[j];
          assert ms[k + 1] == r[j];
        } else {
          var d := if Live(ms[0], destroyed) then 1 else 0;
          assert r[i] == tail[i - d] && r[j] == tail[j - d];
        }
      }
    }
  }

  /** The static registry: Managers. */
  class Registry {
    var managers: seq<Manager>

    ghost predicate Valid()
      reads this, set m | m in managers
    {
      NoDup(managers) && IdsFromHabitats(managers) && OnePerHabitat(managers)
      && forall m :: m in managers ==> m.Valid()
    }

    constructor ()
      ensures Valid() && managers == []
    {
      managers := [];
    }

    /** CreateNewManager: a new manager for the habitat, appended to the
        registry; the only caller, FindManager, calls it when the lookup fails. */
    method CreateNewManager(h: Habitat, saved: Option<BaseSaveData>, devices: seq<BreezeId>) returns (m: Manager)
      requires Valid() && NoDup(devices)
      requires MatchingManager(managers, h).None?
      modifies this
      ensures Valid() && fresh(m)
      ensures managers == old(managers) + [m]
      ensures m.habitat == Some(h) && m.instanceId == h.prefabId && m.racks == [] && m.seaBreezes == devices
      ensures m.breakerTripped == (saved.Some? && saved.value.hasBreakerTripped)
    {
      MatchingFindsHabitat(managers, h);
      m := new Manager(Some(h), saved, devices);
      managers := managers + [m];
    }

    /** FindManager(SubRoot): the matching manager if there is one, otherwise a
        new one appended to the registry. */
    method FindManager(h: Habitat, saved: Option<BaseSaveData>, devices: seq<BreezeId>) returns (m: Manager)
      requires Valid() && NoDup(devices)
      modifies this
      ensures Valid()
      ensures m in managers && m.habitat == Some(h)
      ensures forall i :: 0 <= i < |managers| && managers[i].habitat == Some(h) ==> managers[i] == m
      ensures MatchingManager(old(managers), h).Some? ==>
                m == MatchingManager(old(managers), h).value && managers == old(managers)
      ensures MatchingManager(old(managers), h).None? ==>
                fresh(m) && managers == old(managers) + [m] && m.instanceId == h.prefabId && m.racks == []
    {
      var found := MatchingManager(managers, h);
      if found.Some? {
        return found.value;
      }
      m := CreateNewManager(h, saved, devices);
    }

    /** RemoveRack: every manager stops tracking the rack; nothing else changes. */
    method RemoveRack(unit: RackId)
      requires Valid()
      modifies set m | m in managers
      ensures Valid()
      ensures forall m :: m in managers ==> m.racks == Without(old(m.racks), unit)
      ensures forall m :: m in managers ==>
                unit !in m.racks && forall r :: r != unit ==> (r in m.racks <==> r in old(m.racks))
      ensures forall m :: m in managers ==>
                m.seaBreezes == old(m.seaBreezes) && m.breakerTripped == old(m.breakerTripped)
                && m.baseMessages == old(m.baseMessages) && m.breakerToggled == old(m.breakerToggled)
    {
      var i := 0;
      while i < |managers|
        invariant 0 <= i <= |managers|
        invariant forall j :: 0 <= j < i ==> managers[j].racks == Without(old(managers[j].racks), unit)
        invariant forall j :: i <= j < |managers| ==> managers[j].racks == old(managers[j].racks)
        invariant forall m :: m in managers ==>
                    m.seaBreezes == old(m.seaBreezes) && m.breakerTripped == old(m.breakerTripped)
                    && m.baseMessages == old(m.baseMessages) && m.breakerToggled == old(m.breakerToggled)
        invariant Valid()
      {
        var m := managers[i];
        assert m in managers && m.Valid();
        if unit in m.racks {
          WithoutNoDup(m.racks, unit);
          m.racks := Without(m.racks, unit);
        }
        i := i + 1;
      }
      forall m | m in managers
        ensures unit !in m.racks && forall r :: r != unit ==> (r in m.racks <==> r in old(m.racks))
      {
        WithoutMembers(old(m.racks), unit);
      }
    }

    /** RemoveDestroyedBases: drops, back to front, every manager whose habitat is
        gone; `destroyed` holds the ids of the habitats no longer alive. */
    method RemoveDestroyedBases(destroyed: set<nat>)
      requires Valid()
      modifies this
      ensures Valid()
      ensures managers == KeepLive(old(managers), destroyed)
    {
      var i := |managers|;
      assert old(managers)[|managers|..] == [];
      while i > 0
        invariant 0 <= i <= |old(managers)|
        invariant managers == old(managers)[..i] + KeepLive(old(managers)[i..], destroyed)
      {
        i := i - 1;
        ghost var tail := old(managers)[i..];
        assert tail[0] == old(managers)[i] && tail[1..] == old(managers)[i + 1..];
        assert old(managers)[..i + 1] == old(managers)[..i] + [old(managers)[i]];
        if !Live(managers[i], destroyed) {
          managers := managers[..i] + managers[i + 1..];
        }
      }
      assert old(managers)[..0] == [] && old(managers)[0..] == old(managers);
      KeepLiveNoDup(old(managers), destroyed);
      KeepLiveOnePerHabitat(old(managers), destroyed);
      KeepLiveMembers(old(managers), destroyed);
      assert IdsFromHabitats(managers) by {
        forall i | 0 <= i < |managers| && managers[i].habitat.Some?
          ensures managers[i].instanceId == managers[i].habitat.value.prefabId
        {
          assert managers[i] in old(managers);
        }
      }
    }

    /** GetDefaultName: "Base " followed by the registry's size, which reads back
        from the name. */
    function GetDefaultName(): (s: string)
      reads this
      ensures |s| > 5 && s[..5] == "Base "
      ensures forall i :: 5 <= i < |s| ==> '0' <= s[i] <= '9'
      ensures ParseDecimal(s[5..]) == |managers|
    {
      DecimalRoundTrip(|managers|);
      DefaultName(|managers|)
    }
  }

  /** Looking a habitat up twice gives the same manager, which is then the only
      registered manager serving the habitat, and the second lookup leaves the
      registry as the first left it. */
  method FindManagerTwice(reg: Registry, h: Habitat, saved: Option<BaseSaveData>, devices: seq<BreezeId>)
    returns (first: Manager, second: Manager)
    requires reg.Valid() && NoDup(devices)
    modifies reg
    ensures reg.Valid() && first == second
    ensures first in reg.managers && first.habitat == Some(h)
    ensures forall i :: 0 <= i < |reg.managers| && reg.managers[i].habitat == Some(h) ==> reg.managers[i] == first
    ensures |reg.managers| <= |old(reg.managers)| + 1
  {
    first := reg.FindManager(h, saved, devices);
    ghost var after := reg.managers;
    MatchingIsTheServer(after, h, first);
    second := reg.FindManager(h, saved, devices);
  }
}

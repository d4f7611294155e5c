/** The per-habitat storage network manager: the racks and peripheral storage
    devices ("SeaBreezes") it tracks, the breaker, the aggregate queries, the
    routing of deposits and withdrawals, and the global registry of managers.

    Racks and peripherals are other components whose code is not part of this
    model.  A manager holds only their identities; what they answer when asked
    (CanHoldItem, HasItem, GivePlayerItem, GetItemsWithin, CanBeStored, ...) is
    given per call by a `World` value, and what the manager asks them to do is
    returned as an effect (`Deposit`, `TakeEvent`). */
module StorageNetwork {
  import opened Common

  /** Identity of a rack (DSSRackController). */
  type RackId = nat
  /** Key of a SeaBreeze in the SeaBreezes dictionary (its prefab id). */
  type BreezeId = string

  /** A (kind, count) entry of a per-type inventory dictionary, in enumeration order. */
  type Pairs = seq<(TechType, int)>

  datatype PowerStatus = Offline | Normal | Emergency

  /** A habitat (SubRoot): identity, whether it is a Cyclops submarine, and the id
      of its PrefabIdentifier component, if it has one. */
  datatype Habitat = Habitat(id: nat, isCyclops: bool, prefabId: Option<string>)

  /** An entry of the global antenna list: whether the object is still alive, the
      instance id of the manager it belongs to, and whether it reports visible. */
  datatype Antenna = Antenna(alive: bool, managerId: Option<string>, visible: bool)

  /** An item offered for deposit: its kind and whether it is food (has an Eatable). */
  datatype Item = Item(techType: TechType, isFood: bool)

  /** A slot of a rack, as returned by the rack's GetServerWithItem. */
  datatype SlotRef = SlotRef(rack: RackId, slot: int)

  /** Saved state of one habitat's manager. */
  datatype BaseSaveData = BaseSaveData(instanceId: Option<string>, baseName: string,
                                       hasBreakerTripped: bool, allowDocking: bool)

  /** What the racks, the peripherals and the player's inventory answer during one call. */
  datatype World = World(
    rackAlive: RackId -> bool,                       // rack != null
    rackItems: RackId -> Pairs,                      // rack.GetItemsWithin()
    rackCanHold: (RackId, int, TechType, bool) -> bool, // rack.CanHoldItem(amount, type, filteredOnly)
    rackHasItem: (RackId, TechType) -> bool,         // rack.HasItem(type)
    rackGives: (RackId, TechType) -> bool,           // rack.GivePlayerItem(type, data)
    rackItemCount: (RackId, TechType) -> int,        // rack.GetItemCount(type)
    rackServerWithItem: (RackId, TechType) -> Option<SlotRef>, // rack.GetServerWithItem(type)
    breezeItems: BreezeId -> Pairs,                  // seaBreeze.GetItemsWithin()
    breezeCanStore: (BreezeId, int, TechType) -> bool, // seaBreeze.CanBeStored(amount, type)
    breezeContains: (BreezeId, TechType) -> bool,    // seaBreeze.ContainsItem(type)
    breezeAdds: (BreezeId, TechType) -> bool,        // seaBreeze.AddItemToContainer(...)
    playerHasRoom: bool                              // Inventory.main.HasRoomFor(size)
  )

  /** Where AddItemToContainer sends an item. */
  datatype Deposit = NoDeposit | ToRack(rack: RackId) | ToSeaBreeze(breeze: BreezeId, added: bool)

  /** One hand-over to the player during a take operation. */
  datatype TakeEvent = GaveFromRack(rack: RackId, given: bool) | TookFromSeaBreeze(breeze: BreezeId)

  // ---------------------------------------------------------------------------
  // Per-type tallies

  function Get(m: map<TechType, int>, t: TechType): int {
    if t in m then m[t] else 0
  }

  /** Sum of the counts the entries give kind `t`. */
  function PairsTotal(ps: Pairs, t: TechType): int
    decreases |ps|
  {
    if ps == [] then 0
    else PairsTotal(ps[..|ps| - 1], t) + (if ps[|ps| - 1].0 == t then ps[|ps| - 1].1 else 0)
  }

  /** Some entry mentions kind `t`. */
  predicate PairsReport(ps: Pairs, t: TechType) {
    exists i :: 0 <= i < |ps| && ps[i].0 == t
  }

  /** `r` is `data` with the entries `ps` added in: a kind is present when it was
      or some entry mentions it, and its count grows by the entries' sum. */
  ghost predicate AddsUp(r: map<TechType, int>, data: map<TechType, int>, ps: Pairs) {
    forall t :: (t in r <==> t in data || PairsReport(ps, t)) && (t in r ==> r[t] == Get(data, t) + PairsTotal(ps, t))
  }

  lemma {:induction false} PairsTotalAppend(a: Pairs, b: Pairs, t: TechType)
    ensures PairsTotal(a + b, t) == PairsTotal(a, t) + PairsTotal(b, t)
    decreases |b|
  {
    if b == [] {
      assert a + b == a;
    } else {
      var n := |b| - 1;
      assert (a + b)[..|a + b| - 1] == a + b[..n];
      PairsTotalAppend(a, b[..n], t);
    }
  }

  lemma PairsReportAppend(a: Pairs, b: Pairs, t: TechType)
    ensures PairsReport(a + b, t) <==> PairsReport(a, t) || PairsReport(b, t)
  {
    if PairsReport(a, t) {
      var i :| 0 <= i < |a| && a[i].0 == t;
      assert (a + b)[i] == a[i];
    }
    if PairsReport(b, t) {
      var i :| 0 <= i < |b| && b[i].0 == t;
      assert (a + b)[|a| + i] == b[i];
    }
    if PairsReport(a + b, t) {
      var i :| 0 <= i < |a + b| && (a + b)[i].0 == t;
      if i >= |a| { assert b[i - |a|] == (a + b)[i]; } else { assert a[i] == (a + b)[i]; }
    }
  }

  /** A kind no entry mentions sums to zero. */
  lemma {:induction false} PairsTotalUnreported(ps: Pairs, t: TechType)
    requires !PairsReport(ps, t)
    ensures PairsTotal(ps, t) == 0
    decreases |ps|
  {
    if ps != [] {
      PairsTotalUnreported(ps[..|ps| - 1], t);
    }
  }

  /** Adding two runs of entries one after the other adds their concatenation. */
  lemma AddsUpCompose(d0: map<TechType, int>, d1: map<TechType, int>, d2: map<TechType, int>, a: Pairs, b: Pairs)
    requires AddsUp(d1, d0, a) && AddsUp(d2, d1, b)
    ensures AddsUp(d2, d0, a + b)
  {
    forall t ensures (t in d2 <==> t in d0 || PairsReport(a + b, t))
                  && (t in d2 ==> d2[t] == Get(d0, t) + PairsTotal(a + b, t)) {
      PairsReportAppend(a, b, t);
      PairsTotalAppend(a, b, t);
      if t !in d1 {
        PairsTotalUnreported(a, t);
      }
    }
  }

  /** CollectServerItems: adds one (kind, count) entry to the dictionary. */
  function CollectServerItems(item: (TechType, int), data: map<TechType, int>): (r: map<TechType, int>)
    ensures AddsUp(r, data, [item])
    ensures r.Keys == data.Keys + {item.0}
  {
    assert forall t :: (PairsReport([item], t) <==> t == item.0)
                    && PairsTotal([item], t) == (if item.0 == t then item.1 else 0) by {
      forall t ensures (PairsReport([item], t) <==> t == item.0)
                    && PairsTotal([item], t) == (if item.0 == t then item.1 else 0) {
        assert [item][0] == item;
        assert [item][..0] == [];
      }
    }
    if item.0 in data then data[item.0 := data[item.0] + item.1]
    else data[item.0 := item.1]
  }

  /** All entries of the sources that are present, source after source. */
  function Flatten<S>(srcs: seq<S>, items: S -> Option<Pairs>): Pairs
    decreases |srcs|
  {
    if srcs == [] then []
    else
      var last := items(srcs[|srcs| - 1]);
      Flatten(srcs[..|srcs| - 1], items) + (if last.Some? then last.value else [])
  }

  /** The per-type sum over the present sources of what each reports. */
  function SourcesTotal<S>(srcs: seq<S>, items: S -> Option<Pairs>, t: TechType): int
    decreases |srcs|
  {
    if srcs == [] then 0
    else
      var last := items(srcs[|srcs| - 1]);
      SourcesTotal(srcs[..|srcs| - 1], items, t) + (if last.Some? then PairsTotal(last.value, t) else 0)
  }

  /** Some present source reports kind `t`. */
  predicate SourcesReport<S>(srcs: seq<S>, items: S -> Option<Pairs>, t: TechType) {
    exists i :: 0 <= i < |srcs| && items(srcs[i]).Some? && PairsReport(items(srcs[i]).value, t)
  }

  /** The flattened entries sum and report per type exactly as the sources do. */
  lemma {:induction false} FlattenPerSource<S>(srcs: seq<S>, items: S -> Option<Pairs>, t: TechType)
    ensures PairsTotal(Flatten(srcs, items), t) == SourcesTotal(srcs, items, t)
    ensures PairsReport(Flatten(srcs, items), t) <==> SourcesReport(srcs, items, t)
    decreases |srcs|
  {
    if srcs != [] {
      var n := |srcs| - 1;
      var init := srcs[..n];
      var last := items(srcs[n]);
      var tail := if last.Some? then last.value else [];
      FlattenPerSource(init, items, t);
      PairsTotalAppend(Flatten(init, items), tail, t);
      PairsReportAppend(Flatten(init, items), tail, t);
      if SourcesReport(srcs, items, t) {
        var i :| 0 <= i < |srcs| && items(srcs[i]).Some? && PairsReport(items(srcs[i]).value, t);
        if i < n { assert init[i] == srcs[i]; }
      }
      if SourcesReport(init, items, t) {
        var i :| 0 <= i < n && items(init[i]).Some? && PairsReport(items(init[i]).value, t);
        assert srcs[i] == init[i];
      }
    }
  }

  /** A rack contributes its contents unless it is null (destroyed). */
  function RackSource(w: World): RackId -> Option<Pairs> {
    (r: RackId) => if w.rackAlive(r) then Some(w.rackItems(r)) else None
  }

  /** A SeaBreeze always contributes its contents. */
  function BreezeSource(w: World): BreezeId -> Option<Pairs> {
    (b: BreezeId) => Some(w.breezeItems(b))
  }

  /** Sum over racks of what each rack's GetItemCount says. */
  function RackCountSum(racks: seq<RackId>, w: World, t: TechType): int
    decreases |racks|
  {
    if racks == [] then 0
    else RackCountSum(racks[..|racks| - 1], w, t) + w.rackItemCount(racks[|racks| - 1], t)
  }

  /** When every tracked rack is alive and its item count agrees with its contents,
      GetItemCount is the rack part of GetItemsWithin. */
  lemma {:induction false} RackCountSumIsRackTotal(racks: seq<RackId>, w: World, t: TechType)
    requires forall i :: 0 <= i < |racks| ==> w.rackAlive(racks[i])
    requires forall i :: 0 <= i < |racks| ==> w.rackItemCount(racks[i], t) == PairsTotal(w.rackItems(racks[i]), t)
    ensures RackCountSum(racks, w, t) == SourcesTotal(racks, RackSource(w), t)
    decreases |racks|
  {
    if racks != [] {
      var n := |racks| - 1;
      assert forall i :: 0 <= i < n ==> racks[..n][i] == racks[i];
      RackCountSumIsRackTotal(racks[..n], w, t);
    }
  }

  // ---------------------------------------------------------------------------
  // Routing specifications

  /** The index of the first rack that CanHoldItem(amount, t, filteredOnly) accepts. */
  function FirstHolding(racks: seq<RackId>, w: World, amount: int, t: TechType, filteredOnly: bool): (r: Option<nat>)
    ensures r.Some? ==> r.value < |racks| && w.rackCanHold(racks[r.value], amount, t, filteredOnly)
                        && forall j :: 0 <= j < r.value ==> !w.rackCanHold(racks[j], amount, t, filteredOnly)
    ensures r.None? <==> forall j :: 0 <= j < |racks| ==> !w.rackCanHold(racks[j], amount, t, filteredOnly)
  {
    FirstIndex(racks, r => w.rackCanHold(r, amount, t, filteredOnly))
  }

  /** The rack FindValidRack picks: the first rack that can hold the items in a
      filtered slot, or failing that the first that can hold them at all. */
  function ValidRack(racks: seq<RackId>, w: World, t: TechType, amount: int): (r: Option<RackId>)
    ensures r.None? <==> forall j :: 0 <= j < |racks| ==>
              !w.rackCanHold(racks[j], amount, t, true) && !w.rackCanHold(racks[j], amount, t, false)
    ensures r.Some? ==> r.value in racks
    ensures (exists j :: 0 <= j < |racks| && w.rackCanHold(racks[j], amount, t, true)) ==>
              exists k :: 0 <= k < |racks| && r == Some(racks[k]) && w.rackCanHold(racks[k], amount, t, true)
                && forall j :: 0 <= j < k ==> !w.rackCanHold(racks[j], amount, t, true)
    ensures (forall j :: 0 <= j < |racks| ==> !w.rackCanHold(racks[j], amount, t, true)) && r.Some? ==>
              exists k :: 0 <= k < |racks| && r == Some(racks[k]) && w.rackCanHold(racks[k], amount, t, false)
                && forall j :: 0 <= j < k ==> !w.rackCanHold(racks[j], amount, t, false)
  {
    var filtered := FirstHolding(racks, w, amount, t, true);
    if filtered.Some? then Some(racks[filtered.value])
    else
      var any := FirstHolding(racks, w, amount, t, false);
      if any.Some? then Some(racks[any.value]) else None
  }

  /** Every attempt a take operation would make at the racks: one hand-over from
      each rack holding the kind, in order, with the rack's answer. */
  function Attempts(racks: seq<RackId>, w: World, t: TechType): seq<TakeEvent>
    decreases |racks|
  {
    if racks == [] then []
    else (if w.rackHasItem(racks[0], t) then [GaveFromRack(racks[0], w.rackGives(racks[0], t))] else [])
         + Attempts(racks[1..], w, t)
  }

  /** The rack phase of PerformTakeOperation: attempts in order, stopping right
      after the first hand-over that fails. */
  function RackTakes(racks: seq<RackId>, w: World, t: TechType): seq<TakeEvent>
    decreases |racks|
  {
    if racks == [] then []
    else if !w.rackHasItem(racks[0], t) then RackTakes(racks[1..], w, t)
    else if w.rackGives(racks[0], t) then [GaveFromRack(racks[0], true)] + RackTakes(racks[1..], w, t)
    else [GaveFromRack(racks[0], false)]
  }

  /** Some rack holding the kind refuses to hand it over. */
  predicate GiveFails(racks: seq<RackId>, w: World, t: TechType) {
    exists i :: 0 <= i < |racks| && w.rackHasItem(racks[i], t) && !w.rackGives(racks[i], t)
  }

  /** The SeaBreeze phase: one item from the first SeaBreeze holding the kind, if
      the player has room. */
  function BreezeTake(breezes: seq<BreezeId>, w: World, t: TechType): (r: seq<TakeEvent>)
    ensures |r| <= 1
    decreases |breezes|
  {
    if breezes == [] then []
    else if w.breezeContains(breezes[0], t) && w.playerHasRoom then [TookFromSeaBreeze(breezes[0])]
    else BreezeTake(breezes[1..], w, t)
  }

  /** The SeaBreeze phase takes an item exactly when the player has room and some
      SeaBreeze holds the kind, and then from the first such SeaBreeze. */
  lemma {:induction false} BreezeTakeFirst(breezes: seq<BreezeId>, w: World, t: TechType)
    ensures BreezeTake(breezes, w, t) != [] <==>
              w.playerHasRoom && exists j :: 0 <= j < |breezes| && w.breezeContains(breezes[j], t)
    ensures BreezeTake(breezes, w, t) != [] ==>
              exists k :: 0 <= k < |breezes| && BreezeTake(breezes, w, t) == [TookFromSeaBreeze(breezes[k])]
                && w.breezeContains(breezes[k], t) && forall j :: 0 <= j < k ==> !w.breezeContains(breezes[j], t)
    decreases |breezes|
  {
    if breezes != [] && !(w.breezeContains(breezes[0], t) && w.playerHasRoom) {
      var rest := breezes[1..];
      BreezeTakeFirst(rest, w, t);
      if exists j :: 0 <= j < |breezes| && w.breezeContains(breezes[j], t) {
        var j :| 0 <= j < |breezes| && w.breezeContains(breezes[j], t);
        if j > 0 { assert rest[j - 1] == breezes[j]; }
      }
      if BreezeTake(rest, w, t) != [] {
        var k :| 0 <= k < |rest| && BreezeTake(rest, w, t) == [TookFromSeaBreeze(rest[k])]
                 && w.breezeContains(rest[k], t) && forall j :: 0 <= j < k ==> !w.breezeContains(rest[j], t);
        assert breezes[k + 1] == rest[k];
        assert forall j :: 1 <= j < k + 1 ==> breezes[j] == rest[j - 1];
      }
    }
  }

  /** Everything one PerformTakeOperation hands to the player. */
  function TakeOnce(racks: seq<RackId>, breezes: seq<BreezeId>, w: World, t: TechType): seq<TakeEvent> {
    RackTakes(racks, w, t) + (if GiveFails(racks, w, t) then [] else BreezeTake(breezes, w, t))
  }

  /** The rack phase takes the attempts in order, each holding rack once, and stops
      right after the first refusal: with no refusal it makes every attempt and all
      succeed; with one, the last event is the first refusal. */
  lemma {:induction false} RackTakesArePrefixOfAttempts(racks: seq<RackId>, w: World, t: TechType)
    ensures |RackTakes(racks, w, t)| <= |Attempts(racks, w, t)|
    ensures RackTakes(racks, w, t) == Attempts(racks, w, t)[..|RackTakes(racks, w, t)|]
    ensures !GiveFails(racks, w, t) ==> RackTakes(racks, w, t) == Attempts(racks, w, t)
    ensures !GiveFails(racks, w, t) ==> forall e :: e in RackTakes(racks, w, t) ==> e.GaveFromRack? && e.given
    ensures GiveFails(racks, w, t) ==>
              var r := RackTakes(racks, w, t);
              r != [] && r[|r| - 1].GaveFromRack? && !r[|r| - 1].given
              && forall k :: 0 <= k < |r| - 1 ==> r[k].GaveFromRack? && r[k].given
    decreases |racks|
  {
    if racks != [] {
      var rest := racks[1..];
      RackTakesArePrefixOfAttempts(rest, w, t);
      assert GiveFails(racks, w, t) <==>
             (w.rackHasItem(racks[0], t) && !w.rackGives(racks[0], t)) || GiveFails(rest, w, t) by {
        if GiveFails(racks, w, t) {
          var i :| 0 <= i < |racks| && w.rackHasItem(racks[i], t) && !w.rackGives(racks[i], t);
          if i > 0 { assert rest[i - 1] == racks[i]; }
        }
        if GiveFails(rest, w, t) {
          var i :| 0 <= i < |rest| && w.rackHasItem(rest[i], t) && !w.rackGives(rest[i], t);
          assert racks[i + 1] == rest[i];
        }
      }
      if w.rackHasItem(racks[0], t) && w.rackGives(racks[0], t) {
        var e := GaveFromRack(racks[0], true);
        var rt := RackTakes(rest, w, t);
        assert ([e] + Attempts(rest, w, t))[..|rt| + 1] == [e] + Attempts(rest, w, t)[..|rt|];
      }
    }
  }

  /** A take operation visits SeaBreezes only when every rack handed its item over,
      and then takes at most one item, from the first SeaBreeze holding the kind. */
  lemma TakeOnceSeaBreezePhase(racks: seq<RackId>, breezes: seq<BreezeId>, w: World, t: TechType)
    ensures GiveFails(racks, w, t) ==> TakeOnce(racks, breezes, w, t) == RackTakes(racks, w, t)
    ensures !GiveFails(racks, w, t) ==> TakeOnce(racks, breezes, w, t) == Attempts(racks, w, t) + BreezeTake(breezes, w, t)
    ensures forall b :: TookFromSeaBreeze(b) in TakeOnce(racks, breezes, w, t) ==>
              b in breezes && w.breezeContains(b, t) && w.playerHasRoom
  {
    RackTakesArePrefixOfAttempts(racks, w, t);
    RackTakesHaveNoSeaBreeze(racks, w, t);
    BreezeTakeFirst(breezes, w, t);
  }

  lemma {:induction false} RackTakesHaveNoSeaBreeze(racks: seq<RackId>, w: World, t: TechType)
    ensures forall e :: e in RackTakes(racks, w, t) ==> e.GaveFromRack? && e.rack in racks && w.rackHasItem(e.rack, t)
    decreases |racks|
  {
    if racks != [] {
      RackTakesHaveNoSeaBreeze(racks[1..], w, t);
    }
  }

  /** How many times RemoveItemFromContainer runs PerformTakeOperation: with Right
      Shift held, or Left Shift held and a non-zero multiplier, ExtractMultiplier * 5
      times (none when that is not positive); otherwise once. */
  function Repetitions(rightShift: bool, leftShift: bool, multiplier: int): nat {
    if rightShift || (leftShift && multiplier != 0) then
      (if multiplier * 5 > 0 then multiplier * 5 else 0)
    else 1
  }

  // ---------------------------------------------------------------------------
  // Default name

  function DigitChar(d: nat): (c: char)
    requires d < 10
    ensures '0' <= c <= '9' && (c as int) - ('0' as int) == d
  {
    (('0' as int) + d) as char
  }

  /** The decimal digits of `n`, as C# formats an int. */
  function DecimalDigits(n: nat): (s: string)
    ensures |s| >= 1 && forall i :: 0 <= i < |s| ==> '0' <= s[i] <= '9'
  {
    if n < 10 then [DigitChar(n)] else DecimalDigits(n / 10) + [DigitChar(n % 10)]
  }

  function ParseDecimal(s: string): nat
    requires forall i :: 0 <= i < |s| ==> '0' <= s[i] <= '9'
    decreases |s|
  {
    if s == [] then 0 else ParseDecimal(s[..|s| - 1]) * 10 + ((s[|s| - 1] as int) - ('0' as int))
  }

  /** The digits read back give the number. */
  lemma {:induction false} DecimalRoundTrip(n: nat)
    ensures ParseDecimal(DecimalDigits(n)) == n
  {
    if n >= 10 {
      DecimalRoundTrip(n / 10);
      var s := DecimalDigits(n / 10) + [DigitChar(n % 10)];
      assert s[..|s| - 1] == DecimalDigits(n / 10);
    } else {
      assert [DigitChar(n)][..0] == [];
    }
  }

  /** GetDefaultName: "Base " followed by the number of managers. */
  function DefaultName(managerCount: nat): (s: string)
    ensures |s| > 5 && s[..5] == "Base " && s[5..] == DecimalDigits(managerCount)
  {
    var s := "Base " + DecimalDigits(managerCount);
    assert s[5..] == DecimalDigits(managerCount);
    s
  }

  /** Different registry sizes give different default names. */
  lemma DefaultNamesDiffer(a: nat, b: nat)
    requires a != b
    ensures DefaultName(a) != DefaultName(b)
  {
    DecimalRoundTrip(a);
    DecimalRoundTrip(b);
  }
}

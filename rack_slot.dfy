/** One slot of a storage rack: the "server" it holds (a set of stored items),
    whether a server is inserted, its filter list (an allow-list), and the
    debounce flag and timer that coalesce refresh notifications. */
module RackSlots {
  import opened Common

  /** One stored item: its kind, and an identity standing for the object and the
      metadata copied from the original pickup. */
  datatype ObjectData = ObjectData(id: nat, techType: TechType)

  /** A placement filter.  A category filter allows every kind of its category, an
      exact filter one kind; `allowed` is the set of kinds the filter allows. */
  datatype Filter = Filter(isCategory: bool, allowed: set<TechType>)
  {
    predicate IsTechTypeAllowed(t: TechType) {
      t in allowed
    }
  }

  /** Some filter in the list, of either kind, allows `t`. */
  predicate AnyFilterAllows(filters: seq<Filter>, t: TechType) {
    exists i :: 0 <= i < |filters| && filters[i].IsTechTypeAllowed(t)
  }

  /** Some filter of the given kind (category or exact) allows `t`. */
  predicate KindFilterAllows(filters: seq<Filter>, t: TechType, category: bool) {
    exists i :: 0 <= i < |filters| && filters[i].isCategory == category && filters[i].IsTechTypeAllowed(t)
  }

  /** The kinds of a sequence of stored items, in order. */
  function Kinds(s: seq<ObjectData>): (r: seq<TechType>)
    ensures |r| == |s| && forall i :: 0 <= i < |s| ==> r[i] == s[i].techType
  {
    if s == [] then [] else [s[0].techType] + Kinds(s[1..])
  }

  /** How many stored items are of kind `t`: the multiplicity of `t` among the kinds. */
  function CountOf(s: seq<ObjectData>, t: TechType): (n: nat)
    ensures n == multiset(Kinds(s))[t]
    ensures n <= |s|
    ensures n == 0 <==> forall i :: 0 <= i < |s| ==> s[i].techType != t
  {
    if s == [] then 0
    else
      assert Kinds(s) == [s[0].techType] + Kinds(s[1..]);
      assert s == [s[0]] + s[1..];
      (if s[0].techType == t then 1 else 0) + CountOf(s[1..], t)
  }

  /** What `Remove(TechType)` leaves: the first item of kind `t` taken out, if any. */
  function RemoveFirstOfType(s: seq<ObjectData>, t: TechType): seq<ObjectData>
  {
    if s == [] then []
    else if s[0].techType == t then s[1..]
    else [s[0]] + RemoveFirstOfType(s[1..], t)
  }

  /** When item `i` is the first of kind `t`, RemoveFirstOfType cuts exactly it out. */
  lemma {:induction false} RemoveFirstOfTypeAt(s: seq<ObjectData>, t: TechType, i: nat)
    requires i < |s| && s[i].techType == t
    requires forall j :: 0 <= j < i ==> s[j].techType != t
    ensures RemoveFirstOfType(s, t) == s[..i] + s[i + 1..]
  {
    if i > 0 {
      RemoveFirstOfTypeAt(s[1..], t, i - 1);
      assert [s[0]] + (s[1..][..i - 1] + s[1..][i..]) == s[..i] + s[i + 1..];
    }
  }

  /** With no item of kind `t` there is nothing to remove. */
  lemma {:induction false} RemoveFirstOfTypeAbsent(s: seq<ObjectData>, t: TechType)
    requires forall j :: 0 <= j < |s| ==> s[j].techType != t
    ensures RemoveFirstOfType(s, t) == s
  {
    if s != [] {
      RemoveFirstOfTypeAbsent(s[1..], t);
    }
  }

  /** Removing by kind drops exactly one item of that kind when there is one, and
      leaves the count of every other kind alone. */
  lemma {:induction false} RemoveFirstOfTypeCounts(s: seq<ObjectData>, t: TechType, u: TechType)
    ensures CountOf(RemoveFirstOfType(s, t), u)
         == CountOf(s, u) - (if u == t && CountOf(s, t) > 0 then 1 else 0)
  {
    if s != [] {
      RemoveFirstOfTypeCounts(s[1..], t, u);
      if s[0].techType != t {
        var tail := RemoveFirstOfType(s[1..], t);
        assert ([s[0]] + tail)[1..] == tail;
      }
    }
  }

  /** Removing by kind leaves every item of another kind where it was: it is still
      stored exactly when it was stored before. */
  lemma {:induction false} RemoveFirstOfTypeKeepsOthers(s: seq<ObjectData>, t: TechType, x: ObjectData)
    requires x.techType != t
    ensures x in RemoveFirstOfType(s, t) <==> x in s
  {
    if s != [] {
      RemoveFirstOfTypeKeepsOthers(s[1..], t, x);
      assert s == [s[0]] + s[1..];
    }
  }

  /** Debounce timer length, one second (RackSlot.TimerLimit). */
  const TimerLimit: real := 1.0

  /** The slot's debounce state: whether a refresh is pending and the time left. */
  datatype Debounce = Debounce(pending: bool, timeLeft: real)

  /** One frame of `Update`: when pending, let `delta` seconds pass, and once the
      time left drops below zero fire one refresh and disarm. */
  function Tick(d: Debounce, delta: real): (Debounce, bool)
  {
    if !d.pending then (d, false)
    else if d.timeLeft - delta < 0.0 then (Debounce(false, TimerLimit), true)
    else (Debounce(true, d.timeLeft - delta), false)
  }

  /** Frames one after another: the final state and how many refreshes fired. */
  function Ticks(d: Debounce, deltas: seq<real>): (Debounce, nat)
    decreases |deltas|
  {
    if deltas == [] then (d, 0)
    else
      var (d', fired) := Tick(d, deltas[0]);
      var (d'', n) := Ticks(d', deltas[1..]);
      (d'', n + (if fired then 1 else 0))
  }

  function Sum(deltas: seq<real>): real {
    if deltas == [] then 0.0 else deltas[0] + Sum(deltas[1..])
  }

  lemma {:induction false} SumNonNegative(deltas: seq<real>)
    requires forall i :: 0 <= i < |deltas| ==> deltas[i] >= 0.0
    ensures Sum(deltas) >= 0.0
    decreases |deltas|
  {
    if deltas != [] {
      SumNonNegative(deltas[1..]);
    }
  }

  /** Coalescing: once armed with `timeLeft` seconds, any run of non-negative frame
      times fires the refresh at most once, exactly when the frames add up to more
      than the time left; a disarmed timer never fires. */
  lemma {:induction false} TicksFireOnce(d: Debounce, deltas: seq<real>)
    requires d.timeLeft >= 0.0
    requires forall i :: 0 <= i < |deltas| ==> deltas[i] >= 0.0
    ensures Ticks(d, deltas).1 == (if d.pending && Sum(deltas) > d.timeLeft then 1 else 0)
    ensures !d.pending ==> Ticks(d, deltas).0 == d
    decreases |deltas|
  {
    if deltas != [] {
      var (d', fired) := Tick(d, deltas[0]);
      TicksFireOnce(d', deltas[1..]);
      SumNonNegative(deltas[1..]);
    }
  }

  class RackSlot {
    /** Slot number within the rack. */
    const id: int
    /** ServerStorageLimit from the configuration: how many items a server holds. */
    const storageLimit: int

    var isOccupied: bool
    /** The inserted server's items in enumeration order; None when no server. */
    var server: Option<seq<ObjectData>>
    var filter: seq<Filter>
    var update: bool
    var timeLeft: real
    /** How many times UpdateNetwork has run (screen refresh + container event). */
    var networkUpdates: nat
    /** Kinds passed to the owning rack's RemoveFromTrackedItems, in call order. */
    var trackedRemovals: seq<TechType>

    /** The server is a set (no item twice) and the debounce timer is never negative
        between frames. */
    ghost predicate Valid()
      reads this
    {
      (server.Some? ==> NoDup(server.value)) && timeLeft >= 0.0
    }

    function DebounceState(): Debounce
      reads this
    {
      Debounce(update, timeLeft)
    }

    constructor (id: int, storageLimit: int)
      ensures Valid()
      ensures this.id == id && this.storageLimit == storageLimit
      ensures !isOccupied && server == None && filter == []
      ensures !update && timeLeft == TimerLimit
      ensures networkUpdates == 0 && trackedRemovals == []
    {
      this.id := id;
      this.storageLimit := storageLimit;
      isOccupied := false;
      server := None;
      filter := [];
      update := false;
      timeLeft := TimerLimit;
      networkUpdates := 0;
      trackedRemovals := [];
    }

    /** Setter of IsOccupied (the power-usage and dummy-model updates are presentation). */
    method SetOccupied(value: bool)
      requires Valid()
      modifies this
      ensures Valid()
      ensures isOccupied == value
      ensures server == old(server) && filter == old(filter) && DebounceState() == old(DebounceState())
      ensures networkUpdates == old(networkUpdates) && trackedRemovals == old(trackedRemovals)
    {
      isOccupied := value;
    }

    /** Setter of Server: stores the set and refreshes the network once. */
    method SetServer(value: Option<seq<ObjectData>>)
      requires Valid()
      requires value.Some? ==> NoDup(value.value)
      modifies this
      ensures Valid()
      ensures server == value && networkUpdates == old(networkUpdates) + 1
      ensures isOccupied == old(isOccupied) && filter == old(filter)
      ensures DebounceState() == old(DebounceState()) && trackedRemovals == old(trackedRemovals)
    {
      server := value;
      networkUpdates := networkUpdates + 1;
    }

    /** Setter of Filter: a null list is replaced by an empty one. */
    method SetFilter(value: Option<seq<Filter>>)
      requires Valid()
      modifies this
      ensures Valid()
      ensures filter == (if value.None? then [] else value.value)
      ensures HasFilters() <==> value.Some? && |value.value| > 0
      ensures isOccupied == old(isOccupied) && server == old(server)
      ensures DebounceState() == old(DebounceState())
      ensures networkUpdates == old(networkUpdates) && trackedRemovals == old(trackedRemovals)
    {
      filter := if value.None? then [] else value.value;
    }

    /** HasFilters; the filter list is never null in this model. */
    predicate HasFilters()
      reads this
    {
      |filter| > 0
    }

    /** Category filters are scanned first, then exact-type filters; either kind
        allowing `t` is enough, so the answer is the union of the two. */
    method FilterCrossCheck(t: TechType) returns (r: bool)
      ensures r <==> KindFilterAllows(filter, t, true) || KindFilterAllows(filter, t, false)
      ensures r <==> AnyFilterAllows(filter, t)
    {
      var i := 0;
      while i < |filter|
        invariant 0 <= i <= |filter|
        invariant !KindFilterAllows(filter[..i], t, true)
      {
        if filter[i].isCategory && filter[i].IsTechTypeAllowed(t) {
          assert filter[i] == filter[..i + 1][i];
          return true;
        }
        assert filter[..i + 1] == filter[..i] + [filter[i]];
        i := i + 1;
      }
      assert filter[..i] == filter;
      i := 0;
      while i < |filter|
        invariant 0 <= i <= |filter|
        invariant !KindFilterAllows(filter[..i], t, false)
      {
        if !filter[i].isCategory && filter[i].IsTechTypeAllowed(t) {
          assert filter[i] == filter[..i + 1][i];
          return true;
        }
        assert filter[..i + 1] == filter[..i] + [filter[i]];
        i := i + 1;
      }
      assert filter[..i] == filter;
      return false;
    }

    /** What IsAllowedToAdd answers: a server is inserted and the filters are empty
        or allow the kind. */
    predicate Accepts(t: TechType)
      reads this
    {
      isOccupied && (filter == [] || AnyFilterAllows(filter, t))
    }

    method IsAllowedToAdd(t: TechType) returns (r: bool)
      ensures r == Accepts(t)
      ensures !isOccupied ==> !r
      ensures isOccupied && filter == [] ==> r
    {
      if !isOccupied {
        return false;
      }
      if |filter| == 0 {
        return true;
      }
      r := FilterCrossCheck(t);
    }

    /** IsFull: a server is inserted and holds at least the storage limit. */
    predicate IsFull()
      reads this
    {
      server.Some? && |server.value| >= storageLimit
    }

    /** Number of stored items of kind `t`; 0 without a server. */
    function GetItemCount(t: TechType): (n: nat)
      reads this
      ensures server.None? ==> n == 0
      ensures server.Some? ==> n == multiset(Kinds(server.value))[t]
    {
      if server.None? then 0 else CountOf(server.value, t)
    }

    /** Adds the item to the server set (a no-op on the set if already present) and
        re-arms the debounce timer.  With no server the source dereferences null. */
    method Add(data: ObjectData)
      requires Valid() && server.Some?
      modifies this
      ensures Valid()
      ensures server == Some(if data in old(server.value) then old(server.value) else old(server.value) + [data])
      ensures DebounceState() == Debounce(true, TimerLimit)
      ensures isOccupied == old(isOccupied) && filter == old(filter)
      ensures networkUpdates == old(networkUpdates) && trackedRemovals == old(trackedRemovals)
    {
      if data !in server.value {
        AppendNoDup(server.value, data);
        server := Some(server.value + [data]);
      }
      ResetTimer();
    }

    /** Removes the item from the server set, if there, and re-arms the debounce timer. */
    method Remove(data: ObjectData)
      requires Valid() && server.Some?
      modifies this
      ensures Valid()
      ensures server == Some(Without(old(server.value), data))
      ensures DebounceState() == Debounce(true, TimerLimit)
      ensures isOccupied == old(isOccupied) && filter == old(filter)
      ensures networkUpdates == old(networkUpdates) && trackedRemovals == old(trackedRemovals)
    {
      WithoutNoDup(server.value, data);
      server := Some(Without(server.value, data));
      ResetTimer();
    }

    /** Remove(TechType): scans the server in order, removes the first item of kind
        `t`, tells the rack to decrement its tracked count once, and stops.  With no
        such item nothing changes. */
    method RemoveTechType(t: TechType)
      requires Valid() && server.Some?
      modifies this
      ensures Valid()
      ensures server == Some(RemoveFirstOfType(old(server.value), t))
      ensures old(GetItemCount(t)) > 0 ==>
                trackedRemovals == old(trackedRemovals) + [t] && DebounceState() == Debounce(true, TimerLimit)
      ensures old(GetItemCount(t)) == 0 ==>
                trackedRemovals == old(trackedRemovals) && DebounceState() == old(DebounceState())
      ensures isOccupied == old(isOccupied) && filter == old(filter) && networkUpdates == old(networkUpdates)
    {
      var s := server.value;
      var i := 0;
      while i < |s|
        invariant 0 <= i <= |s|
        invariant server == Some(s) && trackedRemovals == old(trackedRemovals)
        invariant DebounceState() == old(DebounceState())
        invariant forall j :: 0 <= j < i ==> s[j].techType != t
      {
        if s[i].techType == t {
          RemoveFirstOfTypeAt(s, t, i);
          WithoutAt(s, i);
          Remove(s[i]);
          trackedRemovals := trackedRemovals + [t];
          return;
        }
        i := i + 1;
      }
      RemoveFirstOfTypeAbsent(s, t);
    }

    /** Clear: drops the server (through the Server setter, which refreshes once). */
    method Clear()
      requires Valid()
      modifies this
      ensures Valid()
      ensures server == None && networkUpdates == old(networkUpdates) + 1
      ensures isOccupied == old(isOccupied) && filter == old(filter)
      ensures DebounceState() == old(DebounceState()) && trackedRemovals == old(trackedRemovals)
    {
      SetServer(None);
    }

    /** Takes the server out: the slot is unoccupied and empty, so it accepts nothing. */
    method DisconnectFromRack()
      requires Valid()
      modifies this
      ensures Valid()
      ensures !isOccupied && server == None && !IsFull()
      ensures forall t :: !Accepts(t)
      ensures networkUpdates == old(networkUpdates) + 1
      ensures filter == old(filter) && DebounceState() == old(DebounceState())
      ensures trackedRemovals == old(trackedRemovals)
    {
      SetOccupied(false);
      Clear();
    }

    method ResetTimer()
      requires Valid()
      modifies this
      ensures Valid()
      ensures DebounceState() == Debounce(true, TimerLimit)
      ensures isOccupied == old(isOccupied) && server == old(server) && filter == old(filter)
      ensures networkUpdates == old(networkUpdates) && trackedRemovals == old(trackedRemovals)
    {
      update := true;
      timeLeft := TimerLimit;
    }

    /** One frame of the owning rack's update loop, `delta` seconds after the last. */
    method Update(delta: real)
      requires Valid()
      modifies this
      ensures Valid()
      ensures (DebounceState(), networkUpdates > old(networkUpdates)) == Tick(old(DebounceState()), delta)
      ensures networkUpdates <= old(networkUpdates) + 1
      ensures isOccupied == old(isOccupied) && server == old(server) && filter == old(filter)
      ensures trackedRemovals == old(trackedRemovals)
    {
      if update {
        timeLeft := timeLeft - delta;
        if timeLeft < 0.0 {
          networkUpdates := networkUpdates + 1;
          update := false;
          timeLeft := TimerLimit;
        }
      }
    }
  }
}

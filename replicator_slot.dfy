/** One slot of the replicator: a counter of produced items with a full flag, a
    speed mode, a target item and the progress of the clone being generated
    (-1 while idle), advanced by the frame update. */
module Replicator {
  import opened Common

  /** The speed setting; every mode other than Off is identified by its enum value,
      which only feeds the energy-per-second computation. */
  datatype SpeedMode = Off | Running(value: int)

  /** The progress value meaning "no clone is being generated". */
  const Idle: real := -1.0

  class ReplicatorSlot {
    /** The per-phase progress list (three entries, all idle at first). */
    const progress: array<real>
    /** The index of the generating phase, (int)ClonePhases.Generating. */
    const generating: nat
    /** QPatch.Configuration.EnergyConsumpion: progress needed for one clone. */
    const energyConsumption: real

    var itemCount: int
    var isOccupied: bool
    var currentMode: SpeedMode
    var targetItem: TechType
    var pauseUpdates: bool
    var isFull: bool

    ghost predicate Valid()
      reads this
    {
      progress.Length == 3 && generating < 3
    }

    /** GenerationProgress getter. */
    function GenerationProgress(): real
      reads this, progress
      requires Valid()
    {
      progress[generating]
    }

    /** Progress is idle or between zero and the energy needed for one clone. */
    ghost predicate ProgressInRange()
      reads this, progress
      requires Valid()
    {
      GenerationProgress() == Idle || 0.0 <= GenerationProgress() <= energyConsumption
    }

    /** The entries of the progress list other than the generating one. */
    ghost predicate OtherPhasesUnchanged(before: seq<real>)
      reads this, progress
      requires Valid() && |before| == 3
    {
      forall k :: 0 <= k < 3 && k != generating ==> progress[k] == before[k]
    }

    constructor (generating: nat, energyConsumption: real)
      requires generating < 3
      ensures Valid() && fresh(progress)
      ensures this.generating == generating && this.energyConsumption == energyConsumption
      ensures progress[..] == [Idle, Idle, Idle]
      ensures itemCount == 0 && !isOccupied && currentMode == Off && targetItem == NoTechType
      ensures !pauseUpdates && !isFull
    {
      this.generating := generating;
      this.energyConsumption := energyConsumption;
      progress := new real[3](_ => Idle);
      itemCount := 0;
      isOccupied := false;
      currentMode := Off;
      targetItem := NoTechType;
      pauseUpdates := false;
      isFull := false;
    }

    /** The slot may not generate: paused, switched off, without target, or full. */
    predicate NotAllowToGenerate()
      reads this
    {
      pauseUpdates || currentMode == Off || targetItem == NoTechType || isFull
    }

    /** What TryStartingNextClone makes of the generating progress `p`. */
    function StartedProgress(p: real): (r: real)
      reads this
      ensures currentMode == Off ==> r == p
      ensures currentMode != Off ==> (r == 0.0 <==> (!isFull && p == Idle) || p == 0.0)
      ensures r != p ==> p == Idle && r == 0.0
    {
      if currentMode != Off && !isFull && p == Idle then 0.0 else p
    }

    method SetGenerationProgress(value: real)
      requires Valid()
      modifies progress
      ensures Valid() && GenerationProgress() == value
      ensures OtherPhasesUnchanged(old(progress[..]))
    {
      progress[generating] := value;
    }

    /** ChangeTargetItem: ignored while the slot is occupied. */
    method ChangeTargetItem(t: TechType)
      modifies this
      ensures targetItem == (if old(isOccupied) then old(targetItem) else t)
      ensures itemCount == old(itemCount) && isOccupied == old(isOccupied) && currentMode == old(currentMode)
      ensures pauseUpdates == old(pauseUpdates) && isFull == old(isFull)
    {
      if isOccupied {
        return;
      }
      targetItem := t;
    }

    /** Starts a clone when the mode is not Off, the slot is not full and nothing is
        being generated; otherwise leaves the progress as it is. */
    method TryStartingNextClone()
      requires Valid()
      modifies progress
      ensures Valid()
      ensures GenerationProgress() == StartedProgress(old(GenerationProgress()))
      ensures OtherPhasesUnchanged(old(progress[..]))
    {
      if currentMode == Off {
        return;
      }
      if !isFull && GenerationProgress() == Idle {
        SetGenerationProgress(0.0);
      }
    }

    /** CurrentSpeedMode setter: switching from Off to another mode tries to start a
        clone; every other change only stores the mode. */
    method SetCurrentSpeedMode(mode: SpeedMode)
      requires Valid()
      modifies this, progress
      ensures Valid() && currentMode == mode
      ensures GenerationProgress()
           == (if old(currentMode) == Off && mode != Off then StartedProgress(old(GenerationProgress()))
               else old(GenerationProgress()))
      ensures OtherPhasesUnchanged(old(progress[..]))
      ensures itemCount == old(itemCount) && isOccupied == old(isOccupied) && targetItem == old(targetItem)
      ensures pauseUpdates == old(pauseUpdates) && isFull == old(isFull)
    {
      var previousMode := currentMode;
      currentMode := mode;
      if currentMode != Off {
        if previousMode == Off {
          TryStartingNextClone();
        }
      }
    }

    /** TryClear: refuses while items remain (Clear itself does nothing). */
    method TryClear() returns (r: bool)
      ensures r <==> itemCount <= 0
    {
      if itemCount > 0 {
        return false;
      }
      return true;
    }

    /** Takes one produced item out, then tries to start the next clone. */
    method RemoveItem() returns (r: bool)
      requires Valid()
      modifies this, progress
      ensures Valid()
      ensures r <==> old(itemCount) > 0
      ensures itemCount == (if r then old(itemCount) - 1 else old(itemCount))
      ensures old(itemCount) >= 0 ==> itemCount >= 0
      ensures GenerationProgress()
           == (if r then StartedProgress(old(GenerationProgress())) else old(GenerationProgress()))
      ensures OtherPhasesUnchanged(old(progress[..]))
      ensures isOccupied == old(isOccupied) && currentMode == old(currentMode) && targetItem == old(targetItem)
      ensures pauseUpdates == old(pauseUpdates) && isFull == old(isFull)
    {
      if itemCount <= 0 {
        return false;
      }
      itemCount := itemCount - 1;
      TryStartingNextClone();
      return true;
    }

    /** Adds one produced item unless the slot is full. */
    method AddItem()
      modifies this
      ensures itemCount == (if old(isFull) then old(itemCount) else old(itemCount) + 1)
      ensures isOccupied == old(isOccupied) && currentMode == old(currentMode) && targetItem == old(targetItem)
      ensures pauseUpdates == old(pauseUpdates) && isFull == old(isFull)
    {
      if isFull {
        return;
      }
      itemCount := itemCount + 1;
    }

    function GetCount(): int
      reads this
    {
      itemCount
    }

    method SetItemCount(amount: int)
      modifies this
      ensures GetCount() == amount
      ensures isOccupied == old(isOccupied) && currentMode == old(currentMode) && targetItem == old(targetItem)
      ensures pauseUpdates == old(pauseUpdates) && isFull == old(isFull)
    {
      itemCount := amount;
    }

    /** The progress part of the frame update.  `energy` stands for the energy this
        frame supplies and `hasPower` for the manager's power check.  A clone whose
        progress has reached the threshold is spawned and the next one started; a
        clone in progress advances, capped at the threshold; an idle slot waits. */
    method Update(energy: real, hasPower: bool)
      requires Valid()
      modifies this, progress
      ensures Valid()
      ensures OtherPhasesUnchanged(old(progress[..]))
      ensures isOccupied == old(isOccupied) && currentMode == old(currentMode) && targetItem == old(targetItem)
      ensures pauseUpdates == old(pauseUpdates) && isFull == old(isFull)
      ensures old(NotAllowToGenerate()) || !hasPower ==>
                itemCount == old(itemCount) && GenerationProgress() == old(GenerationProgress())
      ensures !old(NotAllowToGenerate()) && hasPower && old(GenerationProgress()) >= energyConsumption ==>
                itemCount == old(itemCount) + 1 && GenerationProgress() == 0.0
      ensures !old(NotAllowToGenerate()) && hasPower && 0.0 <= old(GenerationProgress()) < energyConsumption ==>
                itemCount == old(itemCount)
                && GenerationProgress() == Min(energyConsumption, old(GenerationProgress()) + energy)
      ensures old(GenerationProgress()) < 0.0 && old(GenerationProgress()) < energyConsumption ==>
                itemCount == old(itemCount) && GenerationProgress() == old(GenerationProgress())
      ensures energy >= 0.0 && energyConsumption >= 0.0 && old(ProgressInRange()) ==> ProgressInRange()
    {
      if NotAllowToGenerate() {
        return;
      }
      if !hasPower {
        return;
      }
      if GenerationProgress() >= energyConsumption {
        pauseUpdates := true;
        SetGenerationProgress(Idle);
        AddItem();
        TryStartingNextClone();
        pauseUpdates := false;
      } else if GenerationProgress() >= 0.0 {
        SetGenerationProgress(Min(energyConsumption, GenerationProgress() + energy));
      }
    }
  }

  function Min(a: real, b: real): (r: real)
    ensures r <= a && r <= b && (r == a || r == b)
  {
    if a <= b then a else b
  }

  /** A produced item put in and taken out again leaves the count where it was. */
  method AddThenRemoveRestoresCount(slot: ReplicatorSlot)
    requires slot.Valid() && !slot.isFull && slot.itemCount >= 0
    modifies slot, slot.progress
    ensures slot.itemCount == old(slot.itemCount)
  {
    slot.AddItem();
    var removed := slot.RemoveItem();
    assert removed;
  }
}

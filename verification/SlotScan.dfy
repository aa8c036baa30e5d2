/**
 One pass of `takeSlot` over the slots, as the loop runs it when nothing else touches the directory. The loop is
 shown to be a run of the slot machine in which only this session moves, so what holds of every run holds of it.
 */
module SlotScan {
  import opened Common
  import opened Slots
  import opened SlotExclusion

  class SlotDirectory {
    var slots: map<nat, Slot>

    constructor (slots: map<nat, Slot>)
      ensures this.slots == slots
    {
      this.slots := slots;
    }
  }

  datatype PassOutcome = Took(slot: nat) | NothingFree | CannotRemove(slot: nat)

  /** Whether a scan settles at slot `i`: it is free, or stale with a removal that succeeds or fails for good. */
  predicate Settles(slots: map<nat, Slot>, i: nat, running: set<nat>, now: int, removal: nat -> Removal) {
    i !in slots || (Stale(slots[i], running, now) && !removal(i).LeftForNextPoll?)
  }

  /** What one pass does: it settles at the first slot that allows it, and touches no other. */
  ghost predicate PassResult(before: map<nat, Slot>, after: map<nat, Slot>, max: nat, mine: string,
                             running: set<nat>, now: int, removal: nat -> Removal, outcome: PassOutcome, mkdirs: nat)
  {
    match outcome
    case NothingFree =>
      && after == before && mkdirs == max
      && forall j :: 1 <= j <= max ==> !Settles(before, j, running, now, removal)
    case Took(i) =>
      && 1 <= i <= max && after == before[i := OwnedSlot(mine, now)]
      && Settles(before, i, running, now, removal)
      && (i in before ==> removal(i).Removed?)
      && mkdirs == (if i in before then i + 1 else i)
      && forall j :: 1 <= j < i ==> !Settles(before, j, running, now, removal)
    case CannotRemove(i) =>
      && 1 <= i <= max && after == before && mkdirs == i
      && i in before && Stale(before[i], running, now) && removal(i).Refused?
      && forall j :: 1 <= j < i ==> !Settles(before, j, running, now, removal)
  }

  /** The system `s` with session `id` at a phase and the slots as they are now. */
  ghost function At(s: System, id: nat, phase: Phase, slots: map<nat, Slot>): System
    requires id in s.sessions
  {
    Move(s, id, phase).(slots := slots)
  }

  lemma MovingAgain(s: System, id: nat, from: Phase, to: Phase, slots: map<nat, Slot>)
    requires id in s.sessions
    ensures Move(At(s, id, from, slots), id, to) == At(s, id, to, slots)
  {
    assert At(s, id, from, slots).sessions[id := s.sessions[id].(phase := to)] == At(s, id, to, slots).sessions;
  }

  lemma NothingRunYet(s: System, id: nat, max: nat)
    requires id in s.sessions
    ensures Run(s, [], max) == Some(At(s, id, s.sessions[id].phase, s.slots))
  {
    assert At(s, id, s.sessions[id].phase, s.slots).sessions == s.sessions;
  }

  lemma TakingFreeSlot(s: System, id: nat, events: seq<Event>, i: nat, slots: map<nat, Slot>, max: nat)
    requires id in s.sessions && i <= max && i !in slots
    requires Run(s, events, max) == Some(At(s, id, Scanning(i), slots))
    ensures Run(s, events + [Mkdir(id), WriteOwner(id)], max) ==
            Some(At(s, id, Holding(i), slots[i := OwnedSlot(s.sessions[id].mine, s.now)]))
  {
    var made := At(s, id, Made(i), slots[i := FreshSlot(s.now)]);
    RunSnoc(s, events, Mkdir(id), max, At(s, id, Scanning(i), slots));
    MovingAgain(s, id, Scanning(i), Made(i), slots);
    RunSnoc(s, events + [Mkdir(id)], WriteOwner(id), max, made);
    WriteIsOpenThenFill(made, id, max);
    MovingAgain(s, id, Made(i), Holding(i), made.slots);
    assert made.slots[i := OwnedSlot(s.sessions[id].mine, s.now)] == slots[i := OwnedSlot(s.sessions[id].mine, s.now)];
    assert events + [Mkdir(id)] + [WriteOwner(id)] == events + [Mkdir(id), WriteOwner(id)];
  }

  /** Where a session is after finding slot `i` taken. */
  function AfterTaken(i: nat, stale: bool, removal: Removal): Phase {
    if !stale || removal.LeftForNextPoll? then Scanning(i + 1)
    else if removal.Removed? then Scanning(i)
    else Ended
  }

  lemma PassingTakenSlot(s: System, id: nat, events: seq<Event>, i: nat, slots: map<nat, Slot>, max: nat, removal: Removal)
    requires id in s.sessions && i <= max && i in slots
    requires Run(s, events, max) == Some(At(s, id, Scanning(i), slots))
    ensures var stale := Stale(slots[i], s.running, s.now);
            Run(s, events + [Mkdir(id), Reclaim(id, removal)], max) ==
            Some(At(s, id, AfterTaken(i, stale, removal), if stale && removal.Removed? then slots - {i} else slots))
  {
    hide Stale;
    RunSnoc(s, events, Mkdir(id), max, At(s, id, Scanning(i), slots));
    MovingAgain(s, id, Scanning(i), Occupied(i), slots);
    var occupied := At(s, id, Occupied(i), slots);
    RunSnoc(s, events + [Mkdir(id)], Reclaim(id, removal), max, occupied);
    var phase := AfterTaken(i, Stale(slots[i], s.running, s.now), removal);
    MovingAgain(s, id, Occupied(i), Condemned(i), slots);
    MovingAgain(s, id, Occupied(i), phase, slots);
    MovingAgain(s, id, Condemned(i), phase, slots);
    assert events + [Mkdir(id)] + [Reclaim(id, removal)] == events + [Mkdir(id), Reclaim(id, removal)];
  }

  /** Scans slots 1 to `max` once; `i -= 1` before the increment tries a reclaimed slot again. */
  method ScanOnce(dir: SlotDirectory, max: nat, mine: string, running: set<nat>, now: int, removal: nat -> Removal,
                  ghost s: System, ghost id: nat)
    returns (outcome: PassOutcome, mkdirs: nat, ghost events: seq<Event>)
    requires id in s.sessions && s.sessions[id].phase == Scanning(1) && s.sessions[id].mine == mine
    requires s.slots == dir.slots && s.running == running && s.now == now
    modifies dir
    ensures PassResult(old(dir.slots), dir.slots, max, mine, running, now, removal, outcome, mkdirs)
    ensures OneStep(events)
    ensures var phase := match outcome case Took(i) => Holding(i) case NothingFree => Scanning(max + 1) case _ => Ended;
            Run(s, events, max) == Some(At(s, id, phase, dir.slots))
  {
    hide Stale, Run;
    var i := 1;
    mkdirs, events := 0, [];
    NothingRunYet(s, id, max);
    while i <= max
      invariant 1 <= i <= max + 1
      invariant forall j :: 1 <= j < i ==> !Settles(old(dir.slots), j, running, now, removal)
      invariant
        || (dir.slots == old(dir.slots) && mkdirs == i - 1)
        || (i in old(dir.slots) && i <= max && dir.slots == old(dir.slots) - {i} && mkdirs == i
            && Settles(old(dir.slots), i, running, now, removal) && removal(i).Removed?)
      invariant OneStep(events)
      invariant Run(s, events, max) == Some(At(s, id, Scanning(i), dir.slots))
      decreases max - i, i in dir.slots
    {
      mkdirs := mkdirs + 1;
      if i !in dir.slots {
        TakingFreeSlot(s, id, events, i, dir.slots, max);
        events := events + [Mkdir(id), WriteOwner(id)];
        assert dir.slots[i := FreshSlot(now)][i := OwnedSlot(mine, now)] == dir.slots[i := OwnedSlot(mine, now)];
        dir.slots := dir.slots[i := FreshSlot(now)];
        dir.slots := dir.slots[i := OwnedSlot(mine, now)];
        assert dir.slots == old(dir.slots)[i := OwnedSlot(mine, now)];
        outcome := Took(i);
        return;
      }
      PassingTakenSlot(s, id, events, i, dir.slots, max, removal(i));
      events := events + [Mkdir(id), Reclaim(id, removal(i))];
      if Stale(dir.slots[i], running, now) {
        match removal(i) {
          case LeftForNextPoll =>
          case Refused =>
            outcome := CannotRemove(i);
            return;
          case Removed =>
            dir.slots := dir.slots - {i};
            i := i - 1;
        }
      }
      i := i + 1;
    }
    outcome := NothingFree;
  }

  /**
   Progress: when removals succeed and some slot is absent or stale, the pass takes one, after at most
   `max + 1` attempts at `mkdir`; and it takes none only when every slot is there and none is stale.
   */
  lemma PassMakesProgress(before: map<nat, Slot>, after: map<nat, Slot>, max: nat, mine: string,
                          running: set<nat>, now: int, removal: nat -> Removal, outcome: PassOutcome, mkdirs: nat)
    requires PassResult(before, after, max, mine, running, now, removal, outcome, mkdirs)
    requires forall i :: removal(i).Removed?
    ensures outcome.Took? <==> exists i :: 1 <= i <= max && (i !in before || Stale(before[i], running, now))
    ensures mkdirs <= max + 1
  {
    hide Stale;
    if i :| 1 <= i <= max && (i !in before || Stale(before[i], running, now)) {
      assert Settles(before, i, running, now, removal);
    }
  }
}

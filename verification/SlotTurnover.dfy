/**
 How a Docker slot changes hands over a run: when a session gives up, and when the slot of a process that is gone can
 be taken.
 */
module SlotTurnover {
  import opened Common
  import opened Text
  import opened Slots
  import opened SlotExclusion

  // ---- Giving up ----

  /** The session is after a slot: it has none yet, and has not given up. */
  predicate Seeks(s: System, id: nat) {
    id in s.sessions && !s.sessions[id].phase.Holding? && !s.sessions[id].phase.Removing? && !s.sessions[id].phase.Ended?
  }

  /** A `mkdir` or a write of the owner file fails for good, a stale slot may not be removed, or a pass ends past the deadline. */
  predicate IsRefusal(s: System, e: Event)
    requires !e.Boot? && !e.Die? && !e.Clock? && !e.Start?
    requires e.id in s.sessions
  {
    || e.MkdirFails? || e.WriteFails?
    || (e.Remove? && e.removal.Refused?)
    || (e.Reclaim? && e.removal.Refused? && s.sessions[e.id].phase.Occupied? &&
        var i := s.sessions[e.id].phase.slot; i in s.slots && Stale(s.slots[i], s.running, s.now))
    || (e.EndPass? && s.now >= s.sessions[e.id].until)
  }

  /** A session after a slot gives up exactly at a refusal, and then no slot has changed; a pass that ends in time begins again at slot 1. */
  lemma GivesUpExactly(s: System, e: Event, max: nat, t: System)
    requires !e.Boot? && !e.Die? && !e.Clock? && !e.Start?
    requires Seeks(s, e.id) && Next(s, e, max) == Some(t)
    ensures t.sessions[e.id].phase.Ended? <==> IsRefusal(s, e)
    ensures t.sessions[e.id].phase.Ended? ==> t.slots == s.slots
    ensures e.EndPass? ==> s.sessions[e.id].phase.slot > max && t.slots == s.slots
    ensures e.EndPass? && s.now < s.sessions[e.id].until ==> t.sessions[e.id].phase == Scanning(1)
  {
    hide Stale;
  }

  /** A slot lost between its `mkdir` and the creation of its owner file is left as it is, and the next one is tried. */
  lemma LostSlotIsPassedOver(s: System, id: nat, max: nat)
    requires id in s.sessions && s.sessions[id].phase.Made?
    requires var i := s.sessions[id].phase.slot; i in s.slots ==> !s.slots[i].owner.Missing?
    ensures Next(s, OpenOwner(id), max) == Some(Move(s, id, Scanning(s.sessions[id].phase.slot + 1)))
    ensures Next(s, WriteOwner(id), max) == Some(Move(s, id, Scanning(s.sessions[id].phase.slot + 1)))
  {
  }

  /** A release whose removal fails ends all the same, and leaves the slot to be reclaimed when its process is gone. */
  lemma FailedReleaseLeavesSlot(s: System, id: nat, max: nat)
    requires id in s.sessions && s.sessions[id].phase.Removing?
    ensures Next(s, ReleaseFails(id), max) == Some(Move(s, id, Ended))
  {
  }

  // ---- Processes that come and go ----

  /** A process that starts may begin a session, which scans from slot 1 under its own owner text until its deadline. */
  lemma NewProcessScans(s: System, pid: nat, id: nat, title: string, until: int, max: nat) returns (t: System)
    requires pid !in s.running && id !in s.sessions
    ensures Run(s, [Boot(pid), Start(id, pid, title, until)], max) == Some(t)
    ensures t.sessions == s.sessions[id := Session(pid, OwnerText(pid, title), until, Scanning(1))]
    ensures t.running == s.running + {pid} && t.slots == s.slots && t.now == s.now
  {
    hide OwnerText;
    var u := s.(running := s.running + {pid});
    t := u.(sessions := u.sessions[id := Session(pid, OwnerText(pid, title), until, Scanning(1))]);
    TwoSteps(s, Boot(pid), Start(id, pid, title, until), max, u, t);
  }

  /** A process that is gone takes its sessions with it and leaves every slot and every other session as it was. */
  lemma DeathLeavesSlots(s: System, pid: nat, max: nat) returns (t: System)
    ensures Next(s, Die(pid), max) == Some(t)
    ensures t.slots == s.slots && t.now == s.now && pid !in t.running
    ensures forall p :: p != pid ==> (p in t.running <==> p in s.running)
    ensures forall id :: id in t.sessions <==> id in s.sessions && s.sessions[id].pid != pid
    ensures forall id :: id in t.sessions ==> t.sessions[id] == s.sessions[id]
  {
    t := Next(s, Die(pid), max).value;
  }

  /** How old a slot directory is taken to be: a date up to a second ahead is no age, one further ahead is none at all. */
  lemma AgeIsExact(slot: Slot, now: int, age: nat)
    ensures Age(slot, now) == Some(age) <==>
            slot.changed.Some? && slot.changed.value <= now + 1_000 && age == if slot.changed.value >= now then 0 else now - slot.changed.value
  {
  }

  /** A slot whose maker dies before creating the owner file is reclaimed once it is more than ten seconds old. */
  lemma UnownedSlotIsReclaimed(s: System, id: nat, time: int, max: nat) returns (t: System)
    requires id in s.sessions && s.sessions[id].phase.Scanning?
    requires var i := s.sessions[id].phase.slot; i <= max && i !in s.slots
    ensures Run(s, [Mkdir(id), Die(s.sessions[id].pid), Clock(time)], max) == Some(t)
    ensures var i := s.sessions[id].phase.slot;
            i in t.slots && (Stale(t.slots[i], t.running, t.now) <==> time - s.now > 10_000)
  {
    var i, pid := s.sessions[id].phase.slot, s.sessions[id].pid;
    var made := Move(s, id, Made(i)).(slots := s.slots[i := FreshSlot(s.now)]);
    assert Next(s, Mkdir(id), max) == Some(made);
    var left := DeathLeavesSlots(made, pid, max);
    t := left.(now := time);
    assert Next(left, Clock(time), max) == Some(t);
    StaleIsExact(t.slots[i], t.running, t.now);
    hide Next, Stale;
    ThreeSteps(s, Mkdir(id), Die(pid), Clock(time), max, made, left, t);
  }

  /** And so is one whose maker dies between creating the owner file and writing it. */
  lemma UnwrittenSlotIsReclaimed(s: System, id: nat, time: int, max: nat) returns (t: System)
    requires id in s.sessions && s.sessions[id].phase.Made?
    requires var i := s.sessions[id].phase.slot; i in s.slots && s.slots[i].owner.Missing?
    ensures Run(s, [OpenOwner(id), Die(s.sessions[id].pid), Clock(time)], max) == Some(t)
    ensures var i := s.sessions[id].phase.slot;
            i in t.slots && (Stale(t.slots[i], t.running, t.now) <==> time - s.now > 10_000)
  {
    var i, pid := s.sessions[id].phase.slot, s.sessions[id].pid;
    var created := AfterOpening(s, id);
    assert Next(s, OpenOwner(id), max) == Some(created);
    var left := DeathLeavesSlots(created, pid, max);
    t := left.(now := time);
    assert Next(left, Clock(time), max) == Some(t);
    StaleIsExact(t.slots[i], t.running, t.now);
    hide Next, Stale;
    ThreeSteps(s, OpenOwner(id), Die(pid), Clock(time), max, created, left, t);
  }

  lemma ThreeSteps(s: System, e: Event, f: Event, g: Event, max: nat, u: System, v: System, t: System)
    requires Next(s, e, max) == Some(u) && Next(u, f, max) == Some(v) && Next(v, g, max) == Some(t)
    ensures Run(s, [e, f, g], max) == Some(t)
  {
    hide Next;
    TwoSteps(u, f, g, max, v, t);
    assert [e, f, g][1..] == [f, g];
  }

  /** The slot of a holder whose process dies can be taken at once by any session of another process that scans it. */
  lemma DeadHoldersSlotIsTaken(s: System, id: nat, k: nat, max: nat) returns (t: System)
    requires Inv(s, max) && Holds(s, id)
    requires k in s.sessions && s.sessions[k].phase == Scanning(s.sessions[id].phase.slot) && s.sessions[k].pid != s.sessions[id].pid
    ensures Run(s, [Die(s.sessions[id].pid), Mkdir(k), Reclaim(k, Removed)] + [Mkdir(k), WriteOwner(k)], max) == Some(t)
    ensures Holds(t, k) && t.sessions[k].phase.slot == s.sessions[id].phase.slot && id !in t.sessions
  {
    hide Inv, Stale, OneHolderEach, OwnsSlot, Next, Run;
    var i, pid := s.sessions[id].phase.slot, s.sessions[id].pid;
    HeldSlotIsNotStale(s, id, max);
    HolderInRange(s, id, max);
    var left := HolderDies(s, id, max);
    var found := Move(left, k, Occupied(i));
    FullSlotIsFound(left, k, max);
    var freed := ReclaimTakesAway(found, k, max);
    assert freed.sessions == left.sessions[k := left.sessions[k].(phase := Scanning(i))];
    ThreeSteps(s, Die(pid), Mkdir(k), Reclaim(k, Removed), max, left, found, freed);
    t := FreeSlotIsTaken(freed, k, i, max);
    RunOfBoth(s, [Die(pid), Mkdir(k), Reclaim(k, Removed)], [Mkdir(k), WriteOwner(k)], max, freed);
  }

  lemma FullSlotIsFound(s: System, k: nat, max: nat)
    requires k in s.sessions && s.sessions[k].phase.Scanning? && s.sessions[k].phase.slot <= max && s.sessions[k].phase.slot in s.slots
    ensures Next(s, Mkdir(k), max) == Some(Move(s, k, Occupied(s.sessions[k].phase.slot)))
  {
  }

  /** A holder's slot is stale from the moment its process is gone. */
  lemma HolderDies(s: System, id: nat, max: nat) returns (t: System)
    requires Inv(s, max) && Holds(s, id)
    ensures Next(s, Die(s.sessions[id].pid), max) == Some(t)
    ensures t.slots == s.slots && id !in t.sessions
    ensures forall k :: k in s.sessions && s.sessions[k].pid != s.sessions[id].pid ==> k in t.sessions && t.sessions[k] == s.sessions[k]
    ensures var i := s.sessions[id].phase.slot; i in t.slots && Stale(t.slots[i], t.running, t.now)
  {
    var i, pid := s.sessions[id].phase.slot, s.sessions[id].pid;
    assert WellNamed(pid, s.sessions[id].mine);
    HeldSlotIsNotStale(s, id, max);
    t := DeathLeavesSlots(s, pid, max);
    StaleIsExact(t.slots[i], t.running, t.now);
    hide Inv, Stale, OneHolderEach, Next, Trim, OwnerPid;
  }

  lemma ReclaimTakesAway(s: System, k: nat, max: nat) returns (t: System)
    requires k in s.sessions && s.sessions[k].phase.Occupied?
    requires var i := s.sessions[k].phase.slot; i in s.slots && Stale(s.slots[i], s.running, s.now)
    ensures Next(s, Reclaim(k, Removed), max) == Some(t)
    ensures var i := s.sessions[k].phase.slot;
            && t.slots == s.slots - {i} && t.running == s.running && t.now == s.now
            && t.sessions == s.sessions[k := s.sessions[k].(phase := Scanning(i))]
  {
    hide Stale;
    t := Next(s, Reclaim(k, Removed), max).value;
    assert t.sessions == s.sessions[k := s.sessions[k].(phase := Scanning(s.sessions[k].phase.slot))];
  }
}

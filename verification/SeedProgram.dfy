/** `install` and `write_all` as the program runs them: one run's calls, in order, on the shared directory. */
module SeedProgram {
  import opened Common
  import opened SeedInstall
  import opened SeedSafety

  class ConfigDirectory {
    var world: World

    constructor (world: World)
      ensures this.world == world
    {
      this.world := world;
    }
  }

  /** What the system does: which of a run's calls fail, and how many bytes a write of so many takes. */
  datatype System = System(fails: nat -> bool, writeFails: nat -> bool, taken: (nat, nat) -> nat) {
    ghost predicate WritesSomething() {
      forall call, left: nat :: left > 0 ==> 1 <= taken(call, left) <= left
    }

    ghost predicate NoWriteFails() {
      forall call: nat :: !writeFails(call)
    }

    ghost predicate NothingFails() {
      NoWriteFails() && forall call: nat :: !fails(call)
    }
  }

  lemma {:induction false} AfterSnoc(w: World, events: seq<Event>, e: Event, t: World)
    requires After(w, events) == Some(t)
    ensures After(w, events + [e]) == Next(t, e)
    decreases |events|
  {
    hide Next;
    if events == [] {
      assert (events + [e])[1..] == [];
    } else {
      assert (events + [e])[1..] == events[1..] + [e];
      AfterSnoc(Next(w, events[0]).value, events[1..], e, t);
    }
  }

  lemma {:induction false} PrefixRuns(start: World, events: seq<Event>, n: nat, now: World) returns (w: World)
    requires After(start, events) == Some(now) && n <= |events|
    ensures After(start, events[..n]) == Some(w)
    decreases n
  {
    hide Next;
    if n == 0 {
      w := start;
    } else {
      w := PrefixRuns(Next(start, events[0]).value, events[1..], n - 1, now);
      assert events[..n][1..] == events[1..][..n - 1];
    }
  }

  /** Stopping a run after any of its calls leaves the destination unchanged or whole, power lost or not. */
  lemma StoppedAnywhere(start: World, events: seq<Event>, id: nat, now: World, n: nat) returns (w: World)
    requires Start(start) && Trace(start, events, id, now) && n <= |events|
    ensures After(start, events[..n]) == Some(w)
    ensures UnchangedOrWhole(Lookup(w.disk, Destination), start, w)
    ensures forall found :: AfterPowerLoss(w.disk, found) ==> UnchangedOrWhole(found, start, w)
  {
    w := PrefixRuns(start, events, n, now);
    DestinationIsUnchangedOrWhole(start, events[..n], w);
  }

  /** The events are this run's own, and lead from `start` to where the directory is now. */
  ghost predicate Trace(start: World, events: seq<Event>, id: nat, now: World) {
    && After(start, events) == Some(now)
    && id in now.runs
    && forall e :: e in events ==> (e.Begin? && e.id == id) || (e.Call? && e.id == id)
  }

  /** One system call: the directory moves as the machine says. */
  method SystemCall(dir: ConfigDirectory, id: nat, answer: Answer, ghost start: World, ghost events: seq<Event>)
    returns (ghost more: seq<Event>)
    requires Trace(start, events, id, dir.world) && Step(dir.world, id, answer).Some?
    modifies dir
    ensures Step(old(dir.world), id, answer) == Some(dir.world)
    ensures more == events + [Call(id, answer)] && Trace(start, more, id, dir.world)
    ensures dir.world.runs[id].document == old(dir.world.runs[id].document)
    ensures dir.world.runs[id].replace == old(dir.world.runs[id].replace)
  {
    hide Step, After;
    AfterSnoc(start, events, Call(id, answer), dir.world);
    StepKeepsOtherRuns(dir.world, id, answer, Step(dir.world, id, answer).value);
    more := events + [Call(id, answer)];
    dir.world := Step(dir.world, id, answer).value;
  }

  /** The file is the finished file as far as it is written: these bytes, root's and closed to everyone else. */
  predicate Holds(w: World, ino: nat, data: seq<Byte>) {
    ino in w.disk.inodes && w.disk.inodes[ino].file == Final(data)
  }

  /** `write_all`: short writes go on from where the last one stopped, until all is written or a write fails. */
  method WriteAll(dir: ConfigDirectory, id: nat, ino: nat, system: System, ghost start: World, ghost events: seq<Event>)
    returns (ok: bool, ghost more: seq<Event>)
    requires Trace(start, events, id, dir.world) && system.WritesSomething()
    requires dir.world.runs[id].phase == Writing(ino, 0) && Holds(dir.world, ino, [])
    modifies dir
    ensures Trace(start, more, id, dir.world)
    ensures dir.world.runs[id].document == old(dir.world.runs[id].document)
    ensures dir.world.runs[id].replace == old(dir.world.runs[id].replace)
    ensures dir.world.disk.entries == old(dir.world.disk.entries)
    ensures system.NoWriteFails() ==> ok
    ensures ok ==> dir.world.runs[id].phase == Writing(ino, |dir.world.runs[id].document|)
    ensures ok ==> Holds(dir.world, ino, dir.world.runs[id].document)
    ensures !ok ==> dir.world.runs[id].phase == Sweeping(Failed)
  {
    hide After;
    more := events;
    var written, call := 0, 0;
    var size := |dir.world.runs[id].document|;
    while written < size
      invariant Trace(start, more, id, dir.world)
      invariant written <= size == |dir.world.runs[id].document|
      invariant dir.world.runs[id].document == old(dir.world.runs[id].document)
      invariant dir.world.runs[id].replace == old(dir.world.runs[id].replace)
      invariant dir.world.runs[id].phase == Writing(ino, written)
      invariant Holds(dir.world, ino, dir.world.runs[id].document[..written])
      invariant dir.world.disk.entries == old(dir.world.disk.entries)
      decreases size - written
    {
      if system.writeFails(call) {
        more := SystemCall(dir, id, Fails, start, more);
        return false, more;
      }
      var count := system.taken(call, size - written);
      ghost var document := dir.world.runs[id].document;
      assert document[..written] + document[written..written + count] == document[..written + count];
      more := SystemCall(dir, id, Wrote(count), start, more);
      written := written + count;
      call := call + 1;
    }
    assert dir.world.runs[id].document[..size] == dir.world.runs[id].document;
    ok := true;
  }

  /** A call that is done or fails as the system says; a failure before the file is in place leads to the sweep. */
  method CallOrFail(dir: ConfigDirectory, id: nat, fails: bool, ghost start: World, ghost events: seq<Event>)
    returns (ok: bool, ghost more: seq<Event>)
    requires Trace(start, events, id, dir.world)
    requires Step(dir.world, id, Done).Some? && Step(dir.world, id, Fails).Some?
    modifies dir
    ensures Trace(start, more, id, dir.world) && ok == !fails
    ensures Step(old(dir.world), id, if fails then Fails else Done) == Some(dir.world)
    ensures dir.world.runs[id].document == old(dir.world.runs[id].document)
    ensures dir.world.runs[id].replace == old(dir.world.runs[id].replace)
  {
    hide Step, After;
    more := SystemCall(dir, id, if fails then Fails else Done, start, events);
    ok := !fails;
  }

  /** Sets the mode and the owner of the file just opened. */
  method Prepare(dir: ConfigDirectory, id: nat, ino: nat, system: System, ghost start: World, ghost events: seq<Event>)
    returns (ok: bool, ghost more: seq<Event>)
    requires Trace(start, events, id, dir.world)
    requires dir.world.runs[id].phase == SettingMode(ino) && ino in dir.world.disk.inodes
    requires dir.world.disk.inodes[ino].file.data == []
    modifies dir
    ensures Trace(start, more, id, dir.world)
    ensures dir.world.runs[id].document == old(dir.world.runs[id].document)
    ensures dir.world.runs[id].replace == old(dir.world.runs[id].replace)
    ensures dir.world.disk.entries == old(dir.world.disk.entries)
    ensures ok == (!system.fails(1) && !system.fails(2))
    ensures ok ==> dir.world.runs[id].phase == Writing(ino, 0) && Holds(dir.world, ino, [])
    ensures !ok ==> dir.world.runs[id].phase == Sweeping(Failed)
  {
    hide After;
    ok, more := CallOrFail(dir, id, system.fails(1), start, events);
    if !ok {
      return;
    }
    ok, more := CallOrFail(dir, id, system.fails(2), start, more);
  }

  /** Opens the temporary file, sets its mode and owner, writes it, flushes it and closes it. */
  method Build(dir: ConfigDirectory, id: nat, system: System, created: Answer, ghost start: World, ghost events: seq<Event>)
    returns (ok: bool, ghost more: seq<Event>)
    requires Trace(start, events, id, dir.world) && system.WritesSomething() && created.Opened?
    requires dir.world.runs[id].phase == Opening
    modifies dir
    ensures Trace(start, more, id, dir.world)
    ensures dir.world.runs[id].document == old(dir.world.runs[id].document)
    ensures dir.world.runs[id].replace == old(dir.world.runs[id].replace)
    ensures system.NothingFails() && Temporary(id) !in old(dir.world.disk.entries) ==> ok
    ensures ok ==> dir.world.runs[id].phase.Placing?
    ensures ok ==> Holds(dir.world, dir.world.runs[id].phase.ino, dir.world.runs[id].document)
    ensures ok ==> dir.world.disk.entries == old(dir.world.disk.entries)[Temporary(id) := dir.world.runs[id].phase.ino]
    ensures ok ==> Temporary(id) !in old(dir.world.disk.entries)
    ensures !ok ==> dir.world.runs[id].phase in {NeverOpened, Sweeping(Failed)}
    ensures Temporary(id) in old(dir.world.disk.entries) ==> dir.world.runs[id].phase == NeverOpened && dir.world.disk == old(dir.world.disk)
  {
    hide After;
    var ino := dir.world.next;
    var refused := system.fails(0) || Temporary(id) in dir.world.disk.entries;
    more := SystemCall(dir, id, if refused then Fails else created, start, events);
    if refused {
      return false, more;
    }
    hide Step;
    ok, more := Prepare(dir, id, ino, system, start, more);
    if !ok {
      return;
    }
    ok, more := WriteAll(dir, id, ino, system, start, more);
    if !ok {
      return;
    }
    ok, more := Flush(dir, id, ino, system, start, more);
  }

  /** Flushes the written file and closes it. */
  method Flush(dir: ConfigDirectory, id: nat, ino: nat, system: System, ghost start: World, ghost events: seq<Event>)
    returns (ok: bool, ghost more: seq<Event>)
    requires Trace(start, events, id, dir.world) && dir.world.runs[id].phase == Writing(ino, |dir.world.runs[id].document|)
    requires Holds(dir.world, ino, dir.world.runs[id].document)
    modifies dir
    ensures Trace(start, more, id, dir.world)
    ensures dir.world.runs[id].document == old(dir.world.runs[id].document)
    ensures dir.world.runs[id].replace == old(dir.world.runs[id].replace)
    ensures dir.world.disk.entries == old(dir.world.disk.entries)
    ensures ok == (!system.fails(3) && !system.fails(4))
    ensures ok ==> dir.world.runs[id].phase == Placing(ino) && Holds(dir.world, ino, dir.world.runs[id].document)
    ensures !ok ==> dir.world.runs[id].phase == Sweeping(Failed)
  {
    hide After;
    ok, more := CallOrFail(dir, id, system.fails(3), start, events);
    if !ok {
      return;
    }
    ok, more := CallOrFail(dir, id, system.fails(4), start, more);
  }

  /** What placing and checking come to when no call fails: refused, or installed and read back if it is not too large. */
  predicate PlacedAsDue(before: World, after: World, id: nat, ino: nat)
    requires id in before.runs && id in after.runs
  {
    var run := before.runs[id];
    if !run.replace && Destination in before.disk.entries then
      after.runs[id].phase == Sweeping(AlreadyExists) && after.disk == before.disk
    else
      && after.runs[id].phase == Sweeping(if |run.document| <= MAX_BYTES then Success else NotReadBack)
      && Lookup(after.disk, Destination) == Some(Final(run.document))
      && after.disk.entries - {Temporary(id)} == before.disk.entries[Destination := ino] - {Temporary(id)}
  }

  /** Puts the file in place, flushes the directory and reads the file back. */
  method PlaceAndCheck(dir: ConfigDirectory, id: nat, ino: nat, system: System, ghost start: World, ghost events: seq<Event>)
    returns (ghost more: seq<Event>)
    requires Trace(start, events, id, dir.world) && dir.world.runs[id].phase == Placing(ino)
    requires Holds(dir.world, ino, dir.world.runs[id].document)
    modifies dir
    ensures Trace(start, more, id, dir.world)
    ensures dir.world.runs[id].document == old(dir.world.runs[id].document)
    ensures dir.world.runs[id].phase.Sweeping?
    ensures system.NothingFails() ==> PlacedAsDue(old(dir.world), dir.world, id, ino)
    ensures dir.world.runs[id].phase.result.Success? ==>
              Lookup(dir.world.disk, Destination) == Some(Final(dir.world.runs[id].document)) && |dir.world.runs[id].document| <= MAX_BYTES
  {
    hide After;
    var ok;
    ok, more := CallOrFail(dir, id, system.fails(5), start, events);
    if !ok || dir.world.runs[id].phase.Sweeping? {
      return;
    }
    ok, more := FlushAndReadBack(dir, id, system, start, more);
  }

  /** Flushes the directory and reads the destination back. */
  method FlushAndReadBack(dir: ConfigDirectory, id: nat, system: System, ghost start: World, ghost events: seq<Event>)
    returns (ok: bool, ghost more: seq<Event>)
    requires Trace(start, events, id, dir.world) && dir.world.runs[id].phase.FlushingDirectory?
    modifies dir
    ensures Trace(start, more, id, dir.world)
    ensures dir.world.runs[id].document == old(dir.world.runs[id].document)
    ensures dir.world.disk.entries == old(dir.world.disk.entries) && dir.world.disk.inodes == old(dir.world.disk.inodes)
    ensures ok == (!system.fails(6) && !system.fails(7))
    ensures dir.world.runs[id].phase.Sweeping?
    ensures ok ==> dir.world.runs[id].phase.result ==
                     var same := Lookup(dir.world.disk, Destination) == Some(Final(dir.world.runs[id].document));
                     if same && |dir.world.runs[id].document| <= MAX_BYTES then Success else NotReadBack
    ensures !ok ==> dir.world.runs[id].phase.result in {Failed, NotReadBack}
  {
    hide After;
    ok, more := CallOrFail(dir, id, system.fails(6), start, events);
    if !ok {
      return;
    }
    ok, more := CallOrFail(dir, id, system.fails(7), start, more);
  }

  /** What a run comes to when no call fails, on a directory as it was before. */
  predicate InstalledAsDue(before: Disk, after: Disk, id: nat, document: seq<Byte>, replace: bool, outcome: Outcome) {
    if Temporary(id) in before.entries then outcome == Failed && after == before
    else if !replace && Destination in before.entries then outcome == AlreadyExists && after.entries == before.entries
    else
      && outcome == (if |document| <= MAX_BYTES then Success else NotReadBack)
      && Lookup(after, Destination) == Some(Final(document))
      && Temporary(id) !in after.entries
      && after.entries.Keys == before.entries.Keys + {Destination}
      && (forall name :: name in before.entries && name != Destination ==> after.entries[name] == before.entries[name])
  }

  /**
   `install`: whatever fails, and however short the writes, the calls made are a run of the machine, the run has
   ended, and it reports success only when the whole document is at the destination. When no call fails, the document
   is installed and nothing else changes, unless a destination is there and may not be replaced; and the run reports
   success exactly when the document is no larger than what is read back.
   */
  method Install(dir: ConfigDirectory, id: nat, document: seq<Byte>, replace: bool, system: System, created: Answer)
    returns (outcome: Outcome, ghost events: seq<Event>)
    requires id !in dir.world.runs && system.WritesSomething() && created.Opened?
    modifies dir
    ensures Trace(old(dir.world), events, id, dir.world)
    ensures dir.world.runs[id].document == document && Ended(dir.world.runs[id].phase)
    ensures match dir.world.runs[id].phase
            case Exited(result) => outcome == result
            case _ => outcome == Failed
    ensures outcome.Success? ==> Lookup(dir.world.disk, Destination) == Some(Final(document)) && |document| <= MAX_BYTES
    ensures system.NothingFails() ==> InstalledAsDue(old(dir.world.disk), dir.world.disk, id, document, replace, outcome)
  {
    ghost var start := dir.world;
    AfterSnoc(start, [], Begin(id, document, replace), start);
    events := [Begin(id, document, replace)];
    assert [] + events == events;
    dir.world := Next(dir.world, Begin(id, document, replace)).value;
    hide After, Step;
    var ok;
    ok, events := Build(dir, id, system, created, start, events);
    ghost var built := dir.world;
    if ok {
      events := PlaceAndCheck(dir, id, dir.world.runs[id].phase.ino, system, start, events);
    } else if dir.world.runs[id].phase.NeverOpened? {
      return Failed, events;
    }
    outcome := dir.world.runs[id].phase.result;
    ghost var placed := dir.world;
    var swept;
    swept, events := Sweep(dir, id, system, start, events);
    if !swept {
      return Failed, events;
    }
    if system.NothingFails() {
      SweptIsInstalled(start.disk, built, placed, id, replace, outcome);
    }
  }

  /** Removes the temporary file, a missing one being no failure. */
  method Sweep(dir: ConfigDirectory, id: nat, system: System, ghost start: World, ghost events: seq<Event>)
    returns (ok: bool, ghost more: seq<Event>)
    requires Trace(start, events, id, dir.world) && dir.world.runs[id].phase.Sweeping?
    modifies dir
    ensures Trace(start, more, id, dir.world)
    ensures dir.world.runs[id].document == old(dir.world.runs[id].document)
    ensures ok == !(system.fails(8) && Temporary(id) in old(dir.world.disk.entries))
    ensures ok ==> dir.world.runs[id].phase == Exited(old(dir.world.runs[id].phase.result))
    ensures ok ==> dir.world.disk == old(dir.world.disk).(entries := old(dir.world.disk.entries) - {Temporary(id)})
    ensures !ok ==> dir.world.runs[id].phase == SweepFailed
  {
    hide After;
    ok := !(system.fails(8) && Temporary(id) in dir.world.disk.entries);
    more := SystemCall(dir, id, if ok then Done else Fails, start, events);
  }

  lemma SweptIsInstalled(before: Disk, built: World, placed: World, id: nat, replace: bool, outcome: Outcome)
    requires id in built.runs && id in placed.runs && built.runs[id].phase.Placing? && placed.runs[id].phase == Sweeping(outcome)
    requires built.runs[id].replace == replace && Temporary(id) !in before.entries
    requires built.disk.entries == before.entries[Temporary(id) := built.runs[id].phase.ino]
    requires PlacedAsDue(built, placed, id, built.runs[id].phase.ino)
    ensures InstalledAsDue(before, placed.disk.(entries := placed.disk.entries - {Temporary(id)}), id, built.runs[id].document, replace, outcome)
  {
    var entries := placed.disk.entries - {Temporary(id)};
    if !replace && Destination in before.entries {
      assert entries == before.entries;
    } else {
      assert entries == before.entries[Destination := built.runs[id].phase.ino];
    }
  }
}
